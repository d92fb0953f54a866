/** The pre-trade risk gate: the integer model, the 32-bit gate, and the proof that on every order
    stream they accept and explain alike and keep the position within its limit. */
module Risk {
  import opened Bits
  import opened Imbalance
  import B = Book

  const MAX_ORDER_SIZE: int := 500
  const MAX_POSITION: int := 1000
  const MAX_PRICE_BAND: int := 5000

  datatype Reason = Ok | TooLarge | PriceBand | PositionLimit | Halted

  datatype Verdict = Verdict(accepted: bool, reason: Reason)

  /** One cycle at the gate: an order or none, its reference price, and the kill switch. */
  datatype Offer = Offer(valid: bool, order: Decision, ref: nat, halt: bool)

  function SignedSize(d: Decision): int { if d.sell then 0 - d.size else d.size }

  // ---- golden ---------------------------------------------------------------------------------

  function Check(position: int, d: Decision, ref: nat, halt: bool): Verdict {
    var okSize := d.size <= MAX_ORDER_SIZE;
    var okPrice := Abs(d.price - ref) <= MAX_PRICE_BAND;
    var okPosition := Abs(position + SignedSize(d)) <= MAX_POSITION;
    Verdict(!halt && okSize && okPrice && okPosition,
      if halt then Halted else if !okSize then TooLarge else if !okPrice then PriceBand
      else if !okPosition then PositionLimit else Ok)
  }

  /** MAIN RESULT. An order is accepted exactly when trading is not halted, its size is at most 500, its price within
      5000 ticks of the reference, and the position after it between -1000 and 1000; otherwise the reason is
      the first of these that fails. */
  lemma VerdictIs(position: int, d: Decision, ref: nat, halt: bool)
    ensures
      var v, after := Check(position, d, ref, halt), if d.sell then position - d.size else position + d.size;
      var near := ref - 5000 <= d.price <= ref + 5000;
      && (v.accepted <==> !halt && d.size <= 500 && near && -1000 <= after <= 1000)
      && (v.reason == Halted <==> halt)
      && (v.reason == TooLarge <==> !halt && d.size > 500)
      && (v.reason == PriceBand <==> !halt && d.size <= 500 && !near)
      && (v.reason == PositionLimit <==> !halt && d.size <= 500 && near && !(-1000 <= after <= 1000))
      && (v.reason == Ok <==> v.accepted)
  {
  }

  class RiskCheck {
    var position: int

    constructor ()
      ensures position == 0
    {
      position := 0;
    }

    method CheckOrder(d: Decision, ref: nat, halt: bool) returns (v: Verdict)
      modifies this
      ensures v == Check(old(position), d, ref, halt)
      ensures position == if v.accepted then old(position) + SignedSize(d) else old(position)
    {
      var priceDev := if d.price >= ref then d.price - ref else ref - d.price;
      var signedQty: int := if d.sell then 0 - d.size else d.size;
      var newPosition := position + signedQty;
      var okSize := d.size <= MAX_ORDER_SIZE;
      var okPrice := priceDev <= MAX_PRICE_BAND;
      var okPosition := Abs(newPosition) <= MAX_POSITION;
      var accepted := !halt && okSize && okPrice && okPosition;
      var reason :=
        if halt then Halted else if !okSize then TooLarge else if !okPrice then PriceBand
        else if !okPosition then PositionLimit else Ok;
      if accepted {
        position := newPosition;
      }
      v := Verdict(accepted, reason);
    }
  }

  // ---- RTL ------------------------------------------------------------------------------------

  /** The position register after the order, wrapping in 32-bit two's complement. */
  function NewPosition(position: Int32, d: Decision): Int32 {
    var qty := if d.sell then Signed32(0 - Signed32(d.size)) else Signed32(d.size);
    Signed32(position + qty)
  }

  /** The combinational gate. */
  function Gate(position: Int32, o: Offer): Verdict {
    var d := o.order;
    var dev := if d.price >= o.ref then d.price - o.ref else o.ref - d.price;
    var next := NewPosition(position, d);
    var absNext := if next < 0 then Low32(0 - next) else next;
    var okSize := d.size <= MAX_ORDER_SIZE;
    var okPrice := dev <= MAX_PRICE_BAND;
    var okPosition := absNext <= MAX_POSITION;
    var accepted := o.valid && !o.halt && okSize && okPrice && okPosition;
    Verdict(accepted,
      if !o.valid then Ok else if o.halt then Halted else if !okSize then TooLarge else if !okPrice then PriceBand
      else if !okPosition then PositionLimit else Ok)
  }

  function NextPosition(position: Int32, o: Offer): Int32 {
    if Gate(position, o).accepted then NewPosition(position, o.order) else position
  }

  predicate WordSizedOffer(o: Offer) { o.order.price < TWO32 && o.order.size < TWO32 && o.ref < TWO32 }

  lemma SmallMove(position: Int32, d: Decision)
    requires Abs(position) <= MAX_POSITION && d.size <= MAX_ORDER_SIZE
    ensures NewPosition(position, d) == position + SignedSize(d)
    ensures Low32(Abs(position + SignedSize(d))) == Abs(position + SignedSize(d))
  {
  }

  /** The gate is the integer check: the position sum only wraps where SIZE blocks already. */
  lemma GateIsCheck(position: Int32, o: Offer)
    requires Abs(position) <= MAX_POSITION && WordSizedOffer(o) && o.valid
    ensures Gate(position, o) == Check(position, o.order, o.ref, o.halt)
    ensures Gate(position, o).accepted ==> NewPosition(position, o.order) == position + SignedSize(o.order)
  {
    if o.order.size <= MAX_ORDER_SIZE {
      SmallMove(position, o.order);
      hide NewPosition, Low32;

    } else {
      hide NewPosition, Low32;
    }
  }

  /** MAIN RESULT. The same of the 32-bit gate, from any position within the limit: nothing is accepted while halted,
      and the position register moves by the signed size of what is accepted and by nothing else. */
  lemma GateIs(position: Int32, o: Offer)
    requires -1000 <= position <= 1000 && WordSizedOffer(o)
    ensures
      var v, d := Gate(position, o), o.order;
      var after := if d.sell then position - d.size else position + d.size;
      && (v.accepted <==>
          o.valid && !o.halt && d.size <= 500 && o.ref - 5000 <= d.price <= o.ref + 5000 && -1000 <= after <= 1000)
      && (o.valid && o.halt ==> v.reason == Halted)
      && NextPosition(position, o) == if v.accepted then after else position
  {
    if o.valid {
      GateIsCheck(position, o);
      VerdictIs(position, o.order, o.ref, o.halt);
    }
  }

  // ---- runs -----------------------------------------------------------------------------------

  function RtlPosition(os: seq<Offer>): Int32 {
    if os == [] then 0 else NextPosition(RtlPosition(os[..|os| - 1]), os[|os| - 1])
  }

  /** The integer model's position after the same stream. */
  function GoldenPosition(os: seq<Offer>): int {
    if os == [] then 0
    else
      var before, o := GoldenPosition(os[..|os| - 1]), os[|os| - 1];
      if o.valid && Check(before, o.order, o.ref, o.halt).accepted then before + SignedSize(o.order) else before
  }

  /** Signed sizes of the orders the integer model accepts. */
  function AcceptedSizes(os: seq<Offer>): seq<int> {
    if os == [] then []
    else
      var before, o := os[..|os| - 1], os[|os| - 1];
      var ok := o.valid && Check(GoldenPosition(before), o.order, o.ref, o.halt).accepted;
      AcceptedSizes(before) + (if ok then [SignedSize(o.order)] else [])
  }

  function Total(s: seq<int>): int { if s == [] then 0 else Total(s[..|s| - 1]) + s[|s| - 1] }

  lemma PositionStep(position: Int32, o: Offer)
    requires Abs(position) <= MAX_POSITION && WordSizedOffer(o)
    ensures
      var ok := o.valid && Check(position, o.order, o.ref, o.halt).accepted;
      NextPosition(position, o) == if ok then position + SignedSize(o.order) else position
    ensures Abs(NextPosition(position, o)) <= MAX_POSITION
  {
    if o.valid { GateIsCheck(position, o); }
  }

  lemma {:induction false} PositionRun(os: seq<Offer>)
    requires forall k | 0 <= k < |os| :: WordSizedOffer(os[k])
    ensures RtlPosition(os) == GoldenPosition(os) == Total(AcceptedSizes(os))
    ensures Abs(RtlPosition(os)) <= MAX_POSITION
  {
    if os != [] {
      var before, o := os[..|os| - 1], os[|os| - 1];
      PositionRun(before);
      PositionStep(RtlPosition(before), o);
      TotalAppend(AcceptedSizes(before), SignedSize(o.order));
    }
  }

  lemma TotalAppend(s: seq<int>, x: int)
    ensures Total(s + []) == Total(s) && Total(s + [x]) == Total(s) + x
  {
    assert s + [] == s && (s + [x])[..|s|] == s;
  }

  /** MAIN RESULT. On every stream of 32-bit orders the position register is the integer position, the
      sum of the accepted signed sizes, and never beyond the limit; and the verdict on the next order
      is the integer one, reason included. */
  lemma GateRunIsGolden(os: seq<Offer>, next: Offer)
    requires (forall k | 0 <= k < |os| :: WordSizedOffer(os[k])) && WordSizedOffer(next) && next.valid
    ensures RtlPosition(os) == GoldenPosition(os) == Total(AcceptedSizes(os))
    ensures Abs(RtlPosition(os)) <= MAX_POSITION
    ensures Gate(RtlPosition(os), next) == Check(GoldenPosition(os), next.order, next.ref, next.halt)
  {
    PositionRun(os);
    GateIsCheck(RtlPosition(os), next);
  }

  // ---- what the gate can hold against an imbalance order ------------------------------------------

  /** The mid as the 32-bit datapath forms it: the carry of the sum is lost. */
  function MidBits(s: B.Snapshot): nat { Low32(s.bidPrice + s.askPrice) / 2 }

  lemma LostCarry(s: B.Snapshot)
    requires s.bidPrice < TWO32 && s.askPrice < TWO32
    ensures MidBits(s) == if s.bidPrice + s.askPrice < TWO32 then Mid(s) else Mid(s) - TWO31
  {
  }

  lemma OrderIsSmall(prevValid: bool, s: B.Snapshot)
    requires Rule(prevValid, s).Some?
    ensures Rule(prevValid, s).value.size <= MAX_ORDER_SIZE
  {
  }

  /** MAIN RESULT. An imbalance order checked against the 32-bit mid of its own snapshot is never too
      large, and it is outside the price collar exactly when the mid has lost its carry. */
  lemma ImbalanceOrderVerdict(prevValid: bool, s: B.Snapshot, position: int, halt: bool)
    requires Rule(prevValid, s).Some? && s.bidPrice < TWO32 && s.askPrice < TWO32
    ensures
      var d := Rule(prevValid, s).value;
      var v := Check(position, d, MidBits(s), halt);
      && v.reason != TooLarge
      && (Abs(d.price - MidBits(s)) <= MAX_PRICE_BAND <==> s.bidPrice + s.askPrice < TWO32)
      && (s.bidPrice + s.askPrice < TWO32 ==> v.reason in {Ok, PositionLimit, Halted})
  {
    DecisionNearMid(prevValid, s);
    OrderIsSmall(prevValid, s);
    LostCarry(s);
    hide Rule, Mid, MidBits;
  }

  /** Such a mid exists: an order on this book is near its own mid, and blocked for its price. */
  lemma LostCarryBlocks()
    ensures
      var s := B.Snapshot(0x8000_0000, 10, 0x8000_0001, 1, true, [10, 0, 0, 0], [1, 0, 0, 0]);
      && Rule(true, s).Some?
      && Check(0, Rule(true, s).value, Mid(s), false) == Verdict(true, Ok)
      && Check(0, Rule(true, s).value, MidBits(s), false) == Verdict(false, PriceBand)
  {
    var bids, asks := [10, 0, 0, 0], [1, 0, 0, 0];
    assert bids[1..] == [0, 0, 0] && asks[1..] == [0, 0, 0];
    var s := B.Snapshot(0x8000_0000, 10, 0x8000_0001, 1, true, bids, asks);
    assert Weighted(bids) >= 40;
    assert Rule(true, s).Some?;
    ImbalanceOrderVerdict(true, s, 0, false);
  }

  class RiskCheckRtl {
    var position: Int32

    constructor ()
      ensures position == 0
    {
      position := 0;
    }

    /** The gate's outputs of this cycle; the position register moves at the edge that ends it. From a
        position within its limit the verdict is the integer check's, the register moves by the accepted
        signed size, and stays within the limit. */
    method Clock(o: Offer) returns (v: Verdict)
      modifies this
      ensures v == Gate(old(position), o) && position == NextPosition(old(position), o)
      ensures Abs(old(position)) <= MAX_POSITION && WordSizedOffer(o) ==>
        && Abs(position) <= MAX_POSITION
        && position == old(position) + (if v.accepted then SignedSize(o.order) else 0)
        && (if o.valid then v == Check(old(position), o.order, o.ref, o.halt) else v == Verdict(false, Ok))
    {
      if Abs(position) <= MAX_POSITION && WordSizedOffer(o) {
        PositionStep(position, o);
        if o.valid {
          GateIsCheck(position, o);
        }
      }
      var d := o.order;
      var priceDev := if d.price >= o.ref then d.price - o.ref else o.ref - d.price;
      var signedQty := if d.sell then Signed32(0 - Signed32(d.size)) else Signed32(d.size);
      var newPosition := Signed32(position + signedQty);
      var absNewPosition := if newPosition < 0 then Low32(0 - newPosition as int) else newPosition;
      var okSize, okPrice := d.size <= MAX_ORDER_SIZE, priceDev <= MAX_PRICE_BAND;
      var okPosition := absNewPosition <= MAX_POSITION;
      var reason := Ok;
      if o.valid {
        if o.halt {
          reason := Halted;
        } else if !okSize {
          reason := TooLarge;
        } else if !okPrice {
          reason := PriceBand;
        } else if !okPosition {
          reason := PositionLimit;
        }
      }
      v := Verdict(o.valid && !o.halt && okSize && okPrice && okPosition, reason);
      if v.accepted {
        position := newPosition;
      }
    }
  }
}
