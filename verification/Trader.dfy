/** The trading pipeline as one function of the book views it is shown, one a cycle: the golden rule, its
    cooldown, and the integer risk check; and the proof that the accepted orders of the datapath are
    exactly its orders. */
module Trader {
  import opened Bits
  import B = Book
  import P = ParserRtl
  import R = BookRtl
  import M = Imbalance
  import K = Risk
  import opened Top

  /** Whether a decision is made once these views have been shown: the rule makes one on the last but one,
      and none was made in the cooldown before. */
  ghost predicate Fires(shots: seq<B.Snapshot>)
    decreases |shots|
  {
    && |shots| >= 2 && M.Rule(M.PrevValid(shots, |shots| - 2), shots[|shots| - 2]).Some?
    && forall m | 0 <= m < |shots| && |shots| - 1 - m < M.COOLDOWN :: !Fires(shots[..m])
  }

  /** The decision itself. */
  function Decided(shots: seq<B.Snapshot>): M.Decision
    requires |shots| >= 2 && M.Rule(M.PrevValid(shots, |shots| - 2), shots[|shots| - 2]).Some?
  {
    M.Rule(M.PrevValid(shots, |shots| - 2), shots[|shots| - 2]).value
  }

  /** The position some orders add up to. */
  function Position(orders: seq<M.Decision>): int {
    if orders == [] then 0
    else Position(orders[..|orders| - 1]) + K.SignedSize(orders[|orders| - 1])
  }

  /** The order offered in the cycle after these views, if it is made and passes the integer check. */
  ghost function NextOrder(shots: seq<B.Snapshot>, position: int, halt: bool): seq<M.Decision> {
    if Fires(shots) && K.Check(position, Decided(shots), K.MidBits(shots[|shots| - 2]), halt).accepted
    then [Decided(shots)] else []
  }

  /** All orders offered in these cycles that pass the integer check at the position of those before them. */
  ghost function Orders(shots: seq<B.Snapshot>, halts: seq<bool>): seq<M.Decision>
    requires |halts| == |shots|
  {
    if shots == [] then []
    else
      var n := |shots| - 1;
      var earlier := Orders(shots[..n], halts[..n]);
      earlier + NextOrder(shots[..n], Position(earlier), halts[n])
  }

  // ---- the datapath ------------------------------------------------------------------------------

  /** Decisions of the registers are those of the rule and cooldown. */
  lemma {:induction false} PulseIsFire(shots: seq<B.Snapshot>)
    requires forall k | 0 <= k < |shots| :: M.WordSized(shots[k])
    ensures M.Clocked(shots).valid <==> Fires(shots)
    ensures Fires(shots) ==> M.Clocked(shots).out == Decided(shots)
    decreases |shots|
  {
    M.PulseIsGolden(shots);
    if |shots| >= 2 {
      forall m | 0 <= m < |shots| ensures M.Pulse(shots, m) <==> Fires(shots[..m]) {
        PulseIsFire(shots[..m]);
      }
    }
  }

  /** The orders the gate of the datapath has let through. */
  function Taken(offers: seq<K.Offer>): seq<M.Decision> {
    if offers == [] then []
    else
      var before, o := offers[..|offers| - 1], offers[|offers| - 1];
      Taken(before) + (if K.Gate(K.RtlPosition(before), o).accepted then [o.order] else [])
  }

  function Halts(pins: seq<Pins>): (r: seq<bool>)
    ensures |r| == |pins|
  {
    seq(|pins|, k requires 0 <= k < |pins| => pins[k].halt)
  }

  /** What the datapath offers to its gate: the pipeline's decision, with the mid of the view it was made
      on. */
  lemma OfferIsDecision(s: Regs, pins: seq<Pins>, halt: bool)
    requires IsReset(s) && s.mid1 < TWO32 && s.mid2 < TWO32
    ensures
      var o, shots := GateOffer(Clocked(s, pins), Pins(false, 0, false, halt)), Shots(s, pins);
      && Abs(Clocked(s, pins).position) <= K.MAX_POSITION && K.WordSizedOffer(o)
      && (o.valid <==> Fires(shots)) && o.halt == halt
      && (o.valid ==> o.order == Decided(shots) && o.ref == K.MidBits(shots[|shots| - 2]))
  {
    hide Next, Fires, M.Clocked, M.Rule, K.RtlPosition, K.AcceptedSizes, K.MidBits;
    BlocksRun(s, pins);
    OffersInRange(s, pins);
    K.PositionRun(Offers(s, pins));
    ShotsInRange(s, pins);
    PulseIsFire(Shots(s, pins));
    FiresLate(Shots(s, pins));
    if |pins| >= 2 { MidAligned(s, pins); }
  }

  lemma FiresLate(shots: seq<B.Snapshot>)
    ensures Fires(shots) ==> |shots| >= 2
  {
  }

  /** One more offer: the gate lets it through exactly when the pipeline orders it. */
  lemma OfferIsOrder(o: K.Offer, position: Int32, shots: seq<B.Snapshot>, halt: bool)
    requires Abs(position) <= K.MAX_POSITION && K.WordSizedOffer(o)
    requires (o.valid <==> Fires(shots)) && o.halt == halt
    requires o.valid ==> o.order == Decided(shots) && o.ref == K.MidBits(shots[|shots| - 2])
    ensures (if K.Gate(position, o).accepted then [o.order] else []) == NextOrder(shots, position, halt)
    ensures
      K.NextPosition(position, o) == position + if K.Gate(position, o).accepted then K.SignedSize(o.order) else 0
  {
    hide Fires, Decided, K.MidBits;
    if o.valid { K.GateIsCheck(position, o); }
  }

  lemma PositionSnoc(orders: seq<M.Decision>, o: M.Decision)
    ensures Position(orders + [o]) == Position(orders) + K.SignedSize(o)
  {
    assert (orders + [o])[..|orders|] == orders;
  }

  lemma NothingYet()
    ensures Taken([]) == Orders([], []) == [] && K.RtlPosition([]) == Position([])
  {
  }

  lemma TakenSnoc(offers: seq<K.Offer>, o: K.Offer)
    ensures Taken(offers + [o]) == Taken(offers) + if K.Gate(K.RtlPosition(offers), o).accepted then [o.order] else []
    ensures K.RtlPosition(offers + [o]) == K.NextPosition(K.RtlPosition(offers), o)
  {
    assert (offers + [o])[..|offers|] == offers;
  }

  lemma OrdersSnoc(shots: seq<B.Snapshot>, halts: seq<bool>, shot: B.Snapshot, halt: bool)
    requires |halts| == |shots|
    ensures Orders(shots + [shot], halts + [halt]) ==
            Orders(shots, halts) + NextOrder(shots, Position(Orders(shots, halts)), halt)
  {
    assert (shots + [shot])[..|shots|] == shots && (halts + [halt])[..|halts|] == halts;
  }

  /** MAIN RESULT. From reset and whatever comes in, the orders the risk gate lets through are in every
      cycle exactly the orders of the pipeline on the book views shown so far, and the position register
      is what they add up to. */
  lemma {:induction false} TakenAreOrders(s: Regs, pins: seq<Pins>)
    requires IsReset(s) && s.mid1 < TWO32 && s.mid2 < TWO32
    ensures Taken(Offers(s, pins)) == Orders(Shots(s, pins), Halts(pins))
    ensures K.RtlPosition(Offers(s, pins)) == Position(Taken(Offers(s, pins)))
  {
    hide NextOrder, K.Gate, K.NextPosition, K.RtlPosition, Clocked, GateOffer, Shown, Taken, Orders, Position;
    if pins == [] {
      NothingYet();
      assert Offers(s, pins) == [] && Shots(s, pins) == [] && Halts(pins) == [];
    } else {
      var before, i := pins[..|pins| - 1], pins[|pins| - 1];
      TakenAreOrders(s, before);
      LastOffer(s, pins);
      var o := GateOffer(Clocked(s, before), i);
      TakenSnoc(Offers(s, before), o);
      OrdersSnoc(Shots(s, before), Halts(before), Shown(Clocked(s, before)), i.halt);
      assert Halts(pins) == Halts(before) + [i.halt];
      PositionSnoc(Taken(Offers(s, before)), o.order);
      assert Taken(Offers(s, before)) + [] == Taken(Offers(s, before));
    }
  }

  lemma LastOffer(s: Regs, pins: seq<Pins>)
    requires IsReset(s) && s.mid1 < TWO32 && s.mid2 < TWO32 && pins != []
    ensures
      var before, i := pins[..|pins| - 1], pins[|pins| - 1];
      var o, position := GateOffer(Clocked(s, before), i), K.RtlPosition(Offers(s, before));
      && (if K.Gate(position, o).accepted then [o.order] else []) == NextOrder(Shots(s, before), position, i.halt)
      && K.NextPosition(position, o) ==
         position + if K.Gate(position, o).accepted then K.SignedSize(o.order) else 0
  {
    hide Next, Fires, NextOrder, K.Gate, K.NextPosition, Decided, K.MidBits, Shots, Offers;
    var before, i := pins[..|pins| - 1], pins[|pins| - 1];
    BlocksRun(s, before);
    OfferIsDecision(s, before, i.halt);
    OfferIsOrder(GateOffer(Clocked(s, before), i), Clocked(s, before).position, Shots(s, before), i.halt);
  }

  // ---- the kill switch ------------------------------------------------------------------------------------

  lemma HaltStops(shots: seq<B.Snapshot>, position: int)
    ensures NextOrder(shots, position, true) == []
  {
  }

  /** MAIN RESULT. In a cycle with the kill switch set no order is taken, whatever the strategy shows: the position
      register stays, and there is no beat two cycles later. */
  lemma HaltTakesNothing(s: Regs, pins: seq<Pins>, k: nat)
    requires IsReset(s) && k < |pins| && pins[k].halt
    ensures Taken(Offers(s, pins[..k + 1])) == Taken(Offers(s, pins[..k]))
    ensures Clocked(s, pins[..k + 1]).position == Clocked(s, pins[..k]).position
    ensures k + 2 <= |pins| ==> !Clocked(s, pins[..k + 2]).beatValid
  {
    hide P.Next, R.Next, M.Next, Shown, K.RtlPosition, M.Rule;
    var now, next := pins[..k], pins[..k + 1];
    assert next[..k] == now && next[k] == pins[k];
    var o := GateOffer(Clocked(s, now), pins[k]);
    assert Offers(s, next) == Offers(s, now) + [o];
    TakenSnoc(Offers(s, now), o);
    assert o.halt && !K.Gate(K.RtlPosition(Offers(s, now)), o).accepted;
    assert Taken(Offers(s, now)) + [] == Taken(Offers(s, now));
    if k + 2 <= |pins| {
      var late := pins[..k + 2];
      BeatIsAcceptedOrder(s, late);
      assert late[..k + 1] == next;
      assert Offers(s, late)[..k + 1] == Offers(s, next);
      assert Offers(s, late)[k] == o;
    }
  }

  /** While it stays set the pipeline makes no more orders. */
  lemma {:induction false} HaltedOrders(shots: seq<B.Snapshot>, halts: seq<bool>, k: nat)
    requires |halts| == |shots| && k <= |shots| && forall j | k <= j < |halts| :: halts[j]
    ensures Orders(shots, halts) == Orders(shots[..k], halts[..k])
  {
    hide NextOrder;
    if k == |shots| {
      assert shots[..k] == shots && halts[..k] == halts;
    } else {
      var n := |shots| - 1;
      HaltedOrders(shots[..n], halts[..n], k);
      assert shots[..n][..k] == shots[..k] && halts[..n][..k] == halts[..k];
      HaltStops(shots[..n], Position(Orders(shots[..n], halts[..n])));
      assert Orders(shots[..n], halts[..n]) + [] == Orders(shots[..n], halts[..n]);
    }
  }
}
