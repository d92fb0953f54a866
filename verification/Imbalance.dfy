/** The depth-weighted imbalance strategy: the golden rule on a book snapshot, the two-stage RTL with
    its cooldown, and the proof that every pulse is the golden decision of two cycles earlier. */
module Imbalance {
  import opened Bits
  import opened Messages
  import B = Book

  const NLEVELS: nat := 4
  const BID_THRESH: int := 15
  const ASK_THRESH: int := 15
  const MAX_SPREAD: int := 1000
  const COOLDOWN: nat := 8
  const BASE_LOT: int := 100
  const MAX_LOT: int := 250

  /** `sell` is the action bit. */
  datatype Decision = Decision(sell: bool, price: nat, size: nat)

  // ---- golden --------------------------------------------------------------------------------

  /** Level i of n weighs n - i. */
  function Weighted(sizes: seq<nat>): nat {
    if sizes == [] then 0 else |sizes| * sizes[0] + Weighted(sizes[1..])
  }

  function Lot(dominant: nat, other: nat, thresh: int): (r: nat)
    ensures BASE_LOT <= r <= MAX_LOT
  {
    var size := if dominant * 10 > 3 * thresh * other then 3 * BASE_LOT
                else if dominant * 10 > 2 * thresh * other then 2 * BASE_LOT else BASE_LOT;
    Min(size, MAX_LOT)
  }

  predicate Eligible(prevValid: bool, s: B.Snapshot) {
    s.valid && prevValid && s.askPrice > s.bidPrice && s.askPrice - s.bidPrice <= MAX_SPREAD
  }

  predicate BuyCondition(wBid: nat, wAsk: nat) { wBid * 10 > BID_THRESH * wAsk }
  predicate SellCondition(wBid: nat, wAsk: nat) { wAsk * 10 > ASK_THRESH * wBid }

  /** The golden rule: the decision on a snapshot, given whether the one before was valid. */
  function Rule(prevValid: bool, s: B.Snapshot): Option<Decision> {
    if !Eligible(prevValid, s) then None
    else
      var wBid, wAsk := Weighted(s.bidSizes), Weighted(s.askSizes);
      if BuyCondition(wBid, wAsk) && s.askPrice > 0 then
        Some(Decision(false, s.askPrice, Lot(wBid, wAsk, BID_THRESH)))
      else if SellCondition(wBid, wAsk) && s.bidPrice > 0 then
        Some(Decision(true, s.bidPrice, Lot(wAsk, wBid, ASK_THRESH)))
      else None
  }

  /** The two conditions exclude each other, so the priority of BUY never matters. */
  lemma BuySellExclusive(wBid: nat, wAsk: nat)
    ensures !(BuyCondition(wBid, wAsk) && SellCondition(wBid, wAsk))
  {
  }

  function Mid(s: B.Snapshot): nat { (s.bidPrice + s.askPrice) / 2 }

  /** The mid is half way between the touch prices, rounded down. */
  lemma MidIs(s: B.Snapshot)
    requires s.bidPrice <= s.askPrice
    ensures Mid(s) - s.bidPrice <= s.askPrice - Mid(s) <= Mid(s) - s.bidPrice + 1
  {
  }

  /** A decision crosses the spread at the touch, so it lies within half of the widest spread, rounded
      up, of the mid. */
  lemma DecisionNearMid(prevValid: bool, s: B.Snapshot)
    requires Rule(prevValid, s).Some?
    ensures
      var d := Rule(prevValid, s).value;
      && Abs(d.price - Mid(s)) <= (MAX_SPREAD + 1) / 2
      && d.price == (if d.sell then s.bidPrice else s.askPrice)
  {
  }

  class StrategyImbalance {
    var prevValid: bool

    constructor ()
      ensures !prevValid
    {
      prevValid := false;
    }

    method Evaluate(s: B.Snapshot) returns (d: Option<Decision>)
      modifies this
      ensures prevValid == s.valid && d == Rule(old(prevValid), s)
    {
      var normal := s.askPrice > s.bidPrice;
      var spread := if normal then s.askPrice - s.bidPrice else 0;
      var elig := s.valid && prevValid && normal && spread <= MAX_SPREAD;
      prevValid := s.valid;
      if !elig {
        return None;
      }
      var wBid, wAsk := Weighted(s.bidSizes), Weighted(s.askSizes);
      if wBid * 10 > BID_THRESH * wAsk && s.askPrice > 0 {
        return Some(Decision(false, s.askPrice, Lot(wBid, wAsk, BID_THRESH)));
      }
      if wAsk * 10 > ASK_THRESH * wBid && s.bidPrice > 0 {
        return Some(Decision(true, s.bidPrice, Lot(wAsk, wBid, ASK_THRESH)));
      }
      d := None;
    }
  }

  // ---- RTL -----------------------------------------------------------------------------------

  /** Snapshots as the 32-bit outputs of the book carry them. */
  predicate WordSized(s: B.Snapshot) {
    && s.bidPrice < TWO32 && s.askPrice < TWO32 && |s.bidSizes| == NLEVELS && |s.askSizes| == NLEVELS
    && (forall i | 0 <= i < NLEVELS :: s.bidSizes[i] < TWO32 && s.askSizes[i] < TWO32)
  }

  datatype Regs = Regs(prevValid: bool, wBid: nat, wAsk: nat, bidPrice: nat, askPrice: nat, elig: bool,
                       valid: bool, out: Decision, cooldown: nat)

  const RESET := Regs(false, 0, 0, 0, 0, false, false, Decision(false, 0, 0), 0)

  /** The volume sum of one side in 64-bit arithmetic. */
  function WeightedBits(sizes: seq<nat>): nat {
    if sizes == [] then 0 else Low64(|sizes| * sizes[0] + WeightedBits(sizes[1..]))
  }

  function LotBits(dominant: nat, other: nat, thresh: int): nat {
    var size := if Low64(dominant * 10) > Low64(3 * thresh * other) then 3 * BASE_LOT
                else if Low64(dominant * 10) > Low64(2 * thresh * other) then 2 * BASE_LOT else BASE_LOT;
    if size > MAX_LOT then MAX_LOT else size
  }

  /** What stage 2 would fire from its registers, cooldown aside. */
  function Fire(r: Regs): Option<Decision> {
    if !r.elig then None
    else if Low64(r.wBid * 10) > Low64(BID_THRESH * r.wAsk) && r.askPrice > 0
    then Some(Decision(false, r.askPrice, LotBits(r.wBid, r.wAsk, BID_THRESH)))
    else if Low64(r.wAsk * 10) > Low64(ASK_THRESH * r.wBid) && r.bidPrice > 0
    then Some(Decision(true, r.bidPrice, LotBits(r.wAsk, r.wBid, ASK_THRESH)))
    else None
  }

  function Next(r: Regs, s: B.Snapshot): Regs {
    var fired := if r.cooldown == 0 then Fire(r) else None;
    Regs(s.valid, WeightedBits(s.bidSizes), WeightedBits(s.askSizes), s.bidPrice, s.askPrice,
         Eligible(r.prevValid, s),
         fired.Some?, if fired.Some? then fired.value else r.out,
         if fired.Some? then COOLDOWN else if r.cooldown != 0 then r.cooldown - 1 else 0)
  }

  function Clocked(ts: seq<B.Snapshot>): Regs {
    if ts == [] then RESET else Next(Clocked(ts[..|ts| - 1]), ts[|ts| - 1])
  }

  /** Four 32-bit sizes never overflow the 64-bit arithmetic. */
  lemma WeightedFits(sizes: seq<nat>)
    requires |sizes| == NLEVELS && forall i | 0 <= i < NLEVELS :: sizes[i] < TWO32
    ensures WeightedBits(sizes) == Weighted(sizes) < 10 * TWO32
  {
    var s1, s2, s3 := sizes[1..], sizes[2..], sizes[3..];
    assert s1[1..] == s2 && s2[1..] == s3 && s3[1..] == [];
    assert Weighted(s3) == sizes[3] && WeightedBits(s3) == sizes[3];
    assert Weighted(s2) == 2 * sizes[2] + sizes[3] && WeightedBits(s2) == Weighted(s2);
    assert Weighted(s1) == 3 * sizes[1] + Weighted(s2) && WeightedBits(s1) == Weighted(s1);
  }

  lemma NoOverflow(x: nat)
    requires x < TWO64
    ensures Low64(x) == x
  {
  }

  /** On volumes of that size the cross-multiplications and the lot sizing are exact. */
  lemma CrossMultiplyExact(dominant: nat, other: nat, thresh: int)
    requires dominant < 10 * TWO32 && other < 10 * TWO32 && thresh == BID_THRESH
    ensures Low64(dominant * 10) == dominant * 10 && Low64(thresh * other) == thresh * other
    ensures LotBits(dominant, other, thresh) == Lot(dominant, other, thresh)
  {
    NoOverflow(dominant * 10);
    NoOverflow(15 * other);
    NoOverflow(2 * 15 * other);
    NoOverflow(3 * 15 * other);
  }

  /** Was the snapshot before the n-th valid? There is none before the first. */
  predicate PrevValid(ts: seq<B.Snapshot>, n: nat)
    requires n <= |ts|
  {
    n > 0 && ts[n - 1].valid
  }

  /** Stage 1 holds the last snapshot, so stage 2 would fire exactly the golden decision on it. */
  lemma StageOneHolds(ts: seq<B.Snapshot>)
    requires ts != [] && WordSized(ts[|ts| - 1])
    ensures
      var n := |ts| - 1;
      Clocked(ts).prevValid == ts[n].valid && Fire(Clocked(ts)) == Rule(PrevValid(ts, n), ts[n])
  {
    var n := |ts| - 1;
    var before := ts[..n];
    WeightedFits(ts[n].bidSizes);
    WeightedFits(ts[n].askSizes);
    assert Clocked(before).prevValid == PrevValid(ts, n) by {
      if n > 0 { assert before[n - 1] == ts[n - 1]; }
    }
    var r := Clocked(ts);
    CrossMultiplyExact(r.wBid, r.wAsk, BID_THRESH);
    CrossMultiplyExact(r.wAsk, r.wBid, ASK_THRESH);
  }

  /** decision_valid after the first m clocks. */
  predicate Pulse(ts: seq<B.Snapshot>, m: nat)
    requires m <= |ts|
  {
    Clocked(ts[..m]).valid
  }

  lemma CooldownStep(r: Regs, s: B.Snapshot)
    ensures Next(r, s).valid ==> r.cooldown == 0 && Next(r, s).cooldown == COOLDOWN
    ensures !Next(r, s).valid ==> Next(r, s).cooldown == if r.cooldown > 0 then r.cooldown - 1 else 0
  {
  }

  /** The cooldown counter tells how long ago the last pulse was. */
  lemma {:induction false} CooldownCounts(ts: seq<B.Snapshot>)
    ensures
      var n, c := |ts|, Clocked(ts).cooldown;
      && c <= COOLDOWN
      && (c > 0 ==> COOLDOWN - c <= n && Pulse(ts, n - (COOLDOWN - c)))
      && (forall m | 0 <= m <= n && n - m < COOLDOWN && Pulse(ts, m) :: c == COOLDOWN - (n - m))
  {
    hide Next;
    assert ts[..|ts|] == ts;
    if ts != [] {
      var n := |ts|;
      var before := ts[..n - 1];
      CooldownStep(Clocked(before), ts[n - 1]);
      var c0, r := Clocked(before).cooldown, Clocked(ts);
      CooldownCounts(before);
      assert forall m | 0 <= m < n :: before[..m] == ts[..m];
      assert forall m | 0 <= m < n :: Pulse(before, m) == Pulse(ts, m);
      assert Pulse(ts, n) == r.valid;
      if r.valid {
        assert c0 == 0 && r.cooldown == COOLDOWN;
      } else {
        assert r.cooldown == if c0 > 0 then c0 - 1 else 0;
      }
    }
  }

  /** No pulse in the COOLDOWN clocks up to and including clock n. */
  ghost predicate Quiet(ts: seq<B.Snapshot>, n: nat)
    requires n <= |ts|
  {
    forall m | 0 <= m <= n && n - m < COOLDOWN :: !Pulse(ts, m)
  }

  /** MAIN RESULT. After every clock the RTL shows a decision exactly when the golden rule makes one on
      the snapshot of two cycles earlier, with that snapshot's own preceding valid bit, and none was
      shown in the last COOLDOWN cycles; and it is that decision. */
  lemma {:induction false} PulseIsGolden(ts: seq<B.Snapshot>)
    requires forall k | 0 <= k < |ts| :: WordSized(ts[k])
    ensures
      var r := Clocked(ts);
      if |ts| < 2 then !r.valid
      else
        var n := |ts| - 2;
        var d := Rule(PrevValid(ts, n), ts[n]);
        (r.valid <==> d.Some? && Quiet(ts, |ts| - 1)) && (r.valid ==> r.out == d.value)
  {
    if |ts| >= 2 {
      var before := ts[..|ts| - 1];
      assert before[|before| - 1] == ts[|ts| - 2];
      StageOneHolds(before);
      CooldownCounts(before);
      assert PrevValid(before, |ts| - 2) == PrevValid(ts, |ts| - 2);
      assert forall m | 0 <= m <= |before| :: before[..m] == ts[..m];
      assert Quiet(ts, |ts| - 1) <==> Clocked(before).cooldown == 0 by {
        QuietIff(ts, before);
      }
    } else if |ts| == 1 {
      assert Clocked(ts[..0]) == RESET;
    }
  }

  lemma QuietIff(ts: seq<B.Snapshot>, before: seq<B.Snapshot>)
    requires ts != [] && before == ts[..|ts| - 1]
    ensures Quiet(ts, |ts| - 1) <==> Clocked(before).cooldown == 0
  {
    CooldownCounts(before);
    assert forall m | 0 <= m <= |before| :: before[..m] == ts[..m];
    assert forall m | 0 <= m <= |before| :: Pulse(before, m) == Pulse(ts, m);
  }

  /** Consecutive pulses are at least COOLDOWN + 1 cycles apart. */
  lemma PulsesApart(ts: seq<B.Snapshot>, m: nat, n: nat)
    requires m < n <= |ts| && Pulse(ts, m) && Pulse(ts, n)
    ensures n - m >= 9
  {
    var upto := ts[..n];
    assert upto[..n - 1] == ts[..n - 1] && upto[..m] == ts[..m];
    QuietIff(upto, ts[..n - 1]);
    assert Clocked(upto[..n - 1]).cooldown == 0;
    assert Pulse(upto, m);
  }

  class StrategyImbalanceRtl {
    var prevValid: bool
    var wBid: nat
    var wAsk: nat
    var bidPrice: nat
    var askPrice: nat
    var elig: bool
    var valid: bool
    var out: Decision
    var cooldown: nat

    ghost function State(): Regs
      reads this
    {
      Regs(prevValid, wBid, wAsk, bidPrice, askPrice, elig, valid, out, cooldown)
    }

    constructor ()
      ensures State() == RESET
    {
      prevValid, wBid, wAsk, bidPrice, askPrice, elig := false, 0, 0, 0, 0, false;
      valid, out, cooldown := false, Decision(false, 0, 0), 0;
    }

    /** One clock edge. */
    method Clock(s: B.Snapshot)
      modifies this
      ensures State() == Next(old(State()), s)
    {
      valid := false;
      var ready := elig && cooldown == 0;
      if cooldown != 0 {
        cooldown := cooldown - 1;
      }
      if ready {
        if Low64(wBid * 10) > Low64(BID_THRESH * wAsk) && askPrice > 0 {
          valid, out, cooldown := true, Decision(false, askPrice, LotBits(wBid, wAsk, BID_THRESH)), COOLDOWN;
        } else if Low64(wAsk * 10) > Low64(ASK_THRESH * wBid) && bidPrice > 0 {
          valid, out, cooldown := true, Decision(true, bidPrice, LotBits(wAsk, wBid, ASK_THRESH)), COOLDOWN;
        }
      }
      elig := Eligible(prevValid, s);
      prevValid := s.valid;
      bidPrice, askPrice := s.bidPrice, s.askPrice;
      wBid := WeightedSum(s.bidSizes);
      wAsk := WeightedSum(s.askSizes);
    }
  }

  /** The volume loop of stage 1, accumulated from the touch down in 64-bit arithmetic. */
  method WeightedSum(sizes: seq<nat>) returns (w: nat)
    ensures w == WeightedBits(sizes)
  {
    w := 0;
    assert sizes[0..] == sizes;
    LowAdds(0, 0, sizes);
    for i := 0 to |sizes|
      invariant w < TWO64 && Low64(w + WeightedBits(sizes[i..])) == WeightedBits(sizes)
    {
      w := AddLane(sizes, i, w);
    }
  }

  /** One turn of the volume loop. */
  method AddLane(sizes: seq<nat>, i: nat, w: nat) returns (w': nat)
    requires i < |sizes|
    ensures w' < TWO64 && Low64(w' + WeightedBits(sizes[i + 1..])) == Low64(w + WeightedBits(sizes[i..]))
  {
    var volume := (|sizes| - i) * sizes[i];
    WeightedFrom(sizes, i, volume);
    LowAdds(w, volume, sizes[i + 1..]);
    w' := Low64(w + volume);
  }

  lemma WeightedFrom(sizes: seq<nat>, i: nat, volume: nat)
    requires i < |sizes| && volume == (|sizes| - i) * sizes[i]
    ensures WeightedBits(sizes[i..]) == Low64(volume + WeightedBits(sizes[i + 1..]))
  {
    assert sizes[i..][1..] == sizes[i + 1..];
  }

  lemma LowOfWeighted(sizes: seq<nat>)
    ensures Low64(WeightedBits(sizes)) == WeightedBits(sizes)
  {
    if sizes != [] { LowAdd(|sizes| * sizes[0] + WeightedBits(sizes[1..]), 0); }
  }

  /** Truncation may be done at every addition or once. */
  lemma LowAdds(w: nat, a: nat, sizes: seq<nat>)
    ensures Low64(w + Low64(a + WeightedBits(sizes))) == Low64(Low64(w + a) + WeightedBits(sizes))
    ensures Low64(WeightedBits(sizes)) == WeightedBits(sizes)
  {
    LowAdd(a + WeightedBits(sizes), w);
    LowAdd(w + a, WeightedBits(sizes));
    LowOfWeighted(sizes);
    hide Low64, WeightedBits;
    assert w + (a + WeightedBits(sizes)) == w + a + WeightedBits(sizes);
  }

  lemma LowAdd(x: nat, y: nat)
    ensures Low64(Low64(x) + y) == Low64(x + y)
  {
  }
}
