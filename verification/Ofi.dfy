/** Order-flow imbalance: the windowed golden signal, the two-stage RTL that keeps its sum
    incrementally in fixed-width registers, and the proof that they agree. */
module Ofi {
  import opened Bits
  import opened Messages

  const THRESHOLD: int := 1500
  const BASE_LOT: int := 100
  const MAX_LOT: int := 300
  /** Largest window for which the 48-bit sum cannot overflow on any 32-bit quotes. */
  const WINDOW_LIMIT: int := 16384

  /** Top of book of one tick. */
  datatype Top = Top(bidPrice: Word, bidSize: Word, askPrice: Word, askSize: Word)

  datatype Tick = Tick(valid: bool, top: Top)

  /** `sell` is the action bit. */
  datatype Decision = Decision(sell: bool, price: Word, size: int)

  function Increment(prev: Top, cur: Top): (r: int)
    ensures -2 * TWO32 < r < 2 * TWO32
  {
    var eb := (if cur.bidPrice >= prev.bidPrice then cur.bidSize else 0)
            - (if cur.bidPrice <= prev.bidPrice then prev.bidSize else 0);
    var ea := (if cur.askPrice <= prev.askPrice then cur.askSize else 0)
            - (if cur.askPrice >= prev.askPrice then prev.askSize else 0);
    eb - ea
  }

  function Sum(s: seq<int>): int {
    if s == [] then 0 else s[0] + Sum(s[1..])
  }

  function Lot(strength: int): int {
    var size := if strength >= 3 * THRESHOLD then 3 * BASE_LOT
                else if strength >= 2 * THRESHOLD then 2 * BASE_LOT else BASE_LOT;
    Min(MAX_LOT, size)
  }

  /** What a windowed sum asks for at the given touch prices. */
  function Decide(ofi: int, bidPrice: Word, askPrice: Word): Option<Decision> {
    if ofi >= THRESHOLD then Some(Decision(false, askPrice, Lot(ofi)))
    else if ofi <= -THRESHOLD then Some(Decision(true, bidPrice, Lot(-ofi)))
    else None
  }

  // ---- the golden model -------------------------------------------------------------------

  datatype Golden = Golden(prev: Option<Top>, buf: seq<int>)

  function Start(window: nat): Golden { Golden(None, seq(window, _ => 0)) }

  predicate Normal(t: Tick) {
    t.valid && t.top.bidPrice > 0 && t.top.askPrice > 0 && t.top.askPrice > t.top.bidPrice
  }

  function GoldenNext(g: Golden, t: Tick): (r: Golden)
    requires g.buf != []
    ensures |r.buf| == |g.buf|
  {
    if !Normal(t) then g.(prev := None)
    else if g.prev.None? then g.(prev := Some(t.top))
    else Golden(Some(t.top), Push(g.buf, Increment(g.prev.value, t.top)))
  }

  function GoldenDecision(g: Golden, t: Tick): Option<Decision>
    requires g.buf != []
  {
    if !Normal(t) || g.prev.None? then None
    else Decide(Sum(GoldenNext(g, t).buf), t.top.bidPrice, t.top.askPrice)
  }

  function GoldenRun(window: nat, ticks: seq<Tick>): (g: Golden)
    requires window > 0
    ensures |g.buf| == window
  {
    if ticks == [] then Start(window)
    else GoldenNext(GoldenRun(window, ticks[..|ticks| - 1]), ticks[|ticks| - 1])
  }

  /** The increments of a tick stream: one for each normal tick that directly follows a normal one. */
  function Increments(ticks: seq<Tick>): seq<int> {
    if |ticks| < 2 then []
    else
      var n := |ticks|;
      Increments(ticks[..n - 1]) +
        (if Normal(ticks[n - 1]) && Normal(ticks[n - 2]) then [Increment(ticks[n - 2].top, ticks[n - 1].top)] else [])
  }

  /** The window holds the last `window` increments of the whole stream, zeros before the first; a
      bad book interrupts the increments but keeps the window. */
  lemma {:induction false} WindowIsLastIncrements(window: nat, ticks: seq<Tick>)
    requires window > 0
    ensures
      var g := GoldenRun(window, ticks);
      && g.buf == (seq(window, _ => 0) + Increments(ticks))[|Increments(ticks)|..]
      && g.prev == (if ticks != [] && Normal(ticks[|ticks| - 1]) then Some(ticks[|ticks| - 1].top) else None)
  {
    if ticks != [] {
      var before := ticks[..|ticks| - 1];
      WindowIsLastIncrements(window, before);
      var zeros, earlier, all := seq(window, _ => 0), Increments(before), Increments(ticks);
      if |all| > |earlier| {
        assert zeros + all == (zeros + earlier) + [all[|earlier|]];
        assert (zeros + all)[|all|..] == (zeros + earlier)[|earlier|..][1..] + [all[|earlier|]];
      }
    }
  }

  class OFIGolden {
    const window: nat
    var prev: Option<Top>
    var buf: seq<int>

    ghost predicate Valid()
      reads this
    {
      window > 0 && |buf| == window
    }

    ghost function State(): Golden
      reads this
    {
      Golden(prev, buf)
    }

    constructor (window: nat)
      requires window > 0
      ensures Valid() && this.window == window && State() == Start(window)
    {
      this.window := window;
      prev := None;
      buf := seq(window, _ => 0);
    }

    method Step(t: Tick) returns (d: Option<Decision>)
      requires Valid()
      modifies this
      ensures Valid() && State() == GoldenNext(old(State()), t) && d == GoldenDecision(old(State()), t)
    {
      if !Normal(t) {
        prev := None;
        return None;
      }
      if prev.None? {
        prev := Some(t.top);
        return None;
      }
      var inc := Increment(prev.value, t.top);
      prev := Some(t.top);
      buf := buf[1..] + [inc];
      var ofi := SumOf(buf);
      if ofi >= THRESHOLD {
        return Some(Decision(false, t.top.askPrice, Lot(ofi)));
      }
      if ofi <= -THRESHOLD {
        return Some(Decision(true, t.top.bidPrice, Lot(-ofi)));
      }
      d := None;
    }
  }

  method SumOf(s: seq<int>) returns (r: int)
    ensures r == Sum(s)
  {
    r := 0;
    for i := 0 to |s|
      invariant r + Sum(s[i..]) == Sum(s)
    {
      r := r + s[i];
    }
  }

  // ---- the clocked strategy ---------------------------------------------------------------

  datatype Regs = Regs(prev: Top, havePrev: bool, inc: int, bidPrice: Word, askPrice: Word, s1Valid: bool,
                       taps: seq<int>, sum: int, valid: bool, out: Decision)

  const NO_TOP := Top(0, 0, 0, 0)

  function Reset(window: nat): Regs {
    Regs(NO_TOP, false, 0, 0, 0, false, seq(window, _ => 0), 0, false, Decision(false, 0, 0))
  }

  /** Both touch terms and their difference, in 34-bit signed arithmetic. */
  function IncrementBits(prev: Top, cur: Top): int {
    var eb := Signed34((if cur.bidPrice >= prev.bidPrice then cur.bidSize else 0)
                     - (if cur.bidPrice <= prev.bidPrice then prev.bidSize else 0));
    var ea := Signed34((if cur.askPrice <= prev.askPrice then cur.askSize else 0)
                     - (if cur.askPrice >= prev.askPrice then prev.askSize else 0));
    Signed34(eb - ea)
  }

  predicate NormalBits(t: Tick) {
    t.valid && t.top.askPrice > t.top.bidPrice && t.top.bidPrice != 0
  }

  /** The sum after the oldest tap leaves and the pending increment enters. */
  function NextSum(r: Regs): int
    requires r.taps != []
  {
    Signed48(r.sum - r.taps[0] + r.inc)
  }

  function Next(r: Regs, t: Tick): (r': Regs)
    requires r.taps != []
    ensures |r'.taps| == |r.taps|
  {
    var s1 :=
      if !NormalBits(t) then r.(havePrev := false, s1Valid := false)
      else r.(prev := t.top, bidPrice := t.top.bidPrice, askPrice := t.top.askPrice,
              inc := IncrementBits(r.prev, t.top), s1Valid := r.havePrev, havePrev := true);
    if !r.s1Valid then s1.(valid := false)
    else
      var d := Decide(NextSum(r), r.bidPrice, r.askPrice);
      s1.(sum := NextSum(r), taps := Push(r.taps, r.inc),
          valid := d.Some?, out := if d.Some? then d.value else r.out)
  }

  function Clocked(window: nat, ticks: seq<Tick>): (r: Regs)
    requires window > 0
    ensures |r.taps| == window
  {
    if ticks == [] then Reset(window)
    else Next(Clocked(window, ticks[..|ticks| - 1]), ticks[|ticks| - 1])
  }

  // ---- agreement ---------------------------------------------------------------------------

  lemma {:induction false} SumAppend(s: seq<int>, x: int)
    ensures Sum(s + [x]) == Sum(s) + x
  {
    if s == [] {
      assert [x][1..] == [];
    } else {
      assert (s + [x])[1..] == s[1..] + [x];
      SumAppend(s[1..], x);
    }
  }

  /** Add newest, subtract oldest. */
  lemma SlidingSum(window: seq<int>, x: int)
    requires window != []
    ensures Sum(Push(window, x)) == Sum(window) - window[0] + x
  {
    SumAppend(window[1..], x);
  }

  lemma {:induction false} SumBound(s: seq<int>)
    requires forall i | 0 <= i < |s| :: -2 * TWO32 < s[i] < 2 * TWO32
    ensures s == [] ==> Sum(s) == 0
    ensures s != [] ==> -2 * TWO32 * |s| < Sum(s) < 2 * TWO32 * |s|
  {
    if s != [] {
      SumBound(s[1..]);
    }
  }

  lemma {:induction false} WindowInRange(window: nat, ticks: seq<Tick>)
    requires window > 0
    ensures forall i | 0 <= i < window :: -2 * TWO32 < GoldenRun(window, ticks).buf[i] < 2 * TWO32
  {
    if ticks != [] {
      WindowInRange(window, ticks[..|ticks| - 1]);
    }
  }

  lemma {:induction false} ZeroSum(n: nat)
    ensures Sum(seq(n, _ => 0)) == 0
  {
    if n > 0 {
      assert seq(n, _ => 0)[1..] == seq(n - 1, _ => 0);
      ZeroSum(n - 1);
    }
  }

  /** The registers after the last tick: the window lags the golden one by that tick, whose
      increment is pending in stage 1. */
  ghost predicate Lags(r: Regs, before: Golden, t: Tick, after: Golden)
    requires before.buf != []
  {
    && r.taps == before.buf && r.sum == Sum(before.buf)
    && r.havePrev == after.prev.Some? && (r.havePrev ==> r.prev == after.prev.value)
    && r.s1Valid == (Normal(t) && before.prev.Some?)
    && (r.s1Valid ==> r.inc == Increment(before.prev.value, t.top))
    && (r.s1Valid ==> r.bidPrice == t.top.bidPrice && r.askPrice == t.top.askPrice)
  }

  /** One clock: the pending increment enters the window, the new tick's becomes pending. */
  lemma LagStep(r: Regs, before: Golden, t: Tick, u: Tick)
    requires before.buf != [] && |before.buf| <= WINDOW_LIMIT
    requires forall i | 0 <= i < |before.buf| :: -2 * TWO32 < GoldenNext(before, t).buf[i] < 2 * TWO32
    requires Lags(r, before, t, GoldenNext(before, t))
    ensures
      var mid := GoldenNext(before, t);
      && Lags(Next(r, u), mid, u, GoldenNext(mid, u))
      && Next(r, u).valid == GoldenDecision(before, t).Some?
      && (Next(r, u).valid ==> Next(r, u).out == GoldenDecision(before, t).value)
  {
    var mid := GoldenNext(before, t);
    SumBound(mid.buf);
    if r.s1Valid {
      SlidingSum(before.buf, r.inc);
      assert NextSum(r) == Sum(mid.buf);
    }
  }

  lemma {:induction false} AlwaysLags(window: nat, ticks: seq<Tick>)
    requires 0 < window <= WINDOW_LIMIT && ticks != []
    ensures
      var before, t := ticks[..|ticks| - 1], ticks[|ticks| - 1];
      Lags(Clocked(window, ticks), GoldenRun(window, before), t, GoldenRun(window, ticks))
  {
    var before, t := ticks[..|ticks| - 1], ticks[|ticks| - 1];
    if before == [] {
      assert Clocked(window, ticks) == Next(Reset(window), t);
      ZeroSum(window);
    } else {
      AlwaysLags(window, before);
      WindowInRange(window, before);
      LagStep(Clocked(window, before), GoldenRun(window, before[..|before| - 1]), before[|before| - 1], t);
    }
  }

  /** MAIN RESULT. In every reachable state the 48-bit running sum is the plain sum of the taps, and
      the taps are the golden window one tick back: nothing overflows. */
  lemma RunningSumIsWindowSum(window: nat, ticks: seq<Tick>)
    requires 0 < window <= WINDOW_LIMIT
    ensures
      var r := Clocked(window, ticks);
      && r.sum == Sum(r.taps)
      && r.taps == GoldenRun(window, if ticks == [] then [] else ticks[..|ticks| - 1]).buf
  {
    if ticks == [] {
      ZeroSum(window);
    } else {
      AlwaysLags(window, ticks);
    }
  }

  // ---- larger windows ------------------------------------------------------------------------

  /** A market that rises by one tick at a time with all sizes at their maximum. */
  function Rising(n: nat): (ticks: seq<Tick>)
    requires n < TWO32 - 2
    ensures |ticks| == n
  {
    seq(n, k requires 0 <= k < n => Tick(true, Top(k + 1, TWO32 - 1, k + 2, TWO32 - 1)))
  }

  /** The largest increment there is. */
  const MAX_INCREMENT: int := 2 * TWO32 - 2

  /** The first two ticks set the previous quote and the pending increment. */
  lemma RisingStarts(r: Regs, a: Tick, b: Tick)
    requires r.taps != [] && !r.havePrev && !r.s1Valid
    requires Rising(2) == [a, b]
    ensures
      var r' := Next(Next(r, a), b);
      r'.taps == r.taps && r'.havePrev && r'.s1Valid && r'.inc == MAX_INCREMENT && r'.prev == b.top
  {
    assert a == Rising(2)[0] && b == Rising(2)[1];
  }

  lemma RisingStep(r: Regs, n: nat)
    requires n + 2 < TWO32 - 2 && r.taps != []
    requires r.havePrev && r.s1Valid && r.inc == MAX_INCREMENT && r.prev == Rising(n + 2)[n].top
    ensures
      var r' := Next(r, Rising(n + 2)[n + 1]);
      && r'.taps == Push(r.taps, MAX_INCREMENT) && r'.havePrev && r'.s1Valid
      && r'.inc == MAX_INCREMENT && r'.prev == Rising(n + 2)[n + 1].top
  {
    hide Push;
  }

  lemma PushFills(window: nat, n: nat)
    requires 0 < n <= window
    ensures Push(seq(window - (n - 1), _ => 0) + seq(n - 1, _ => MAX_INCREMENT), MAX_INCREMENT) ==
            seq(window - n, _ => 0) + seq(n, _ => MAX_INCREMENT)
  {
  }

  /** Every tick of such a market pushes the largest increment into the window. */
  lemma {:induction false} RisingFills(window: nat, n: nat)
    requires n + 2 < TWO32 - 2 && 0 < window && n <= window
    ensures
      var r := Clocked(window, Rising(n + 2));
      && r.taps == seq(window - n, _ => 0) + seq(n, _ => MAX_INCREMENT)
      && r.havePrev && r.s1Valid && r.inc == MAX_INCREMENT && r.prev == Rising(n + 2)[n + 1].top
  {
    hide Next, Push;
    var ticks := Rising(n + 2);
    assert ticks[..n + 1] == Rising(n + 1);
    if n == 0 {
      assert Rising(1)[..0] == [];
      assert Clocked(window, Rising(1)) == Next(Reset(window), Rising(1)[0]);
      RisingStarts(Reset(window), Rising(1)[0], ticks[1]);
      assert seq(window, _ => 0) + seq(0, _ => MAX_INCREMENT) == seq(window, _ => 0);
    } else {
      RisingFills(window, n - 1);
      RisingStep(Clocked(window, Rising(n + 1)), n);
      PushFills(window, n);
    }
  }

  lemma {:induction false} FilledSum(zeros: nat, n: nat)
    ensures Sum(seq(zeros, _ => 0) + seq(n, _ => MAX_INCREMENT)) == n * MAX_INCREMENT
  {
    var s := seq(zeros, _ => 0) + seq(n, _ => MAX_INCREMENT);
    if n == 0 {
      assert s == seq(zeros, _ => 0);
      ZeroSum(zeros);
    } else {
      FilledSum(zeros, n - 1);
      assert s == (seq(zeros, _ => 0) + seq(n - 1, _ => MAX_INCREMENT)) + [MAX_INCREMENT];
      SumAppend(seq(zeros, _ => 0) + seq(n - 1, _ => MAX_INCREMENT), MAX_INCREMENT);
    }
  }

  lemma {:induction false} SumIs48Bits(window: nat, ticks: seq<Tick>)
    requires window > 0
    ensures -TWO48 / 2 <= Clocked(window, ticks).sum < TWO48 / 2
  {
    if ticks != [] {
      SumIs48Bits(window, ticks[..|ticks| - 1]);
    }
  }

  /** The limit is sharp: the register holds the window sum on every stream exactly up to it. */
  lemma WindowLimitIff(window: nat)
    requires window > 0
    ensures (forall ticks :: Clocked(window, ticks).sum == Sum(Clocked(window, ticks).taps)) <==> window <= WINDOW_LIMIT
  {
    if window <= WINDOW_LIMIT {
      forall ticks ensures Clocked(window, ticks).sum == Sum(Clocked(window, ticks).taps) {
        RunningSumIsWindowSum(window, ticks);
      }
    } else {
      var n := WINDOW_LIMIT + 1;
      RisingFills(window, n);
      FilledSum(window - n, n);
      SumIs48Bits(window, Rising(n + 2));
    }
  }

  /** MAIN RESULT. Every decision the RTL shows is the golden decision of two cycles earlier. */
  lemma RtlDecisionIsGolden(window: nat, ticks: seq<Tick>)
    requires 0 < window <= WINDOW_LIMIT
    ensures
      var r := Clocked(window, ticks);
      if |ticks| < 2 then !r.valid
      else
        var n := |ticks| - 2;
        var d := GoldenDecision(GoldenRun(window, ticks[..n]), ticks[n]);
        r.valid == d.Some? && (r.valid ==> r.out == d.value)
  {
    if ticks != [] {
      var before, u := ticks[..|ticks| - 1], ticks[|ticks| - 1];
      if before == [] {
        assert Clocked(window, before) == Reset(window);
      } else {
        var n := |ticks| - 2;
        assert before[..n] == ticks[..n];
        AlwaysLags(window, before);
        WindowInRange(window, before);
        LagStep(Clocked(window, before), GoldenRun(window, ticks[..n]), ticks[n], u);
      }
    }
  }

  /** Slide a window by one tap. */
  method ShiftTaps(taps: array<int>, x: int)
    requires taps.Length > 0
    modifies taps
    ensures taps[..] == Push(old(taps[..]), x)
  {
    var last := taps.Length - 1;
    for k := 0 to last
      invariant forall j | 0 <= j < k :: taps[j] == old(taps[j + 1])
      invariant forall j | k <= j <= last :: taps[j] == old(taps[j])
    {
      taps[k] := taps[k + 1];
    }
    taps[last] := x;
  }

  class StrategyOfi {
    const window: nat
    var prev: Top
    var havePrev: bool
    var inc: int
    var bidPrice: Word
    var askPrice: Word
    var s1Valid: bool
    const taps: array<int>
    var sum: int
    var valid: bool
    var out: Decision

    ghost predicate Valid() {
      window > 0 && taps.Length == window
    }

    ghost function State(): Regs
      reads this, taps
    {
      Regs(prev, havePrev, inc, bidPrice, askPrice, s1Valid, taps[..], sum, valid, out)
    }

    constructor (window: nat)
      requires window > 0
      ensures Valid() && this.window == window && fresh(taps) && State() == Reset(window)
    {
      this.window := window;
      prev, havePrev, inc, bidPrice, askPrice, s1Valid := NO_TOP, false, 0, 0, 0, false;
      taps := new int[window](_ => 0);
      sum, valid, out := 0, false, Decision(false, 0, 0);
    }

    /** One clock edge. */
    method Clock(t: Tick)
      requires Valid()
      modifies this, taps
      ensures State() == Next(old(State()), t)
    {
      var s1Was, incWas, bidWas, askWas := s1Valid, inc, bidPrice, askPrice;
      if !NormalBits(t) {
        havePrev := false;
        s1Valid := false;
      } else {
        inc := IncrementBits(prev, t.top);
        prev := t.top;
        bidPrice, askPrice := t.top.bidPrice, t.top.askPrice;
        s1Valid := havePrev;
        havePrev := true;
      }
      valid := false;
      if s1Was {
        Stage2(incWas, bidWas, askWas);
      }
    }

    /** Slide the window and threshold the about-to-be-updated sum. */
    method Stage2(x: int, bid: Word, ask: Word)
      requires Valid() && !valid
      modifies `sum, `valid, `out, taps
      ensures
        var r := old(State());
        var next := Signed48(r.sum - r.taps[0] + x);
        var d := Decide(next, bid, ask);
        State() == r.(sum := next, taps := Push(r.taps, x), valid := d.Some?, out := if d.Some? then d.value else r.out)
    {
      sum := Signed48(sum - taps[0] + x);
      ShiftTaps(taps, x);
      if sum >= THRESHOLD {
        valid, out := true, Decision(false, ask, Lot(sum));
      } else if sum <= -THRESHOLD {
        valid, out := true, Decision(true, bid, Lot(-sum));
      }
    }
  }
}
