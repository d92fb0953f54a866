/** The pipelined restoring divider: one compare-subtract stage per bit, full throughput, with the
    valid bit and a payload travelling beside the operands. */
module Divider {

  function Pow2(n: nat): (r: nat)
    ensures r >= 1
  {
    if n == 0 then 1 else 2 * Pow2(n - 1)
  }

  /** The registers after one stage. */
  datatype Stage = Stage(rem: nat, quot: nat, nsh: nat, den: nat, valid: bool, payload: nat)

  datatype Operands = Operands(valid: bool, num: nat, den: nat, payload: nat)

  /** What the divider is meant to compute; a zero divisor gives zero. */
  function Quotient(x: Operands): nat {
    if x.den == 0 then 0 else x.num / x.den
  }

  const RESET := Stage(0, 0, 0, 0, false, 0)

  function Load(x: Operands): Stage {
    Stage(0, 0, x.num, x.den, x.valid, x.payload)
  }

  /** Bit w-1 of a w-bit word. */
  function TopBit(x: nat, w: nat): nat
    requires w > 0
  {
    if x >= Pow2(w - 1) then 1 else 0
  }

  /** A w-bit word shifted left by one: the top bit is lost. */
  function ShiftLeft(x: nat, w: nat): nat
    requires w > 0
  {
    if x >= Pow2(w - 1) then 2 * x - Pow2(w) else 2 * x
  }

  /** One restoring step on w-bit words: bring down the top numerator bit, subtract if it goes. */
  function Step(s: Stage, w: nat): Stage
    requires w > 0
  {
    var r := ShiftLeft(s.rem, w) + TopBit(s.nsh, w);
    var fits := r >= s.den && s.den != 0;
    Stage(
      if fits then r - s.den else r,
      ShiftLeft(s.quot, w) + (if fits then 1 else 0),
      ShiftLeft(s.nsh, w), s.den, s.valid, s.payload)
  }

  function Steps(s: Stage, w: nat, k: nat): Stage
    requires w > 0
  {
    if k == 0 then s else Step(Steps(s, w, k - 1), w)
  }

  // ---- one operand pair -------------------------------------------------------------------

  /** After k stages: p is the numerator prefix consumed so far, low what is left of it. */
  ghost predicate Invariant(s: Stage, w: nat, k: nat, num: nat, den: nat, p: nat, low: nat)
    requires k <= w
  {
    && num == p * Pow2(w - k) + low && low < Pow2(w - k)
    && s.nsh == low * Pow2(k) && s.den == den
    && (if den == 0 then s.quot == 0 && s.rem == p else p == s.quot * den + s.rem && s.rem < den)
  }

  lemma {:induction false} Pow2Split(a: nat, b: nat)
    ensures Pow2(a + b) == Pow2(a) * Pow2(b)
  {
    if a > 0 {
      Pow2Split(a - 1, b);
      assert Pow2(a + b) == 2 * Pow2(a - 1 + b);
    }
  }

  lemma Scale(a: nat, b: nat, t: nat)
    requires t > 0
    ensures a < b ==> a * t < b * t
    ensures a >= b ==> a * t >= b * t
  {
  }

  lemma Grows(a: nat, q: nat)
    requires q >= 1
    ensures a <= a * q
  {
  }

  lemma DivUnique(a: nat, b: nat, q: nat, r: nat)
    requires b > 0 && a == q * b + r && r < b
    ensures a / b == q && a % b == r
  {
    var q', r' := a / b, a % b;
    assert a == q' * b + r';
    if q != q' {
      Apart(q, q', b, r, r');
    }
  }

  lemma Apart(q: nat, q': nat, b: nat, r: nat, r': nat)
    requires q != q' && r < b && r' < b
    ensures q * b + r != q' * b + r'
  {
    if q < q' {
      assert q' * b == q * b + (q' - q) * b;
      Grows(b, q' - q);
    } else {
      assert q * b == q' * b + (q - q') * b;
      Grows(b, q - q');
    }
  }

  /** The remainder never exceeds the consumed prefix, so no stage loses a top bit: the quotient is
      right for every divisor, also beyond half the word range. */
  lemma StepInvariant(s: Stage, w: nat, k: nat, num: nat, den: nat, p: nat, low: nat) returns (p': nat, low': nat)
    requires k < w && num < Pow2(w) && Invariant(s, w, k, num, den, p, low)
    ensures Invariant(Step(s, w), w, k + 1, num, den, p', low')
  {
    var q, t := Pow2(w - k - 1), Pow2(k);
    Pow2Split(w - k - 1, k);
    assert Pow2(w - k) == 2 * q && Pow2(k + 1) == 2 * t && Pow2(w - 1) == q * t;
    Scale(low, q, t);
    var b := if low >= q then 1 else 0;
    p', low' := 2 * p + b, low - b * q;
    NumeratorSplit(p, q, low, b, t);
    Grows(p', q);
    QuotientBound(s.quot, den, s.rem, p);
    assert Pow2(w) == 2 * Pow2(w - 1);
    NextQuotient(s.quot, den, s.rem, p, b);
  }

  /** Moving one bit from what is left of the numerator to its consumed prefix. */
  lemma NumeratorSplit(p: nat, q: nat, low: nat, b: nat, t: nat)
    ensures p * (2 * q) + low == (2 * p + b) * q + (low - b * q)
    ensures 2 * (low * t) - b * (2 * (q * t)) == (low - b * q) * (2 * t)
  {
  }

  lemma NextQuotient(quot: nat, den: nat, rem: nat, p: nat, b: nat)
    requires b <= 1
    requires if den == 0 then quot == 0 && rem == p else p == quot * den + rem && rem < den
    ensures den != 0 ==> 2 * p + b == (2 * quot) * den + (2 * rem + b)
    ensures den != 0 ==> 2 * p + b == (2 * quot + 1) * den + (2 * rem + b - den)
  {
  }

  lemma QuotientBound(quot: nat, den: nat, rem: nat, p: nat)
    requires if den == 0 then quot == 0 && rem == p else p == quot * den + rem && rem < den
    ensures quot <= p && rem <= p
  {
    if den != 0 { Grows(quot, den); }
  }

  lemma {:induction false} StepsInvariant(x: Operands, w: nat, k: nat) returns (p: nat, low: nat)
    requires 0 < w && k <= w && x.num < Pow2(w)
    ensures Invariant(Steps(Load(x), w, k), w, k, x.num, x.den, p, low)
  {
    if k == 0 {
      p, low := 0, x.num;
    } else {
      p, low := StepsInvariant(x, w, k - 1);
      p, low := StepInvariant(Steps(Load(x), w, k - 1), w, k - 1, x.num, x.den, p, low);
    }
  }

  lemma {:induction false} CarriedAlong(s: Stage, w: nat, k: nat)
    requires w > 0
    ensures Steps(s, w, k).valid == s.valid && Steps(s, w, k).payload == s.payload
  {
    if k > 0 { CarriedAlong(s, w, k - 1); }
  }

  /** w stages divide: for every numerator of w bits and every divisor, zero included. */
  lemma DividesExactly(x: Operands, w: nat)
    requires 0 < w && x.num < Pow2(w)
    ensures
      var s := Steps(Load(x), w, w);
      && s.valid == x.valid && s.payload == x.payload
      && s.quot == Quotient(x)
      && s.rem == (if x.den == 0 then x.num else x.num % x.den)
  {
    var p, low := StepsInvariant(x, w, w);
    CarriedAlong(Load(x), w, w);
    var s := Steps(Load(x), w, w);
    if x.den > 0 { DivUnique(x.num, x.den, s.quot, s.rem); }
  }

  // ---- the pipeline -----------------------------------------------------------------------

  /** All stages move at once; stage 0 takes in the operands on the port. */
  function Next(pipe: seq<Stage>, x: Operands): (r: seq<Stage>)
    requires pipe != []
    ensures |r| == |pipe|
  {
    seq(|pipe|, i requires 0 <= i < |pipe| => Step(if i == 0 then Load(x) else pipe[i - 1], |pipe|))
  }

  function Clocked(w: nat, xs: seq<Operands>): (r: seq<Stage>)
    requires w > 0
    ensures |r| == w
  {
    if xs == [] then seq(w, _ => RESET) else Next(Clocked(w, xs[..|xs| - 1]), xs[|xs| - 1])
  }

  lemma ResetStays(w: nat)
    requires w > 0
    ensures Step(RESET, w) == RESET
  {
  }

  lemma {:induction false} StageHolds(w: nat, xs: seq<Operands>, i: nat)
    requires w > 0 && i < w
    ensures Clocked(w, xs)[i] == if i < |xs| then Steps(Load(xs[|xs| - 1 - i]), w, i + 1) else RESET
  {
    if xs != [] {
      var before, x := xs[..|xs| - 1], xs[|xs| - 1];
      var pipe := Clocked(w, before);
      if i == 0 {
        assert Clocked(w, xs)[0] == Step(Load(x), w) == Step(Steps(Load(x), w, 0), w);
      } else {
        StageHolds(w, before, i - 1);
        assert Clocked(w, xs)[i] == Step(pipe[i - 1], w);
        if i < |xs| {
          assert before[|before| - 1 - (i - 1)] == xs[|xs| - 1 - i];
        } else {
          ResetStays(w);
        }
      }
    }
  }

  /** MAIN RESULT. Fed one operand pair per cycle, the pipeline shows after every clock the exact
      quotient of the pair presented w clocks before, with that pair's own valid bit and payload;
      before the first pair has come through it shows nothing valid. */
  lemma {:induction false} PipelineDivides(w: nat, xs: seq<Operands>)
    requires w > 0 && forall i | 0 <= i < |xs| :: xs[i].num < Pow2(w)
    ensures
      var last := Clocked(w, xs)[w - 1];
      if |xs| < w then !last.valid
      else
        var x := xs[|xs| - w];
        last.valid == x.valid && last.payload == x.payload && last.quot == Quotient(x)
  {
    StageHolds(w, xs, w - 1);
    if |xs| >= w { DividesExactly(xs[|xs| - w], w); }
  }

  class PipeDivu {
    const w: nat
    const stages: array<Stage>

    ghost predicate Valid() {
      w > 0 && stages.Length == w
    }

    constructor (w: nat)
      requires w > 0
      ensures Valid() && this.w == w && fresh(stages) && stages[..] == Clocked(w, [])
    {
      this.w := w;
      stages := new Stage[w](_ => RESET);
    }

    /** One clock edge: every stage takes the step of its predecessor. */
    method Clock(x: Operands)
      requires Valid()
      modifies stages
      ensures stages[..] == Next(old(stages[..]), x)
    {
      hide Step, Load;
      var i := w - 1;
      while i > 0
        invariant 0 <= i < w
        invariant forall j | 0 <= j <= i :: stages[j] == old(stages[j])
        invariant forall j | i < j < w :: stages[j] == Step(old(stages[j - 1]), w)
      {
        stages[i] := Step(stages[i - 1], w);
        i := i - 1;
      }
      stages[0] := Step(Load(x), w);
    }
  }
}
