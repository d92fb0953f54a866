/** Two-sided quoting: the golden market maker and its OFI-tilted variant, the clocked engines built
    round the pipelined divider, and exactly when the two agree. */
module Quoting {
  import opened Bits
  import opened Messages
  import opened Ofi
  import D = Divider

  const HALF_SPREAD: int := 200
  const SKEW: int := 2
  const QUOTE_SIZE: int := 100
  const MAX_POSITION: int := 1000
  const OFI_WINDOW: int := 8
  const ALPHA_DEN: int := 4
  const MAX_TILT: int := 150

  /** The divider width, and the clocks from a tick to its quote: input, divider, output. */
  const DIV_W: nat := 64
  const LATENCY: nat := DIV_W + 2

  /** One cycle of market data and inventory. */
  datatype Market = Market(valid: bool, top: Top, inventory: Int32)

  datatype Quote = Quote(bidPrice: int, bidQty: int, askPrice: int, askQty: int)

  // ---- golden -------------------------------------------------------------------------------

  predicate Quotable(m: Market) {
    m.valid && m.top.askPrice > m.top.bidPrice && m.top.bidSize + m.top.askSize != 0
  }

  function Numerator(t: Top): nat { t.bidPrice * t.askSize + t.askPrice * t.bidSize }

  function Denominator(t: Top): nat { t.bidSize + t.askSize }

  function Microprice(t: Top): nat
    requires Denominator(t) != 0
  {
    Numerator(t) / Denominator(t)
  }

  /** The quote round a centre, with the position guard on either side. */
  function QuoteAround(centre: int, inventory: int): Quote {
    var bid := centre - HALF_SPREAD;
    var ask := if centre + HALF_SPREAD <= bid then bid + 1 else centre + HALF_SPREAD;
    var bidQty := if inventory + QUOTE_SIZE > MAX_POSITION then 0 else QUOTE_SIZE;
    var askQty := if inventory - QUOTE_SIZE < -MAX_POSITION then 0 else QUOTE_SIZE;
    Quote(if bid < 0 || bidQty == 0 then 0 else bid, bidQty, if ask < 0 || askQty == 0 then 0 else ask, askQty)
  }

  /** The centre of the quote: microprice, less the inventory skew, plus the tilt. */
  function Centre(m: Market, tilt: int): int
    requires Denominator(m.top) != 0
  {
    Microprice(m.top) - m.inventory * SKEW + tilt
  }

  /** The golden quote for a given tilt; None stands for the all-zero tuple of an unquotable book. */
  function GoldenQuote(m: Market, tilt: int): Option<Quote> {
    if !Quotable(m) then None else Some(QuoteAround(Centre(m, tilt), m.inventory))
  }

  /** The plain market maker has no tilt. */
  function MmQuote(m: Market): Option<Quote> { GoldenQuote(m, 0) }

  /** Arithmetic shift right by two, clamped. */
  function Tilt(ofi: int): (r: int)
    ensures -MAX_TILT <= r <= MAX_TILT
  {
    var t := ofi / ALPHA_DEN;
    if t > MAX_TILT then MAX_TILT else if t < -MAX_TILT then -MAX_TILT else t
  }

  function MakerNext(g: Golden, m: Market): (r: Golden)
    requires g.buf != []
    ensures |r.buf| == |g.buf|
  {
    if !Quotable(m) then g.(prev := None)
    else if g.prev.None? then g.(prev := Some(m.top))
    else Golden(Some(m.top), Push(g.buf, Increment(g.prev.value, m.top)))
  }

  function MakerQuote(g: Golden, m: Market): Option<Quote>
    requires g.buf != []
  {
    GoldenQuote(m, Tilt(Sum(MakerNext(g, m).buf)))
  }

  function MakerRun(ms: seq<Market>): (g: Golden)
    ensures |g.buf| == OFI_WINDOW
  {
    if ms == [] then Start(OFI_WINDOW) else MakerNext(MakerRun(ms[..|ms| - 1]), ms[|ms| - 1])
  }

  class OFIMakerGolden {
    var prev: Option<Top>
    var buf: seq<int>

    ghost function State(): Golden
      reads this
    {
      Golden(prev, buf)
    }

    constructor ()
      ensures State() == Start(OFI_WINDOW)
    {
      prev := None;
      buf := seq(OFI_WINDOW, _ => 0);
    }

    method GetQuote(m: Market) returns (q: Option<Quote>)
      requires buf != []
      modifies this
      ensures |buf| == |old(buf)| && State() == MakerNext(old(State()), m) && q == MakerQuote(old(State()), m)
    {
      if !Quotable(m) {
        prev := None;
        return None;
      }
      if prev.Some? {
        buf := buf[1..] + [Increment(prev.value, m.top)];
      }
      prev := Some(m.top);
      var ofi := SumOf(buf);
      var micro := (m.top.bidPrice * m.top.askSize + m.top.askPrice * m.top.bidSize) / (m.top.bidSize + m.top.askSize);
      var centre := micro - m.inventory * SKEW + Tilt(ofi);
      q := Some(QuoteAround(centre, m.inventory));
    }
  }

  /** The microprice lies between the two touch prices. */
  lemma MicropriceBetween(t: Top)
    requires Denominator(t) != 0 && t.bidPrice <= t.askPrice
    ensures t.bidPrice <= Microprice(t) <= t.askPrice
  {
    var bp: nat, ap: nat, bs: nat, az: nat, den := t.bidPrice, t.askPrice, t.bidSize, t.askSize, Denominator(t);
    Monotone(bp, ap, bs);
    Monotone(bp, ap, az);
    assert bp * den == bp * az + bp * bs && ap * den == ap * az + ap * bs;
    DivBetween(Numerator(t), den, bp, ap);
  }

  lemma Monotone(a: nat, b: nat, k: nat)
    requires a <= b
    ensures a * k <= b * k
  {
  }

  lemma DivBetween(n: nat, d: nat, lo: nat, hi: nat)
    requires d > 0 && lo * d <= n <= hi * d
    ensures lo <= n / d <= hi
  {
    var q := n / d;
    assert n == q * d + n % d;
    assert (q + 1) * d == q * d + d && (hi + 1) * d == hi * d + d;
    if q < lo {
      Monotone(q + 1, lo, d);
    } else if q > hi {
      Monotone(hi + 1, q, d);
    }
  }

  // ---- RTL, combinational parts ---------------------------------------------------------------

  /** The size test is a 32-bit sum, the divisor a 64-bit one. */
  predicate QuotableBits(m: Market) {
    m.valid && m.top.askPrice > m.top.bidPrice && Low32(m.top.bidSize + m.top.askSize) != 0
  }

  /** {tilt, inventory} as one 64-bit payload. */
  function Pack(tilt: int, inventory: int): nat {
    Low32(tilt) * TWO32 + Low32(inventory)
  }

  lemma Unpack(tilt: Int32, inventory: Int32)
    ensures Signed32(Pack(tilt, inventory) / TWO32) == tilt && Signed32(Pack(tilt, inventory) % TWO32) == inventory
  {
  }

  /** Stage 1: what enters the divider for one tick. */
  function Stage1(m: Market, tilt: int): D.Operands {
    D.Operands(QuotableBits(m), Low64(Numerator(m.top)), Denominator(m.top), Pack(tilt, m.inventory))
  }

  /** Stage 2: from quotient and payload to the registered quote, in 64- and 32-bit arithmetic. */
  function Stage2(micro: nat, payload: nat): Quote {
    var inventory := Signed32(payload % TWO32);
    var tilt := Signed32(payload / TWO32);
    var centre := Signed64(Signed64(micro) - inventory * SKEW + tilt);
    var bid := Signed64(centre - HALF_SPREAD);
    var up := Signed64(centre + HALF_SPREAD);
    var ask := if up <= bid then Signed64(bid + 1) else up;
    var bidQty := if Signed32(inventory + QUOTE_SIZE) > MAX_POSITION then 0 else QUOTE_SIZE;
    var askQty := if Signed32(inventory - QUOTE_SIZE) < -MAX_POSITION then 0 else QUOTE_SIZE;
    Quote(if bid < 0 || bidQty == 0 then 0 else Low32(bid), bidQty,
          if ask < 0 || askQty == 0 then 0 else Low32(ask), askQty)
  }

  /** What the engine computes for one tick, pipelining aside. */
  function RtlQuote(m: Market, tilt: int): Option<Quote> {
    if !QuotableBits(m) then None
    else
      var x := Stage1(m, tilt);
      Some(Stage2(D.Quotient(x), x.payload))
  }

  // ---- when one tick's quote agrees --------------------------------------------------------------

  /** The two models accept the same books, except those whose sizes add up to exactly 2^32. */
  lemma SameValidityIff(m: Market)
    ensures QuotableBits(m) == Quotable(m) <==> !(Quotable(m) && Denominator(m.top) == TWO32)
  {
    var den := Denominator(m.top);
    if den >= TWO32 {
      assert den == TWO32 + (den - TWO32) && den - TWO32 < TWO32;
      assert Low32(den) == den - TWO32;
    }
  }

  /** The divider sees the true numerator, and so yields the microprice, exactly when it fits 64 bits. */
  lemma SameMicropriceIff(t: Top)
    requires Denominator(t) != 0
    ensures Low64(Numerator(t)) / Denominator(t) == Microprice(t) <==> Numerator(t) < TWO64
  {
    Shortfall(t);
  }

  lemma NumeratorBound(t: Top)
    ensures Numerator(t) < 2 * TWO64
  {
    Monotone(t.bidPrice, TWO32, t.askSize);
    Monotone(t.askPrice, TWO32, t.bidSize);
    assert TWO32 * t.askSize < TWO64 && TWO32 * t.bidSize < TWO64;
  }

  lemma FarApart(num: nat, den: nat)
    requires num >= TWO64 && 0 < den < 2 * TWO32
    ensures num / den - (num - TWO64) / den > 2 * MAX_TILT
  {
    var q, apart := (num - TWO64) / den, 2 * MAX_TILT + 1;
    assert num - TWO64 == q * den + (num - TWO64) % den;
    assert (q + apart) * den == q * den + apart * den && apart * den < TWO64;
    Monotone(1, den, num);
    DivBetween(num, den, q + apart, num);
  }

  /** Inventory may not come within one quote of the 32-bit limits, where the position guard wraps. */
  predicate InventoryFits(m: Market) {
    -TWO31 <= m.inventory - QUOTE_SIZE && m.inventory + QUOTE_SIZE < TWO31
  }

  predicate BidPosted(m: Market) { m.inventory + QUOTE_SIZE <= MAX_POSITION }
  predicate AskPosted(m: Market) { -MAX_POSITION <= m.inventory - QUOTE_SIZE }

  /** No side that is posted is priced above the limit. */
  predicate PostedUpTo(m: Market, tilt: int, limit: int)
    requires Denominator(m.top) != 0
  {
    && (BidPosted(m) ==> Centre(m, tilt) - HALF_SPREAD <= limit)
    && (AskPosted(m) ==> Centre(m, tilt) + HALF_SPREAD <= limit)
  }

  /** What the RTL asks of a tick to reproduce the golden quote: sizes that do not add up to 2^32, an
      inventory clear of the 32-bit limits, and posted prices that fit 32 bits, or that are not even
      positive when the numerator overflows 64 bits. */
  predicate Fits(m: Market, tilt: int) {
    Quotable(m) ==>
      && Denominator(m.top) != TWO32
      && InventoryFits(m)
      && PostedUpTo(m, tilt, if Numerator(m.top) < TWO64 then TWO32 - 1 else 0)
  }

  /** The same when the RTL works with a tilt of its own: it must then hide the difference by pricing
      nothing above zero. */
  predicate FitsBoth(m: Market, rtlTilt: int, tilt: int) {
    Quotable(m) ==>
      && Denominator(m.top) != TWO32
      && InventoryFits(m)
      && (if Numerator(m.top) >= TWO64 then PostedUpTo(m, tilt, 0)
          else if rtlTilt == tilt then PostedUpTo(m, tilt, TWO32 - 1)
          else PostedUpTo(m, tilt, 0) && PostedUpTo(m, rtlTilt, 0))
  }

  predicate SmallTilt(tilt: int) { -MAX_TILT <= tilt <= MAX_TILT }

  lemma Wraps(x: int)
    requires -TWO32 <= x < TWO32
    ensures x >= TWO31 ==> Signed32(x) == x - TWO32
    ensures x < -TWO31 ==> Signed32(x) == x + TWO32
  {
  }

  /** What the guard and the two price fields of the RTL make of a quotient and a payload. */
  lemma Stage2Is(micro: Word, tilt: int, inventory: Int32)
    requires SmallTilt(tilt)
    ensures
      var r, centre := Stage2(micro, Pack(tilt, inventory)), micro - inventory * SKEW + tilt;
      var bid, ask := centre - HALF_SPREAD, centre + HALF_SPREAD;
      && (r.bidQty == QuoteAround(centre, inventory).bidQty <==> inventory + QUOTE_SIZE < TWO31)
      && (r.askQty == QuoteAround(centre, inventory).askQty <==> -TWO31 <= inventory - QUOTE_SIZE)
      && r.bidPrice == (if bid < 0 || r.bidQty == 0 then 0 else Low32(bid))
      && r.askPrice == (if ask < 0 || r.askQty == 0 then 0 else Low32(ask))
  {
    Unpack(tilt, inventory);
    Wraps(inventory + QUOTE_SIZE);
    Wraps(inventory - QUOTE_SIZE);
  }

  /** How a price field of the RTL compares with a golden price that lies `gap` above it. */
  lemma FieldIff(rtl: int, golden: int, gap: int)
    requires golden == rtl + gap && gap > -TWO32
    ensures
      (if rtl < 0 then 0 else Low32(rtl)) == (if golden < 0 then 0 else golden) <==>
      if gap == 0 then golden < TWO32 else rtl <= 0 && golden <= 0
  {
    if TWO32 <= rtl < 2 * TWO32 {
      assert Low32(rtl) == rtl - TWO32;
    }
  }

  /** A price field against a golden price: they must fit, or neither be positive when they differ. */
  predicate SamePrice(posted: bool, rtl: int, golden: int) {
    posted ==> if rtl == golden then golden < TWO32 else rtl <= 0 && golden <= 0
  }

  /** When the second stage gives the quote round a golden centre at most 2^32 below its own. */
  lemma Stage2Iff(micro: Word, tilt: int, inventory: Int32, golden: int)
    requires SmallTilt(tilt) && golden > micro - inventory * SKEW + tilt - TWO32
    ensures
      var centre := micro - inventory * SKEW + tilt;
      Stage2(micro, Pack(tilt, inventory)) == QuoteAround(golden, inventory) <==>
        && -TWO31 <= inventory - QUOTE_SIZE && inventory + QUOTE_SIZE < TWO31
        && SamePrice(inventory + QUOTE_SIZE <= MAX_POSITION, centre - HALF_SPREAD, golden - HALF_SPREAD)
        && SamePrice(-MAX_POSITION <= inventory - QUOTE_SIZE, centre + HALF_SPREAD, golden + HALF_SPREAD)
  {
    var centre := micro - inventory * SKEW + tilt;
    Stage2Is(micro, tilt, inventory);
    FieldIff(centre - HALF_SPREAD, golden - HALF_SPREAD, golden - centre);
    FieldIff(centre + HALF_SPREAD, golden + HALF_SPREAD, golden - centre);
  }

  /** A numerator of more than 64 bits costs the quotient more than any tilt makes up for. */
  lemma Shortfall(t: Top)
    requires Denominator(t) != 0
    ensures
      var gap := Microprice(t) - Low64(Numerator(t)) / Denominator(t);
      if Numerator(t) < TWO64 then gap == 0 else gap > 2 * MAX_TILT
  {
    var num, den := Numerator(t), Denominator(t);
    NumeratorBound(t);
    if num >= TWO64 {
      assert Low64(num) == num - TWO64;
      FarApart(num, den);
    } else {
      assert Low64(num) == num;
    }
  }

  lemma RtlQuoteIs(m: Market, tilt: int)
    requires QuotableBits(m) && Denominator(m.top) != 0
    ensures
      RtlQuote(m, tilt) == Some(Stage2(Low64(Numerator(m.top)) / Denominator(m.top), Pack(tilt, m.inventory)))
  {
  }

  /** The same on a book both models accept, with quotient and microprice given. */
  lemma AcceptedIff(m: Market, quot: Word, micro: Word, rtlTilt: int, tilt: int)
    requires SmallTilt(rtlTilt) && SmallTilt(tilt) && Quotable(m) && Denominator(m.top) != TWO32
    requires micro == Microprice(m.top)
    requires if Numerator(m.top) < TWO64 then quot == micro else micro - quot > 2 * MAX_TILT
    ensures
      Stage2(quot, Pack(rtlTilt, m.inventory)) == QuoteAround(Centre(m, tilt), m.inventory) <==>
        FitsBoth(m, rtlTilt, tilt)
  {
    hide Stage2, QuoteAround, Numerator, Microprice;
    Stage2Iff(quot, rtlTilt, m.inventory, Centre(m, tilt));
  }

  /** MAIN RESULT. For every tick and any two tilts of the engine and the model, the RTL quote is the golden
      one exactly when the tick fits both. */
  lemma QuotesAgreeIff(m: Market, rtlTilt: int, tilt: int)
    requires SmallTilt(rtlTilt) && SmallTilt(tilt)
    ensures RtlQuote(m, rtlTilt) == GoldenQuote(m, tilt) <==> FitsBoth(m, rtlTilt, tilt)
  {
    SameValidityIff(m);
    if Quotable(m) && Denominator(m.top) != TWO32 {
      hide Stage2, QuoteAround, FitsBoth, Numerator, Microprice, Pack, Low64, RtlQuote;
      Shortfall(m.top);
      MicropriceBetween(m.top);
      RtlQuoteIs(m, rtlTilt);
      AcceptedIff(m, Low64(Numerator(m.top)) / Denominator(m.top), Microprice(m.top), rtlTilt, tilt);
    }
  }

  /** MAIN RESULT. With one tilt for both, the RTL quote of any tick is the golden one exactly when the tick
      fits. */
  lemma SameQuoteIff(m: Market, tilt: int)
    requires SmallTilt(tilt)
    ensures RtlQuote(m, tilt) == GoldenQuote(m, tilt) <==> Fits(m, tilt)
  {
    QuotesAgreeIff(m, tilt, tilt);
  }

  /** A book both models accept whose numerator is too long: the quotient loses 2^64 of it. */
  lemma LongNumeratorDisagrees()
    ensures
      var m := Market(true, Top(0x8000_0001, 0xFFFF_FFFF, 0x8000_0002, 0xFFFF_FFFF), 0);
      QuotableBits(m) && Quotable(m) && Numerator(m.top) >= TWO64 && RtlQuote(m, 0) != MmQuote(m)
  {
    var t := Top(0x8000_0001, 0xFFFF_FFFF, 0x8000_0002, 0xFFFF_FFFF);
    var m := Market(true, t, 0);
    assert Denominator(t) == 2 * TWO32 - 2;
    SameValidityIff(m);
    MicropriceBetween(t);
    SameQuoteIff(m, 0);
  }

  /** A book at the top of the price range: the golden ask needs a 33rd bit. */
  lemma HighPricesDisagree()
    ensures
      var m := Market(true, Top(0xFFFF_FFF0, 1, 0xFFFF_FFF2, 1), 0);
      Numerator(m.top) < TWO64 && MmQuote(m).Some? && RtlQuote(m, 0) != MmQuote(m)
  {
    var t := Top(0xFFFF_FFF0, 1, 0xFFFF_FFF2, 1);
    SameQuoteIff(Market(true, t, 0), 0);
    MicropriceBetween(t);
  }

  /** A book whose sizes add up to 2^32 is quoted by the golden model and ignored by the RTL. */
  lemma FullSizesDisagree()
    ensures
      var m := Market(true, Top(100, 0x8000_0000, 102, 0x8000_0000), 0);
      MmQuote(m).Some? && RtlQuote(m, 0).None?
  {
    var t := Top(100, 0x8000_0000, 102, 0x8000_0000);
    assert Denominator(t) == TWO32;
  }

  /** At the top of the 32-bit range the RTL still offers to buy where the golden guard forbids it. */
  lemma GuardWraps(t: Top)
    requires Quotable(Market(true, t, 0x7FFF_FFFF)) && Denominator(t) != TWO32
    ensures
      var m := Market(true, t, 0x7FFF_FFFF);
      RtlQuote(m, 0).value.bidQty == QUOTE_SIZE && MmQuote(m).value.bidQty == 0
  {
    var m := Market(true, t, 0x7FFF_FFFF);
    SameValidityIff(m);
    Unpack(0, m.inventory);
    Wraps(m.inventory + QUOTE_SIZE);
  }

  // ---- the pipeline round the divider ---------------------------------------------------------

  /** Stage-1 registers, divider stages and registered quote of either engine. */
  datatype Engine = Engine(s1: D.Operands, pipe: seq<D.Stage>, valid: bool, out: Quote)

  const NO_OPERANDS := D.Operands(false, 0, 0, 0)
  const NO_QUOTE := Quote(0, 0, 0, 0)

  function ResetEngine(): Engine {
    Engine(NO_OPERANDS, D.Clocked(DIV_W, []), false, NO_QUOTE)
  }

  function EngineNext(e: Engine, x: D.Operands): (r: Engine)
    requires |e.pipe| == DIV_W
    ensures |r.pipe| == DIV_W
  {
    var last := e.pipe[DIV_W - 1];
    Engine(x, D.Next(e.pipe, e.s1), last.valid, if last.valid then Stage2(last.quot, last.payload) else e.out)
  }

  /** The engine fed one stage-1 word per cycle. */
  function EngineRun(xs: seq<D.Operands>): (e: Engine)
    ensures |e.pipe| == DIV_W
  {
    if xs == [] then ResetEngine() else EngineNext(EngineRun(xs[..|xs| - 1]), xs[|xs| - 1])
  }

  lemma {:induction false} EngineHolds(xs: seq<D.Operands>)
    ensures EngineRun(xs).s1 == if xs == [] then NO_OPERANDS else xs[|xs| - 1]
    ensures EngineRun(xs).pipe == D.Clocked(DIV_W, if xs == [] then [] else [NO_OPERANDS] + xs[..|xs| - 1])
  {
    if xs != [] {
      var before := xs[..|xs| - 1];
      EngineHolds(before);
      var fed := [NO_OPERANDS] + before;
      if before == [] {
        assert fed[..|fed| - 1] == [];
      } else {
        assert fed[..|fed| - 1] == [NO_OPERANDS] + before[..|before| - 1];
        assert fed[|fed| - 1] == before[|before| - 1];
      }
    }
  }

  lemma Pow2Of64()
    ensures D.Pow2(64) == TWO64
  {
    assert D.Pow2(4) == 16;
    hide D.Pow2;
    D.Pow2Split(4, 4);
    D.Pow2Split(8, 8);
    D.Pow2Split(16, 16);
    D.Pow2Split(32, 32);
  }

  /** What the divider shows after the operand stream `fed`. */
  lemma DividerShows(fed: seq<D.Operands>)
    requires forall i | 0 <= i < |fed| :: fed[i].num < TWO64
    ensures
      var last := D.Clocked(DIV_W, fed)[DIV_W - 1];
      if |fed| < DIV_W then !last.valid
      else
        var x := fed[|fed| - DIV_W];
        last.valid == x.valid && last.payload == x.payload && last.quot == D.Quotient(x)
  {
    Pow2Of64();
    D.PipelineDivides(DIV_W, fed);
  }

  /** After every clock the registered quote is that of the stage-1 word presented 66 clocks before. */
  lemma {:induction false} EngineLatency(xs: seq<D.Operands>)
    requires forall i | 0 <= i < |xs| :: xs[i].num < TWO64
    ensures
      var e := EngineRun(xs);
      if |xs| < LATENCY then !e.valid
      else
        var x := xs[|xs| - LATENCY];
        e.valid == x.valid && (e.valid ==> e.out == Stage2(D.Quotient(x), x.payload))
  {
    if xs != [] {
      var before := xs[..|xs| - 1];
      var fed := if before == [] then [] else [NO_OPERANDS] + before[..|before| - 1];
      EngineHolds(before);
      assert forall k | 0 <= k < |fed| :: fed[k] == if k == 0 then NO_OPERANDS else xs[k - 1];
      DividerShows(fed);
    }
  }

  // ---- the plain market maker --------------------------------------------------------------------

  function Words(ms: seq<Market>): (xs: seq<D.Operands>)
    ensures |xs| == |ms|
  {
    seq(|ms|, i requires 0 <= i < |ms| => Stage1(ms[i], 0))
  }

  /** The registered quote of an engine, or None. */
  function ShownQuote(e: Engine): Option<Quote> { if e.valid then Some(e.out) else None }

  /** MAIN RESULT. On every stream of ticks the hardware market maker shows, 66 cycles on, the quote it
      computes for that tick with that tick's own inventory; and it is the golden quote exactly when that
      one tick fits, whatever the others are. */
  lemma {:induction false} MarketMakerIsGolden(ms: seq<Market>)
    ensures
      var shown := ShownQuote(EngineRun(Words(ms)));
      if |ms| < LATENCY then shown.None?
      else
        var m := ms[|ms| - LATENCY];
        shown == RtlQuote(m, 0) && (shown == MmQuote(m) <==> Fits(m, 0))
  {
    EngineLatency(Words(ms));
    if |ms| >= LATENCY {
      SameQuoteIff(ms[|ms| - LATENCY], 0);
    }
  }

  // ---- the OFI-driven market maker ---------------------------------------------------------------

  /** OFI registers of the maker: previous quote, taps and running sum. */
  datatype Flow = Flow(prev: Top, havePrev: bool, taps: seq<int>, sum: int)

  function ResetFlow(): Flow { Flow(NO_TOP, false, seq(OFI_WINDOW, _ => 0), 0) }

  function NewSum(f: Flow, m: Market): int
    requires f.taps != []
  {
    if f.havePrev then Signed48(f.sum - f.taps[0] + IncrementBits(f.prev, m.top)) else f.sum
  }

  function FlowNext(f: Flow, m: Market): (r: Flow)
    requires f.taps != []
    ensures |r.taps| == |f.taps|
  {
    if !QuotableBits(m) then f.(havePrev := false)
    else if !f.havePrev then f.(prev := m.top, havePrev := true)
    else Flow(m.top, true, Push(f.taps, IncrementBits(f.prev, m.top)), NewSum(f, m))
  }

  /** Stage 1 of the OFI maker: on a bad book only the valid bit drops, the words are held. */
  function MakerStage1(f: Flow, held: D.Operands, m: Market): D.Operands
    requires f.taps != []
  {
    if QuotableBits(m) then Stage1(m, Tilt(NewSum(f, m))) else held.(valid := false)
  }

  function FlowRun(ms: seq<Market>): (f: Flow)
    ensures |f.taps| == OFI_WINDOW
  {
    if ms == [] then ResetFlow() else FlowNext(FlowRun(ms[..|ms| - 1]), ms[|ms| - 1])
  }

  function MakerWords(ms: seq<Market>): (xs: seq<D.Operands>)
    ensures |xs| == |ms|
  {
    if ms == [] then []
    else
      var before := ms[..|ms| - 1];
      var xs := MakerWords(before);
      xs + [MakerStage1(FlowRun(before), if xs == [] then NO_OPERANDS else xs[|xs| - 1], ms[|ms| - 1])]
  }

  /** The tilt the golden model gives tick i. */
  function GoldenTilt(ms: seq<Market>, i: nat): int
    requires i < |ms|
  {
    Tilt(Sum(MakerNext(MakerRun(ms[..i]), ms[i]).buf))
  }

  /** The tilt the engine gives tick i. */
  function RtlTilt(ms: seq<Market>, i: nat): int
    requires i < |ms|
  {
    Tilt(NewSum(FlowRun(ms[..i]), ms[i]))
  }

  /** No quotable book among the ticks has sizes that add up to 2^32. */
  ghost predicate NoFullSizes(ms: seq<Market>) {
    forall i | 0 <= i < |ms| && Quotable(ms[i]) :: Denominator(ms[i].top) != TWO32
  }

  ghost predicate SameFlow(f: Flow, g: Golden) {
    && f.taps == g.buf && f.sum == Sum(g.buf)
    && f.havePrev == g.prev.Some? && (f.havePrev ==> f.prev == g.prev.value)
    && forall i | 0 <= i < |g.buf| :: -2 * TWO32 < g.buf[i] < 2 * TWO32
  }

  lemma FlowStep(f: Flow, g: Golden, m: Market)
    requires SameFlow(f, g) && |g.buf| == OFI_WINDOW && QuotableBits(m) == Quotable(m)
    ensures SameFlow(FlowNext(f, m), MakerNext(g, m))
    ensures Quotable(m) ==> NewSum(f, m) == Sum(MakerNext(g, m).buf)
  {
    SumBound(MakerNext(g, m).buf);
    if Quotable(m) && f.havePrev {
      SlidingSum(g.buf, Increment(g.prev.value, m.top));
    }
  }

  lemma {:induction false} FlowIsGolden(ms: seq<Market>)
    requires NoFullSizes(ms)
    ensures SameFlow(FlowRun(ms), MakerRun(ms))
  {
    if ms == [] {
      ZeroSum(OFI_WINDOW);
    } else {
      var before, m := ms[..|ms| - 1], ms[|ms| - 1];
      assert NoFullSizes(before);
      FlowIsGolden(before);
      SameValidityIff(m);
      FlowStep(FlowRun(before), MakerRun(before), m);
    }
  }

  /** The tilts are the same as long as no full sizes have come before. */
  lemma TiltsAgree(ms: seq<Market>, i: nat)
    requires i < |ms| && Quotable(ms[i]) && NoFullSizes(ms[..i + 1])
    ensures RtlTilt(ms, i) == GoldenTilt(ms, i)
  {
    var upTo := ms[..i + 1];
    assert upTo[..i] == ms[..i] && upTo[i] == ms[i];
    assert NoFullSizes(ms[..i]);
    FlowIsGolden(ms[..i]);
    SameValidityIff(ms[i]);
    FlowStep(FlowRun(ms[..i]), MakerRun(ms[..i]), ms[i]);
  }

  /** Every stage-1 word is that of its own tick, with the engine's tilt. */
  lemma {:induction false} MakerWordAt(ms: seq<Market>, i: nat)
    requires i < |ms|
    ensures
      var x := MakerWords(ms)[i];
      x.valid == QuotableBits(ms[i]) && (x.valid ==> x == Stage1(ms[i], RtlTilt(ms, i)))
  {
    var before := ms[..|ms| - 1];
    if i < |before| {
      MakerWordAt(before, i);
      assert before[..i] == ms[..i] && MakerWords(ms)[i] == MakerWords(before)[i];
    }
  }

  lemma {:induction false} MakerWordsFit(ms: seq<Market>)
    ensures forall i | 0 <= i < |ms| :: MakerWords(ms)[i].num < TWO64
  {
    if ms != [] {
      MakerWordsFit(ms[..|ms| - 1]);
    }
  }

  /** MAIN RESULT. On every stream of ticks the OFI-driven maker shows, 66 cycles on, the quote it computes
      for that tick with its own inventory and windowed tilt; and it is the golden quote exactly when that
      tick fits both tilts. */
  lemma {:induction false} OfiMakerShows(ms: seq<Market>)
    requires |ms| >= LATENCY
    ensures
      var n := |ms| - LATENCY;
      var shown := ShownQuote(EngineRun(MakerWords(ms)));
      && shown == RtlQuote(ms[n], RtlTilt(ms, n))
      && (shown == MakerQuote(MakerRun(ms[..n]), ms[n]) <==> FitsBoth(ms[n], RtlTilt(ms, n), GoldenTilt(ms, n)))
  {
    var n := |ms| - LATENCY;
    MakerWordsFit(ms);
    EngineLatency(MakerWords(ms));
    MakerWordAt(ms, n);
    QuotesAgreeIff(ms[n], RtlTilt(ms, n), GoldenTilt(ms, n));
  }

  /** MAIN RESULT. Unless full sizes came before, one tilt serves both: the quote shown is the golden quote
      of the tick 66 cycles earlier exactly when that tick fits. */
  lemma {:induction false} OfiMakerIsGolden(ms: seq<Market>)
    requires |ms| >= LATENCY ==> NoFullSizes(ms[..|ms| - LATENCY])
    ensures
      var shown := ShownQuote(EngineRun(MakerWords(ms)));
      if |ms| < LATENCY then shown.None?
      else
        var n := |ms| - LATENCY;
        shown == MakerQuote(MakerRun(ms[..n]), ms[n]) <==> Fits(ms[n], GoldenTilt(ms, n))
  {
    hide MakerWords, MakerRun, MakerNext, FlowRun, NewSum, MakerQuote, PostedUpTo, RtlTilt, GoldenTilt, RtlQuote;
    hide EngineRun;
    MakerWordsFit(ms);
    EngineLatency(MakerWords(ms));
    if |ms| >= LATENCY {
      var n := |ms| - LATENCY;
      OfiMakerShows(ms);
      if Quotable(ms[n]) && Denominator(ms[n].top) != TWO32 {
        assert NoFullSizes(ms[..n + 1]);
        TiltsAgree(ms, n);
      }
    }
  }
}
