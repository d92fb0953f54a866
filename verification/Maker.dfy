/** The host-side market maker, how far it mirrors the golden one, and the backtest that trades it. */
module Maker {
  import opened Bits
  import opened Messages
  import opened Portfolios
  import opened PortfolioState
  import Q = Quoting
  import Ofi

  datatype MMConfig = MMConfig(halfSpread: int, skew: real, quoteSize: int, maxPosition: int, minBookSize: nat,
                               rtlExact: bool)

  /** The values the source's configuration starts from, with the golden half-spread. */
  const GOLDEN := MMConfig(Q.HALF_SPREAD, Q.SKEW as real, Q.QUOTE_SIZE, Q.MAX_POSITION, 1, true)

  /** One quoted market. */
  datatype Tick = Tick(bidPrice: int, bidSize: int, askPrice: int, askSize: int)

  /** A resting quote; price and size zero mean that side is not quoted. */
  datatype HostQuote = HostQuote(bidPrice: int, bidSize: int, askPrice: int, askSize: int)

  predicate Refuses(cfg: MMConfig, t: Tick) {
    t.bidSize < cfg.minBookSize || t.askSize < cfg.minBookSize || t.askPrice <= t.bidPrice
  }

  /** Truncation toward zero. */
  function Trunc(x: real): int { if x >= 0.0 then x.Floor else 0 - (0.0 - x).Floor }

  /** The nearest whole number, halves to the even one. */
  function RoundHalfEven(x: real): (r: int)
    ensures x.Floor <= r <= x.Floor + 1
  {
    var low := x - x.Floor as real;
    if low < 0.5 || (low == 0.5 && x.Floor % 2 == 0) then x.Floor else x.Floor + 1
  }

  /** The microprice, less the inventory skew, in whole ticks. */
  function Centre(cfg: MMConfig, t: Tick, inventory: int): int
    requires t.bidSize + t.askSize > 0
  {
    (t.bidPrice * t.askSize + t.askPrice * t.bidSize) / (t.bidSize + t.askSize) - inventory * Trunc(cfg.skew)
  }

  /** The microprice; the plain mid of a market without sizes. */
  function Fair(t: Tick): real {
    if t.bidSize + t.askSize <= 0 then (t.bidPrice + t.askPrice) as real / 2.0
    else (t.bidPrice * t.askSize + t.askPrice * t.bidSize) as real / (t.bidSize + t.askSize) as real
  }

  function FairCentre(cfg: MMConfig, t: Tick, inventory: int): real { Fair(t) - inventory as real * cfg.skew }

  /** Bid and ask before the guards, along either path; None where the integer path divides by zero. */
  function RawQuote(cfg: MMConfig, t: Tick, inventory: int): Option<(int, int)>
    requires t.bidSize >= 0 && t.askSize >= 0
  {
    if cfg.rtlExact then
      if t.bidSize + t.askSize == 0 then None
      else Some((Centre(cfg, t, inventory) - cfg.halfSpread, Centre(cfg, t, inventory) + cfg.halfSpread))
    else
      var centre := FairCentre(cfg, t, inventory);
      Some((RoundHalfEven(centre - cfg.halfSpread as real), RoundHalfEven(centre + cfg.halfSpread as real)))
  }

  predicate BuysPastCap(cfg: MMConfig, inventory: int) { inventory + cfg.quoteSize > cfg.maxPosition }
  predicate SellsPastCap(cfg: MMConfig, inventory: int) { inventory - cfg.quoteSize < 0 - cfg.maxPosition }

  /** The quote a host posts; None where quoting raises. */
  function HostQuoteOf(cfg: MMConfig, t: Tick, inventory: int): Option<HostQuote> {
    if Refuses(cfg, t) then Some(HostQuote(0, 0, 0, 0))
    else
      var raw := RawQuote(cfg, t, inventory);
      if raw.None? then None
      else
        var (bid, ask) := raw.value;
        var shown := if ask <= bid then bid + 1 else ask;
        Some(HostQuote(if BuysPastCap(cfg, inventory) then 0 else bid,
                       if BuysPastCap(cfg, inventory) then 0 else cfg.quoteSize,
                       if SellsPastCap(cfg, inventory) then 0 else shown,
                       if SellsPastCap(cfg, inventory) then 0 else cfg.quoteSize))
  }

  /** The maker never crosses or locks its own quote. */
  lemma NeverCrossed(cfg: MMConfig, t: Tick, inventory: int)
    requires HostQuoteOf(cfg, t, inventory).Some?
    ensures
      var q := HostQuoteOf(cfg, t, inventory).value;
      q.bidSize > 0 && q.askSize > 0 ==> q.bidPrice < q.askPrice
  {
  }

  lemma FloorOfQuotient(num: int, den: int)
    requires den > 0
    ensures (num as real / den as real).Floor == num / den
  {
    var q := num / den;
    var r := num as real / den as real;
    assert q * den <= num < (q + 1) * den by {
      assert num == q * den + num % den;
    }
    QuotientBetween(num as real, den as real, q as real, (q + 1) as real);
    CastProduct(q, den);
    CastProduct(q + 1, den);
    FloorIs(r, q);
  }

  lemma CastProduct(a: int, b: int)
    ensures a as real * b as real == (a * b) as real
  {
  }

  lemma FloorIs(r: real, q: int)
    requires q as real <= r < q as real + 1.0
    ensures r.Floor == q
  {
  }

  lemma QuotientBetween(num: real, den: real, lo: real, hi: real)
    requires den > 0.0
    ensures lo * den <= num ==> lo <= num / den
    ensures num < hi * den ==> num / den < hi
  {
    assert (num / den) * den == num;
    Descale(lo, num / den, den);
    Descale(num / den, hi, den);
  }

  lemma Descale(x: real, y: real, k: real)
    requires k > 0.0
    ensures x * k <= y * k ==> x <= y
    ensures x * k < y * k ==> x < y
  {
  }

  /** With a whole number of skew ticks, rounding puts each side on the integer quote or one tick above. */
  lemma FloatWithinOneTick(cfg: MMConfig, t: Tick, inventory: int, skew: int)
    requires cfg.skew == skew as real && t.bidSize >= 0 && t.askSize >= 0 && t.bidSize + t.askSize > 0
    ensures
      var exact := RawQuote(cfg.(rtlExact := true), t, inventory).value;
      var float := RawQuote(cfg.(rtlExact := false), t, inventory).value;
      0 <= float.0 - exact.0 <= 1 && 0 <= float.1 - exact.1 <= 1
  {
    hide RawQuote, RoundHalfEven, Fair;
    ExactPair(cfg, t, inventory, skew);
    FloatPair(cfg, t, inventory, skew);
    BothWithinOneTick(Fair(t), inventory, skew, cfg.halfSpread);
  }

  lemma ExactPair(cfg: MMConfig, t: Tick, inventory: int, skew: int)
    requires cfg.skew == skew as real && t.bidSize >= 0 && t.askSize >= 0 && t.bidSize + t.askSize > 0
    ensures
      var exact := Fair(t).Floor - inventory * skew;
      RawQuote(cfg.(rtlExact := true), t, inventory) == Some((exact - cfg.halfSpread, exact + cfg.halfSpread))
  {
    FairFloor(t);
    WholeSkew(skew);
    hide Fair, Trunc;
  }

  lemma FloatPair(cfg: MMConfig, t: Tick, inventory: int, skew: int)
    requires cfg.skew == skew as real && t.bidSize >= 0 && t.askSize >= 0
    ensures
      var centre, half := Fair(t) - inventory as real * skew as real, cfg.halfSpread as real;
      RawQuote(cfg.(rtlExact := false), t, inventory) ==
        Some((RoundHalfEven(centre - half), RoundHalfEven(centre + half)))
  {
    assert FairCentre(cfg.(rtlExact := false), t, inventory) == Fair(t) - inventory as real * skew as real by {
      hide Fair;
    }
    hide Fair, FairCentre, RoundHalfEven;
  }

  lemma BothWithinOneTick(fair: real, inventory: int, skew: int, half: int)
    ensures
      var centre, exact := fair - inventory as real * skew as real, fair.Floor - inventory * skew;
      && 0 <= RoundHalfEven(centre - half as real) - (exact - half) <= 1
      && 0 <= RoundHalfEven(centre + half as real) - (exact + half) <= 1
  {
    var centre := fair - inventory as real * skew as real;
    SideWithinOneTick(fair, inventory, skew, half);
    SideWithinOneTick(fair, inventory, skew, 0 - half);
    assert centre - (0 - half) as real == centre + half as real;
  }

  lemma FairFloor(t: Tick)
    requires t.bidSize + t.askSize > 0
    ensures Fair(t).Floor == (t.bidPrice * t.askSize + t.askPrice * t.bidSize) / (t.bidSize + t.askSize)
  {
    FloorOfQuotient(t.bidPrice * t.askSize + t.askPrice * t.bidSize, t.bidSize + t.askSize);
  }

  lemma WholeSkew(skew: int)
    ensures Trunc(skew as real) == skew
  {
  }

  /** Rounding one side of a skewed centre, against flooring the microprice first. */
  lemma SideWithinOneTick(fair: real, inventory: int, skew: int, half: int)
    ensures
      var rounded := RoundHalfEven(fair - inventory as real * skew as real - half as real);
      0 <= rounded - (fair.Floor - inventory * skew - half) <= 1
  {
    CastProduct(inventory, skew);
    FloorIs(fair - (inventory * skew) as real - half as real, fair.Floor - inventory * skew - half);
  }

  /** The golden quote as four numbers, all zero when the book is unquotable. */
  function GoldenNumbers(t: Ofi.Top, inventory: Int32): HostQuote {
    var m := Q.MmQuote(Q.Market(true, t, inventory));
    if m.None? then HostQuote(0, 0, 0, 0)
    else HostQuote(m.value.bidPrice, m.value.bidQty, m.value.askPrice, m.value.askQty)
  }

  function TickOf(t: Ofi.Top): Tick { Tick(t.bidPrice, t.bidSize, t.askPrice, t.askSize) }

  /** MAIN RESULT. With the golden parameters the host's quote is the golden quote exactly when the prices
      are locked or crossed, or both sizes are zero, or both are positive and no side still quoted is
      priced below zero: the host leaves one-sided books unquoted, and posts negative prices unclamped. */
  lemma MirrorsGoldenIff(t: Ofi.Top, inventory: Int32)
    ensures
      HostQuoteOf(GOLDEN, TickOf(t), inventory) == Some(GoldenNumbers(t, inventory)) <==>
        || t.askPrice <= t.bidPrice
        || (t.bidSize == 0 && t.askSize == 0)
        || (t.bidSize > 0 && t.askSize > 0 &&
            (BuysPastCap(GOLDEN, inventory) || Centre(GOLDEN, TickOf(t), inventory) >= Q.HALF_SPREAD) &&
            (SellsPastCap(GOLDEN, inventory) || Centre(GOLDEN, TickOf(t), inventory) >= -Q.HALF_SPREAD))
  {
    assert Trunc(GOLDEN.skew) == Q.SKEW;
    if t.bidSize > 0 && t.askSize > 0 {
      assert Centre(GOLDEN, TickOf(t), inventory) == Q.Microprice(t) - inventory * Q.SKEW;
    }
  }

  /** A one-sided book that the golden model quotes and the host refuses. */
  lemma OneSidedBookDiffers()
    ensures
      var t := Ofi.Top(1000, 5, 1002, 0);
      HostQuoteOf(GOLDEN, TickOf(t), 0) != Some(GoldenNumbers(t, 0))
  {
    MirrorsGoldenIff(Ofi.Top(1000, 5, 1002, 0), 0);
  }

  /** A long position that skews the quote below zero: the host posts the negative price. */
  lemma NegativePriceDiffers()
    ensures
      var t := Ofi.Top(10, 5, 12, 5);
      HostQuoteOf(GOLDEN, TickOf(t), 900) != Some(GoldenNumbers(t, 900))
  {
    var t := Ofi.Top(10, 5, 12, 5);
    assert Trunc(GOLDEN.skew) == Q.SKEW;
    assert Centre(GOLDEN, TickOf(t), 900) == 11 - 1800;
    MirrorsGoldenIff(t, 900);
  }

  class MarketMaker {
    const cfg: MMConfig

    constructor (cfg: MMConfig)
      ensures this.cfg == cfg
    {
      this.cfg := cfg;
    }

    method GetQuote(t: Tick, inventory: int) returns (q: Option<HostQuote>)
      ensures q == HostQuoteOf(cfg, t, inventory)
    {
      hide RawQuote;
      if t.bidSize < cfg.minBookSize || t.askSize < cfg.minBookSize || !(t.askPrice > t.bidPrice) {
        return Some(HostQuote(0, 0, 0, 0));
      }
      var raw := PricePair(t, inventory);
      if raw.None? {
        return None;
      }
      var (bid, ask) := raw.value;
      if ask <= bid {
        ask := bid + 1;
      }
      var bidSize, askSize := cfg.quoteSize, cfg.quoteSize;
      if inventory + cfg.quoteSize > cfg.maxPosition {
        bid, bidSize := 0, 0;
      }
      if inventory - cfg.quoteSize < 0 - cfg.maxPosition {
        ask, askSize := 0, 0;
      }
      q := Some(HostQuote(bid, bidSize, ask, askSize));
    }

    /** Bid and ask round the skewed microprice, in whole ticks or rounded. */
    method PricePair(t: Tick, inventory: int) returns (r: Option<(int, int)>)
      requires t.bidSize >= 0 && t.askSize >= 0
      ensures r == RawQuote(cfg, t, inventory)
    {
      if cfg.rtlExact {
        var den := t.bidSize + t.askSize;
        if den == 0 {
          return None;
        }
        var micro := (t.bidPrice * t.askSize + t.askPrice * t.bidSize) / den;
        var centre := micro - inventory * Trunc(cfg.skew);
        assert centre == Centre(cfg, t, inventory);
        r := Some((centre - cfg.halfSpread, centre + cfg.halfSpread));
      } else {
        var centre := Fair(t) - inventory as real * cfg.skew;
        assert centre == FairCentre(cfg, t, inventory) by {
          hide Fair;
        }
        hide FairCentre, Fair, RoundHalfEven;
        r := Some((RoundHalfEven(centre - cfg.halfSpread as real), RoundHalfEven(centre + cfg.halfSpread as real)));
      }
    }
  }

  // ---- the backtest --------------------------------------------------------------------------------

  const SIM := "SIM"

  /** Which resting sides the noise flow would hit in one tick. */
  datatype Hits = Hits(bid: bool, ask: bool)

  predicate BidFills(q: HostQuote, h: Hits) { q.bidSize != 0 && q.bidPrice != 0 && h.bid }
  predicate AskFills(q: HostQuote, h: Hits) { q.askSize != 0 && q.askPrice != 0 && h.ask }

  function Bought(q: HostQuote, h: Hits): int { if BidFills(q, h) then q.bidSize else 0 }
  function Sold(q: HostQuote, h: Hits): int { if AskFills(q, h) then q.askSize else 0 }

  function Mid(t: Tick): int { (t.bidPrice + t.askPrice) / 2 }

  function BidEvents(q: HostQuote, h: Hits): seq<Event> {
    if BidFills(q, h) then [Event.Trade(SIM, 0, SignedSize(true, q.bidSize) as real, Usd(q.bidPrice))] else []
  }

  function AskEvents(q: HostQuote, h: Hits): seq<Event> {
    if AskFills(q, h) then [Event.Trade(SIM, 0, SignedSize(false, q.askSize) as real, Usd(q.askPrice))] else []
  }

  /** What one tick does to the account: mark, fills, mark to the next mid. */
  function TickEvents(q: HostQuote, h: Hits, t: Tick, next: Tick): seq<Event> {
    [Mark(SIM, Usd(Mid(t)))] + BidEvents(q, h) + AskEvents(q, h) + [Mark(SIM, Usd(Mid(next)))]
  }

  function BidFee(q: HostQuote, h: Hits, feeBps: real): real {
    if BidFills(q, h) then FeeOf(None, feeBps, Usd(q.bidPrice), q.bidSize) else 0.0
  }

  function AskFee(q: HostQuote, h: Hits, feeBps: real): real {
    if AskFills(q, h) then FeeOf(None, feeBps, Usd(q.askPrice), q.askSize) else 0.0
  }

  /** Position after the first n ticks; None when quoting raised. */
  function PositionAfter(cfg: MMConfig, stream: seq<Tick>, hits: seq<Hits>, n: nat): Option<int>
    requires n <= |stream| && n <= |hits|
  {
    if n == 0 then Some(0)
    else
      var p := PositionAfter(cfg, stream, hits, n - 1);
      if p.None? then None
      else
        var q := HostQuoteOf(cfg, stream[n - 1], p.value);
        if q.None? then None else Some(p.value + Bought(q.value, hits[n - 1]) - Sold(q.value, hits[n - 1]))
  }

  /** The position guard: even between the two fills of a tick the cap holds. */
  lemma TickCapped(cfg: MMConfig, t: Tick, p: int, h: Hits)
    requires cfg.quoteSize >= 0 && Abs(p) <= cfg.maxPosition && HostQuoteOf(cfg, t, p).Some?
    ensures
      var q := HostQuoteOf(cfg, t, p).value;
      && Abs(p + Bought(q, h)) <= cfg.maxPosition
      && Abs(p + Bought(q, h) - Sold(q, h)) <= cfg.maxPosition
  {
  }

  /** The position is within the cap after n ticks, and between the two fills of the next. */
  ghost predicate Capped(cfg: MMConfig, stream: seq<Tick>, hits: seq<Hits>, n: nat)
    requires n < |stream| && n <= |hits| && PositionAfter(cfg, stream, hits, n).Some?
  {
    var p := PositionAfter(cfg, stream, hits, n).value;
    && Abs(p) <= cfg.maxPosition
    && (n < |hits| && HostQuoteOf(cfg, stream[n], p).Some? ==>
      Abs(p + Bought(HostQuoteOf(cfg, stream[n], p).value, hits[n])) <= cfg.maxPosition)
  }

  /** For every quote stream and every pattern of one-, two- or no-side fills. */
  ghost predicate AlwaysCapped(cfg: MMConfig) {
    forall stream: seq<Tick>, hits: seq<Hits>, n: nat
      | n < |stream| && n <= |hits| && PositionAfter(cfg, stream, hits, n).Some? :: Capped(cfg, stream, hits, n)
  }

  lemma {:induction false} PositionCapped(cfg: MMConfig, stream: seq<Tick>, hits: seq<Hits>, n: nat)
    requires cfg.quoteSize >= 0 && cfg.maxPosition >= 0
    requires n < |stream| && n <= |hits| && PositionAfter(cfg, stream, hits, n).Some?
    ensures Capped(cfg, stream, hits, n)
  {
    hide HostQuoteOf, Bought, Sold;
    var p := PositionAfter(cfg, stream, hits, n).value;
    if n > 0 {
      PositionCapped(cfg, stream, hits, n - 1);
      TickCapped(cfg, stream[n - 1], PositionAfter(cfg, stream, hits, n - 1).value, hits[n - 1]);
    }
    if n < |hits| && HostQuoteOf(cfg, stream[n], p).Some? {
      TickCapped(cfg, stream[n], p, hits[n]);
    }
  }

  // ---- a negative quote size -----------------------------------------------------------------------

  /** A market two ticks wide above `a`, as deep as the maker asks for. */
  function Market(cfg: MMConfig, a: int): Tick { Tick(a, cfg.minBookSize + 1, a + 2, cfg.minBookSize + 1) }

  lemma MarketMid(cfg: MMConfig, a: int)
    ensures
      var t := Market(cfg, a);
      var num := t.bidPrice * t.askSize + t.askPrice * t.bidSize;
      num / (t.bidSize + t.askSize) == a + 1 && Fair(t) == (a + 1) as real
  {
    var s := cfg.minBookSize + 1;
    assert a * s + (a + 2) * s == (a + 1) * (s + s);
    WholeQuotient(a + 1, s + s);
  }

  lemma WholeQuotient(q: int, d: int)
    requires d > 0
    ensures q * d / d == q && (q * d) as real / d as real == q as real
  {
    CastProduct(q, d);
  }

  /** Of two such markets two ticks apart, one has a bid that is not at price zero. */
  lemma OneBids(cfg: MMConfig, p: int)
    requires cfg.quoteSize < 0 <= cfg.maxPosition && p <= 0
    ensures exists t: Tick :: BidIsHit(cfg, t, p)
  {
    var low, high := Market(cfg, 0), Market(cfg, 2);
    MarketMid(cfg, 0);
    MarketMid(cfg, 2);
    hide Fair;
    assert BidIsHit(cfg, low, p) || BidIsHit(cfg, high, p);
  }

  ghost predicate BidIsHit(cfg: MMConfig, t: Tick, p: int) {
    HostQuoteOf(cfg, t, p).Some? && Bought(HostQuoteOf(cfg, t, p).value, Hits(true, false)) == cfg.quoteSize
  }

  /** Hitting only the bid, each tick sells. */
  lemma {:induction false} RunsAway(cfg: MMConfig, n: nat) returns (stream: seq<Tick>, hits: seq<Hits>)
    requires cfg.quoteSize < 0 <= cfg.maxPosition
    ensures |stream| == |hits| == n && PositionAfter(cfg, stream, hits, n).Some?
    ensures PositionAfter(cfg, stream, hits, n).value <= 0 - n
  {
    hide HostQuoteOf, Bought;
    if n == 0 {
      stream, hits := [], [];
    } else {
      var s, h := RunsAway(cfg, n - 1);
      var p := PositionAfter(cfg, s, h, n - 1).value;
      OneBids(cfg, p);
      var t :| BidIsHit(cfg, t, p);
      stream, hits := s + [t], h + [Hits(true, false)];
      SameBefore(cfg, s, h, stream, hits, n - 1);
    }
  }

  /** The position depends only on the ticks so far. */
  lemma {:induction false} SameBefore(cfg: MMConfig, s: seq<Tick>, h: seq<Hits>, s': seq<Tick>, h': seq<Hits>, n: nat)
    requires n <= |s| <= |s'| && n <= |h| <= |h'| && s'[..n] == s[..n] && h'[..n] == h[..n]
    ensures PositionAfter(cfg, s', h', n) == PositionAfter(cfg, s, h, n)
  {
    hide HostQuoteOf, Bought, Sold;
    if n > 0 {
      assert s'[..n][n - 1] == s[..n][n - 1] && h'[..n][n - 1] == h[..n][n - 1];
      assert s'[..n - 1] == s'[..n][..n - 1] && h'[..n - 1] == h'[..n][..n - 1];
      assert s[..n - 1] == s[..n][..n - 1] && h[..n - 1] == h[..n][..n - 1];
      SameBefore(cfg, s, h, s', h', n - 1);
    }
  }

  /** MAIN RESULT. Whatever the quotes and fills, the position never exceeds the cap, after any tick or between
      the fills of one, exactly for configurations whose quote size and cap are not negative: with a negative
      size every bid hit sells, and no guard stops it. */
  lemma PositionCappedIff(cfg: MMConfig)
    ensures AlwaysCapped(cfg) <==> cfg.quoteSize >= 0 && cfg.maxPosition >= 0
  {
    hide HostQuoteOf, PositionAfter, Capped;
    if cfg.maxPosition < 0 {
      NegativeCap(cfg);
    } else if cfg.quoteSize < 0 {
      NegativeSize(cfg);
    } else {
      forall stream: seq<Tick>, hits: seq<Hits>, n: nat
        | n < |stream| && n <= |hits| && PositionAfter(cfg, stream, hits, n).Some?
        ensures Capped(cfg, stream, hits, n)
      {
        PositionCapped(cfg, stream, hits, n);
      }
    }
  }

  lemma NegativeCap(cfg: MMConfig)
    requires cfg.maxPosition < 0
    ensures !AlwaysCapped(cfg)
  {
    assert !Capped(cfg, [Market(cfg, 0)], [], 0);
  }

  lemma NegativeSize(cfg: MMConfig)
    requires cfg.quoteSize < 0 <= cfg.maxPosition
    ensures !AlwaysCapped(cfg)
  {
    hide HostQuoteOf, Bought, Sold;
    var n := cfg.maxPosition + 1;
    var stream, hits := RunsAway(cfg, n);
    var longer := stream + [Market(cfg, 0)];
    SameBefore(cfg, stream, hits, longer, hits, n);
    assert !Capped(cfg, longer, hits, n);
  }

  /** The account events of the first n ticks. */
  function RunEvents(cfg: MMConfig, stream: seq<Tick>, hits: seq<Hits>, n: nat): seq<Event>
    requires (n == 0 || n < |stream|) && n <= |hits| && PositionAfter(cfg, stream, hits, n).Some?
  {
    if n == 0 then []
    else
      var q := HostQuoteOf(cfg, stream[n - 1], PositionAfter(cfg, stream, hits, n - 1).value).value;
      RunEvents(cfg, stream, hits, n - 1) + TickEvents(q, hits[n - 1], stream[n - 1], stream[n])
  }

  /** The fees of the first n ticks. */
  function RunFees(cfg: MMConfig, feeBps: real, stream: seq<Tick>, hits: seq<Hits>, n: nat): real
    requires (n == 0 || n < |stream|) && n <= |hits| && PositionAfter(cfg, stream, hits, n).Some?
  {
    if n == 0 then 0.0
    else
      var q := HostQuoteOf(cfg, stream[n - 1], PositionAfter(cfg, stream, hits, n - 1).value).value;
      RunFees(cfg, feeBps, stream, hits, n - 1) + BidFee(q, hits[n - 1], feeBps) + AskFee(q, hits[n - 1], feeBps)
  }

  function TickFills(q: HostQuote, h: Hits): nat { |BidEvents(q, h)| + |AskEvents(q, h)| }

  /** The fills of the first n ticks. */
  function RunFills(cfg: MMConfig, stream: seq<Tick>, hits: seq<Hits>, n: nat): nat
    requires (n == 0 || n < |stream|) && n <= |hits| && PositionAfter(cfg, stream, hits, n).Some?
  {
    if n == 0 then 0
    else
      var q := HostQuoteOf(cfg, stream[n - 1], PositionAfter(cfg, stream, hits, n - 1).value).value;
      RunFills(cfg, stream, hits, n - 1) + TickFills(q, hits[n - 1])
  }

  lemma BooksSnoc(step: (BookState, Event) -> BookState, events: seq<Event>, e: Event)
    ensures
      var l := Books(step, events);
      Books(step, events + [e]) == Put(l, e.symbol, step(Book(l, e.symbol), e))
  {
    assert (events + [e])[..|events|] == events;
  }

  /** The account shows exactly the books these events lead to. */
  ghost predicate Shows(pf: Portfolio, events: seq<Event>)
    requires pf.Indexed()
    reads pf`names, pf`books, pf.books.Values
  {
    pf.Accounts() == Books(BookStep, events)
  }

  method MarkSim(pf: Portfolio, ticks: int, ghost events: seq<Event>)
    requires pf.Valid() && Shows(pf, events)
    modifies pf, pf.books.Values
    ensures pf.Valid() && fresh(pf.books.Values - old(pf.books.Values))
    ensures Shows(pf, events + [Mark(SIM, Usd(ticks))])
  {
    BooksSnoc(BookStep, events, Mark(SIM, Usd(ticks)));
    pf.MarkPrice(SIM, ticks);
  }

  method FillSim(pf: Portfolio, buy: bool, size: int, ticks: int, ghost events: seq<Event>)
    requires pf.Valid() && Shows(pf, events)
    modifies pf, pf.books.Values
    ensures pf.Valid() && fresh(pf.books.Values - old(pf.books.Values))
    ensures Shows(pf, events + [Event.Trade(SIM, 0, SignedSize(buy, size) as real, Usd(ticks))])
  {
    BooksSnoc(BookStep, events, Event.Trade(SIM, 0, SignedSize(buy, size) as real, Usd(ticks)));
    var ok := pf.OnFill(SIM, buy, size, ticks, None, None);
  }

  /** The resting bid, when hit, buys at its own price; the fee is charged beside the account. */
  method TradeBid(pf: Portfolio, q: HostQuote, h: Hits, feeBps: real, ghost events: seq<Event>)
    returns (fee: real, filled: nat)
    requires pf.Valid() && Shows(pf, events)
    modifies pf, pf.books.Values
    ensures pf.Valid() && fresh(pf.books.Values - old(pf.books.Values))
    ensures Shows(pf, events + BidEvents(q, h)) && fee == BidFee(q, h, feeBps) && filled == |BidEvents(q, h)|
  {
    if q.bidSize != 0 && q.bidPrice != 0 && h.bid {
      FillSim(pf, true, q.bidSize, q.bidPrice, events);
      fee, filled := FeeOf(None, feeBps, Usd(q.bidPrice), q.bidSize), 1;
    } else {
      fee, filled := 0.0, 0;
      assert events + BidEvents(q, h) == events;
    }
  }

  method TradeAsk(pf: Portfolio, q: HostQuote, h: Hits, feeBps: real, ghost events: seq<Event>)
    returns (fee: real, filled: nat)
    requires pf.Valid() && Shows(pf, events)
    modifies pf, pf.books.Values
    ensures pf.Valid() && fresh(pf.books.Values - old(pf.books.Values))
    ensures Shows(pf, events + AskEvents(q, h)) && fee == AskFee(q, h, feeBps) && filled == |AskEvents(q, h)|
  {
    if q.askSize != 0 && q.askPrice != 0 && h.ask {
      FillSim(pf, false, q.askSize, q.askPrice, events);
      fee, filled := FeeOf(None, feeBps, Usd(q.askPrice), q.askSize), 1;
    } else {
      fee, filled := 0.0, 0;
      assert events + AskEvents(q, h) == events;
    }
  }

  lemma CountTick(q: HostQuote, h: Hits)
    ensures TickFills(q, h) == |BidEvents(q, h)| + |AskEvents(q, h)|
  {
  }

  lemma TickInOrder(events: seq<Event>, q: HostQuote, h: Hits, t: Tick, next: Tick)
    ensures
      events + [Mark(SIM, Usd(Mid(t)))] + BidEvents(q, h) + AskEvents(q, h) + [Mark(SIM, Usd(Mid(next)))] ==
        events + TickEvents(q, h, t, next)
  {
  }

  /** One tick's fills at the quoted prices, then the mark to the next mid. */
  method TradeTick(pf: Portfolio, q: HostQuote, h: Hits, t: Tick, next: Tick, feeBps: real, ghost events: seq<Event>)
    returns (fees: real, fills: nat)
    requires pf.Valid() && Shows(pf, events + [Mark(SIM, Usd(Mid(t)))])
    modifies pf, pf.books.Values
    ensures pf.Valid() && fresh(pf.books.Values - old(pf.books.Values))
    ensures Shows(pf, events + TickEvents(q, h, t, next)) && fees == BidFee(q, h, feeBps) + AskFee(q, h, feeBps)
    ensures fills == TickFills(q, h)
  {
    hide *;
    CountTick(q, h);
    ghost var marked := events + [Mark(SIM, Usd(Mid(t)))];
    var bidFee, bidFills := TradeBid(pf, q, h, feeBps, marked);
    var askFee, askFills := TradeAsk(pf, q, h, feeBps, marked + BidEvents(q, h));
    MarkSim(pf, Mid(next), marked + BidEvents(q, h) + AskEvents(q, h));
    TickInOrder(events, q, h, t, next);
    fees, fills := bidFee + askFee, bidFills + askFills;
  }

  /** The figure plotted after n ticks: equity less fees. */
  ghost function NetAfter(cfg: MMConfig, feeBps: real, stream: seq<Tick>, hits: seq<Hits>, n: nat): real
    requires (n == 0 || n < |stream|) && n <= |hits| && PositionAfter(cfg, stream, hits, n).Some?
  {
    Equity(Books(BookStep, RunEvents(cfg, stream, hits, n))) - RunFees(cfg, feeBps, stream, hits, n)
  }

  // ---- position, events and the account agree ------------------------------------------------------

  predicate OnlySim(events: seq<Event>) { forall e <- events :: e.symbol == SIM && !e.Reconcile? }

  lemma {:induction false} AllOnSim(events: seq<Event>)
    requires forall e <- events :: e.symbol == SIM
    ensures On(events, SIM) == events
  {
    if events != [] {
      AllOnSim(events[..|events| - 1]);
    }
  }

  lemma {:induction false} FlowConcat(moves: Event -> real, a: seq<Event>, b: seq<Event>)
    ensures Flow(moves, a + b) == Flow(moves, a) + Flow(moves, b)
  {
    if b == [] {
      assert a + b == a;
    } else {
      FlowConcat(moves, a, b[..|b| - 1]);
      assert (a + b)[..|a + b| - 1] == a + b[..|b| - 1];
    }
  }

  lemma NoFlow(moves: Event -> real)
    ensures Flow(moves, []) == 0.0
  {
  }

  lemma TickFlow(q: HostQuote, h: Hits, t: Tick, next: Tick)
    ensures OnlySim(TickEvents(q, h, t, next))
    ensures Flow(SharesOf, TickEvents(q, h, t, next)) == (Bought(q, h) - Sold(q, h)) as real
  {
    var mark, bids, asks := [Mark(SIM, Usd(Mid(t)))], BidEvents(q, h), AskEvents(q, h);
    FlowConcat(SharesOf, mark + bids + asks, [Mark(SIM, Usd(Mid(next)))]);
    FlowConcat(SharesOf, mark + bids, asks);
    FlowConcat(SharesOf, mark, bids);
  }

  lemma {:induction false} EventsMovePosition(cfg: MMConfig, stream: seq<Tick>, hits: seq<Hits>, n: nat)
    requires (n == 0 || n < |stream|) && n <= |hits| && PositionAfter(cfg, stream, hits, n).Some?
    ensures
      var events := RunEvents(cfg, stream, hits, n);
      && OnlySim(events)
      && Flow(SharesOf, events) == PositionAfter(cfg, stream, hits, n).value as real
  {
    hide HostQuoteOf, TickEvents, Flow;
    if n == 0 {
      NoFlow(SharesOf);
    } else {
      EventsMovePosition(cfg, stream, hits, n - 1);
      var q := HostQuoteOf(cfg, stream[n - 1], PositionAfter(cfg, stream, hits, n - 1).value).value;
      var before, tick := RunEvents(cfg, stream, hits, n - 1), TickEvents(q, hits[n - 1], stream[n - 1], stream[n]);
      FlowConcat(SharesOf, before, tick);
      TickFlow(q, hits[n - 1], stream[n - 1], stream[n]);
    }
  }

  lemma PositionIsFlow(events: seq<Event>)
    requires OnlySim(events)
    ensures Shares(Book(Books(BookStep, events), SIM)) == Flow(SharesOf, events)
  {
    hide Books, Book, MovesBy, BookStep;
    AllOnSim(events);
    FiguresMove();
    BookFigure(BookStep, Shares, SharesOf, events, SIM);
  }

  /** The account's own position is the one the guard is reckoned with. */
  lemma {:induction false} AccountPosition(cfg: MMConfig, stream: seq<Tick>, hits: seq<Hits>, n: nat, mid: real)
    requires (n == 0 || n < |stream|) && n <= |hits| && PositionAfter(cfg, stream, hits, n).Some?
    ensures
      Shares(Book(Books(BookStep, RunEvents(cfg, stream, hits, n) + [Mark(SIM, mid)]), SIM)) ==
        PositionAfter(cfg, stream, hits, n).value as real
  {
    hide Books, Shares, Book;
    var events := RunEvents(cfg, stream, hits, n) + [Mark(SIM, mid)];
    EventsMovePosition(cfg, stream, hits, n);
    FlowConcat(SharesOf, RunEvents(cfg, stream, hits, n), [Mark(SIM, mid)]);
    PositionIsFlow(events);
  }

  lemma {:induction false} FillsConcat(a: seq<Event>, b: seq<Event>)
    ensures FillsIn(a + b) == FillsIn(a) + FillsIn(b)
  {
    if b == [] {
      assert a + b == a;
    } else {
      FillsConcat(a, b[..|b| - 1]);
      assert (a + b)[..|a + b| - 1] == a + b[..|b| - 1];
    }
  }

  lemma TickFillsIn(q: HostQuote, h: Hits, t: Tick, next: Tick)
    ensures |FillsIn(TickEvents(q, h, t, next))| == TickFills(q, h)
  {
    var mark, bids, asks := [Mark(SIM, Usd(Mid(t)))], BidEvents(q, h), AskEvents(q, h);
    FillsConcat(mark + bids + asks, [Mark(SIM, Usd(Mid(next)))]);
    FillsConcat(mark + bids, asks);
    FillsConcat(mark, bids);
  }

  /** The count reported is that of the fills booked. */
  lemma {:induction false} FillsAreBooked(cfg: MMConfig, stream: seq<Tick>, hits: seq<Hits>, n: nat)
    requires (n == 0 || n < |stream|) && n <= |hits| && PositionAfter(cfg, stream, hits, n).Some?
    ensures RunFills(cfg, stream, hits, n) == |FillsIn(RunEvents(cfg, stream, hits, n))|
  {
    hide HostQuoteOf, TickEvents, TickFills;
    if n > 0 {
      FillsAreBooked(cfg, stream, hits, n - 1);
      var q := HostQuoteOf(cfg, stream[n - 1], PositionAfter(cfg, stream, hits, n - 1).value).value;
      FillsConcat(RunEvents(cfg, stream, hits, n - 1), TickEvents(q, hits[n - 1], stream[n - 1], stream[n]));
      TickFillsIn(q, hits[n - 1], stream[n - 1], stream[n]);
    }
  }

  /** MAIN RESULT. The figure plotted after any tick is the cash the fills have moved, plus the holding at
      the mark, less the fees. */
  lemma NetIsCashHoldingFees(cfg: MMConfig, feeBps: real, stream: seq<Tick>, hits: seq<Hits>, n: nat)
    requires (n == 0 || n < |stream|) && n <= |hits| && PositionAfter(cfg, stream, hits, n).Some?
    ensures
      var events := RunEvents(cfg, stream, hits, n);
      NetAfter(cfg, feeBps, stream, hits, n) ==
        Flow(CashOf, events) + Total(Exposure, Books(BookStep, events)) - RunFees(cfg, feeBps, stream, hits, n)
  {
    EventsMovePosition(cfg, stream, hits, n);
    EquityIsCashPlusExposure(RunEvents(cfg, stream, hits, n));
  }

  ghost predicate PlottedAt(cfg: MMConfig, feeBps: real, stream: seq<Tick>, hits: seq<Hits>, n: nat, net: real) {
    && n < |stream| && n <= |hits| && PositionAfter(cfg, stream, hits, n).Some?
    && net == NetAfter(cfg, feeBps, stream, hits, n)
  }

  /** Each entry is the net figure after its tick. */
  ghost predicate Plotted(cfg: MMConfig, feeBps: real, stream: seq<Tick>, hits: seq<Hits>, curve: seq<real>) {
    forall k | 0 <= k < |curve| :: PlottedAt(cfg, feeBps, stream, hits, k + 1, curve[k])
  }

  lemma PlottedNext(cfg: MMConfig, feeBps: real, stream: seq<Tick>, hits: seq<Hits>, curve: seq<real>, net: real)
    requires Plotted(cfg, feeBps, stream, hits, curve) && PlottedAt(cfg, feeBps, stream, hits, |curve| + 1, net)
    ensures Plotted(cfg, feeBps, stream, hits, curve + [net])
  {
  }

  lemma NonePlotted(cfg: MMConfig, feeBps: real, stream: seq<Tick>, hits: seq<Hits>)
    ensures Plotted(cfg, feeBps, stream, hits, [])
  {
  }

  /** The ticks of a stream that are traded: all but the last. */
  function Ticks(stream: seq<Tick>): nat { if stream == [] then 0 else |stream| - 1 }

  /** Where the loop stands after n ticks: account, fees and fills are those of the run. */
  ghost predicate StandsAt(pf: Portfolio, cfg: MMConfig, feeBps: real, stream: seq<Tick>, hits: seq<Hits>, n: nat,
                           fees: real, fills: nat)
    requires pf.Indexed()
    reads pf`names, pf`books, pf.books.Values
  {
    && (n == 0 || n < |stream|) && n <= |hits| && PositionAfter(cfg, stream, hits, n).Some?
    && Shows(pf, RunEvents(cfg, stream, hits, n))
    && fees == RunFees(cfg, feeBps, stream, hits, n) && fills == RunFills(cfg, stream, hits, n)
  }

  /** The loop's tick i: mark, quote, fill, mark. */
  method RunTick(pf: Portfolio, mm: MarketMaker, feeBps: real, stream: seq<Tick>, hits: seq<Hits>, i: nat,
                 fees: real, fills: nat)
    returns (ok: bool, fees': real, fills': nat)
    requires i + 1 < |stream| && i < |hits| && pf.Valid() && StandsAt(pf, mm.cfg, feeBps, stream, hits, i, fees, fills)
    modifies pf, pf.books.Values
    ensures pf.Valid() && fresh(pf.books.Values - old(pf.books.Values))
    ensures ok == PositionAfter(mm.cfg, stream, hits, i + 1).Some?
    ensures ok ==> StandsAt(pf, mm.cfg, feeBps, stream, hits, i + 1, fees', fills')
  {
    hide Shows, Books, Book, TickEvents, BidFee, AskFee, TickFills, HostQuoteOf, Distinct, Watched;
    ghost var events := RunEvents(mm.cfg, stream, hits, i);
    MarkSim(pf, Mid(stream[i]), events);
    var p := HeldNow(pf, mm.cfg, stream, hits, i, Usd(Mid(stream[i])));
    var q := mm.GetQuote(stream[i], p);
    if q.None? {
      return false, fees, fills;
    }
    var tickFees, tickFills := TradeTick(pf, q.value, hits[i], stream[i], stream[i + 1], feeBps, events);
    ok, fees', fills' := true, fees + tickFees, fills + tickFills;
  }

  method HeldNow(pf: Portfolio, ghost cfg: MMConfig, ghost stream: seq<Tick>, ghost hits: seq<Hits>, ghost i: nat,
                 ghost mid: real)
    returns (p: int)
    requires (i == 0 || i < |stream|) && i <= |hits| && PositionAfter(cfg, stream, hits, i).Some?
    requires pf.Valid() && Shows(pf, RunEvents(cfg, stream, hits, i) + [Mark(SIM, mid)])
    ensures p == PositionAfter(cfg, stream, hits, i).value
  {
    hide Books, Book, RunEvents;
    AccountPosition(cfg, stream, hits, i, mid);
    p := pf.PositionOf(SIM);
  }

  method Plot(pf: Portfolio, ghost cfg: MMConfig, ghost feeBps: real, ghost stream: seq<Tick>, ghost hits: seq<Hits>,
              ghost n: nat, fees: real, ghost fills: nat)
    returns (net: real)
    requires n < |stream| && pf.Valid() && StandsAt(pf, cfg, feeBps, stream, hits, n, fees, fills)
    ensures PlottedAt(cfg, feeBps, stream, hits, n, net)
  {
    hide Books, Equity, RunEvents, RunFees, PositionAfter;
    var equity := pf.EquityNow();
    net := equity - fees;
  }

  /** The account the backtest starts from, with its default limits. */
  method NewAccount(ghost cfg: MMConfig, ghost feeBps: real, ghost stream: seq<Tick>, ghost hits: seq<Hits>)
    returns (pf: Portfolio)
    ensures pf.Valid() && fresh(pf) && pf.books == map[] && StandsAt(pf, cfg, feeBps, stream, hits, 0, 0.0, 0)
  {
    pf := new Portfolio(10000.0, 1.0);
  }

  /** The backtest. The draws that decide the fills are a parameter; ok is false when quoting raised. */
  method RunMaker(cfg: MMConfig, feeBps: real, stream: seq<Tick>, hits: seq<Hits>)
    returns (ok: bool, pf: Portfolio, curve: seq<real>, fees: real, fills: nat)
    requires |hits| >= Ticks(stream)
    ensures pf.Valid() && ok == PositionAfter(cfg, stream, hits, Ticks(stream)).Some?
    ensures ok ==>
      && StandsAt(pf, cfg, feeBps, stream, hits, Ticks(stream), fees, fills)
      && |curve| == Ticks(stream) && Plotted(cfg, feeBps, stream, hits, curve)
  {
    hide HostQuoteOf, BookStep, RunEvents, RunFees, RunFills, Plotted, PlottedAt, StandsAt, Distinct, Watched, Books;
    var mm := new MarketMaker(cfg);
    pf := NewAccount(cfg, feeBps, stream, hits);
    curve, fees, fills := [], 0.0, 0;
    NonePlotted(cfg, feeBps, stream, hits);
    var i := 0;
    while i < Ticks(stream)
      invariant 0 <= i <= Ticks(stream) && PositionAfter(cfg, stream, hits, i).Some?
      invariant pf.Valid() && fresh(pf) && fresh(pf.books.Values)
      invariant StandsAt(pf, cfg, feeBps, stream, hits, i, fees, fills)
      invariant |curve| == i && Plotted(cfg, feeBps, stream, hits, curve)
    {
      ok, fees, fills := RunTick(pf, mm, feeBps, stream, hits, i, fees, fills);
      if !ok {
        RaisedForGood(cfg, stream, hits, i + 1, Ticks(stream));
        return false, pf, curve, fees, fills;
      }
      var net := Plot(pf, cfg, feeBps, stream, hits, i + 1, fees, fills);
      PlottedNext(cfg, feeBps, stream, hits, curve, net);
      curve := curve + [net];
      i := i + 1;
    }
    ok := true;
  }

  lemma {:induction false} RaisedForGood(cfg: MMConfig, stream: seq<Tick>, hits: seq<Hits>, n: nat, m: nat)
    requires n <= m <= |stream| && m <= |hits| && PositionAfter(cfg, stream, hits, n).None?
    ensures PositionAfter(cfg, stream, hits, m).None?
  {
    if n < m {
      RaisedForGood(cfg, stream, hits, n, m - 1);
    }
  }
}
