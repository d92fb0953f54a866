/** The host's quote and the backtest's fills in plain arithmetic. */
module MakerShape {
  import opened Messages
  import opened Accounting
  import opened Portfolios
  import opened PortfolioShape
  import opened Maker

  /** Rounding takes the nearest whole number, the even one of two. */
  lemma RoundIs(x: real)
    ensures
      var r := RoundHalfEven(x);
      -0.5 <= r as real - x <= 0.5 && (AbsR(r as real - x) == 0.5 ==> r % 2 == 0)
  {
  }

  /** Truncation drops the fraction, whatever the sign. */
  lemma TruncIs(x: real)
    ensures x >= 0.0 ==> 0.0 <= x - Trunc(x) as real < 1.0 && Trunc(x) >= 0
    ensures x < 0.0 ==> 0.0 <= Trunc(x) as real - x < 1.0 && Trunc(x) <= 0
  {
  }

  /** The fair price divides the spread as the bid size divides the sizes. */
  lemma FairIs(t: Tick)
    ensures t.bidSize + t.askSize <= 0 ==> Fair(t) * 2.0 == t.bidPrice as real + t.askPrice as real
    ensures t.bidSize + t.askSize > 0 ==>
      (Fair(t) - t.bidPrice as real) * (t.bidSize + t.askSize) as real ==
      ((t.askPrice - t.bidPrice) * t.bidSize) as real
  {
    var den := t.bidSize + t.askSize;
    if den > 0 {
      var num := t.bidPrice * t.askSize + t.askPrice * t.bidSize;
      assert num == t.bidPrice * den + (t.askPrice - t.bidPrice) * t.bidSize;
      CastProduct(t.bidPrice, den);
      Scaled(num as real, den as real, t.bidPrice as real);
    }
  }

  lemma Scaled(num: real, den: real, base: real)
    requires den > 0.0
    ensures (num / den - base) * den == num - base * den
  {
  }

  /** MAIN RESULT. A market thinner than asked for, locked or crossed is not quoted. Otherwise each side is posted in
      the configured size exactly when it cannot take the position past the cap; whole-tick quotes lie the half
      spread below and above the microprice less the skew for each share held, and the ask at least a tick
      above the bid. */
  lemma HostQuoteIs(cfg: MMConfig, t: Tick, inventory: int)
    requires HostQuoteOf(cfg, t, inventory).Some?
    ensures
      var q := HostQuoteOf(cfg, t, inventory).value;
      if t.bidSize < cfg.minBookSize || t.askSize < cfg.minBookSize || t.askPrice <= t.bidPrice
      then q == HostQuote(0, 0, 0, 0)
      else
        && q.bidSize == (if inventory + cfg.quoteSize <= cfg.maxPosition then cfg.quoteSize else 0)
        && q.askSize == (if inventory - cfg.quoteSize >= -cfg.maxPosition then cfg.quoteSize else 0)
        && (cfg.rtlExact ==>
              && t.bidSize + t.askSize > 0
              && var micro := t.bidPrice + (t.askPrice - t.bidPrice) * t.bidSize / (t.bidSize + t.askSize);
                 var bid := micro - inventory * Trunc(cfg.skew) - cfg.halfSpread;
                 && q.bidPrice == (if inventory + cfg.quoteSize <= cfg.maxPosition then bid else 0)
                 && q.askPrice ==
                      if inventory - cfg.quoteSize < -cfg.maxPosition then 0
                      else if cfg.halfSpread > 0 then bid + 2 * cfg.halfSpread else bid + 1)
  {
    if !Refuses(cfg, t) && cfg.rtlExact {
      var den, part := t.bidSize + t.askSize, (t.askPrice - t.bidPrice) * t.bidSize;
      assert t.bidPrice * t.askSize + t.askPrice * t.bidSize == t.bidPrice * den + part;
      IntDivShift(t.bidPrice, part, den);
    }
  }

  lemma IntDivShift(k: int, x: int, d: int)
    requires d > 0
    ensures (k * d + x) / d == k + x / d
  {
    FloorOfQuotient(k * d + x, d);
    FloorOfQuotient(x, d);
    CastProduct(k, d);
    SumOverD(k as real, x as real, d as real);
    assert ((k * d + x) as real / d as real) == k as real + x as real / d as real;
  }

  lemma SumOverD(k: real, x: real, d: real)
    requires d > 0.0
    ensures (k * d + x) / d == k + x / d
  {
  }

  /** The rounding path posts within half a tick of the skewed fair price, less and plus the half spread. */
  lemma RoundedQuoteIs(cfg: MMConfig, t: Tick, inventory: int)
    requires !cfg.rtlExact && t.bidSize >= 0 && t.askSize >= 0
    ensures RawQuote(cfg, t, inventory).Some?
    ensures
      var raw, centre := RawQuote(cfg, t, inventory).value, Fair(t) - inventory as real * cfg.skew;
      && -0.5 <= raw.0 as real - (centre - cfg.halfSpread as real) <= 0.5
      && -0.5 <= raw.1 as real - (centre + cfg.halfSpread as real) <= 0.5
  {
    var centre := Fair(t) - inventory as real * cfg.skew;
    assert FairCentre(cfg, t, inventory) == centre by {
      hide Fair;
    }
    hide Fair, FairCentre, RoundHalfEven;
    RoundIs(centre - cfg.halfSpread as real);
    RoundIs(centre + cfg.halfSpread as real);
  }

  /** MAIN RESULT. In one tick of the backtest a hit bid buys its size at the bid price and a hit ask sells its size at
      the ask price; nothing else moves shares or cash, and the tick ends marked at the next mid. */
  lemma TickMoves(q: HostQuote, h: Hits, t: Tick, next: Tick)
    ensures
      var buys := if h.bid && q.bidSize != 0 && q.bidPrice != 0 then q.bidSize else 0;
      var sells := if h.ask && q.askSize != 0 && q.askPrice != 0 then q.askSize else 0;
      && Flow(SharesOf, TickEvents(q, h, t, next)) == buys as real - sells as real
      && Flow(CashOf, TickEvents(q, h, t, next)) ==
           sells as real * (q.askPrice as real / 10000.0) - buys as real * (q.bidPrice as real / 10000.0)
    ensures
      var events := TickEvents(q, h, t, next);
      && events != [] && events[0] == Event.Mark(SIM, Usd(Mid(t)))
      && events[|events| - 1] == Event.Mark(SIM, Usd(Mid(next)))
  {
    var bids, asks := BidEvents(q, h), AskEvents(q, h);
    var first, last := Event.Mark(SIM, Usd(Mid(t))), Event.Mark(SIM, Usd(Mid(next)));
    FlowOfTick(SharesOf, first, bids, asks, last);
    FlowOfTick(CashOf, first, bids, asks, last);
  }

  /** The fees of a tick are so many ten-thousandths of what its fills traded. */
  lemma TickFees(q: HostQuote, h: Hits, feeBps: real)
    ensures
      var buys := if h.bid && q.bidSize != 0 && q.bidPrice != 0 then q.bidSize else 0;
      BidFee(q, h, feeBps) * 10000.0 == feeBps * (q.bidPrice as real / 10000.0 * buys as real)
    ensures
      var sells := if h.ask && q.askSize != 0 && q.askPrice != 0 then q.askSize else 0;
      AskFee(q, h, feeBps) * 10000.0 == feeBps * (q.askPrice as real / 10000.0 * sells as real)
  {
    hide FeeOf;
    FeeIs(feeBps, Usd(q.bidPrice), q.bidSize, 0.0);
    FeeIs(feeBps, Usd(q.askPrice), q.askSize, 0.0);
  }

  lemma {:induction false} FlowConcat(moves: Event -> real, a: seq<Event>, b: seq<Event>)
    ensures Flow(moves, a + b) == Flow(moves, a) + Flow(moves, b)
  {
    if b == [] {
      assert a + b == a;
    } else {
      assert (a + b)[..|a + b| - 1] == a + b[..|b| - 1];
      FlowConcat(moves, a, b[..|b| - 1]);
    }
  }

  lemma FlowOfFew(moves: Event -> real, events: seq<Event>)
    requires |events| <= 1
    ensures Flow(moves, events) == if events != [] then moves(events[0]) else 0.0
  {
  }

  /** The moves of a tick are those of its at most two fills. */
  lemma FlowOfTick(moves: Event -> real, first: Event, bids: seq<Event>, asks: seq<Event>, last: Event)
    requires |bids| <= 1 && |asks| <= 1 && moves(first) == 0.0 && moves(last) == 0.0
    ensures Flow(moves, [first] + bids + asks + [last]) ==
            (if bids != [] then moves(bids[0]) else 0.0) + if asks != [] then moves(asks[0]) else 0.0
  {
    hide Flow;
    FlowOfFew(moves, [first]);
    FlowOfFew(moves, bids);
    FlowOfFew(moves, asks);
    FlowOfFew(moves, [last]);
    FlowConcat(moves, [first], bids);
    FlowConcat(moves, [first] + bids, asks);
    FlowConcat(moves, [first] + bids + asks, [last]);
  }
}
