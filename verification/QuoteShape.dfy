/** The golden quotes in plain arithmetic: where the fair price lies, how far and which way a quote is moved by the
    order flow and by the inventory, and when a side is withheld. */
module QuoteShape {
  import opened Messages
  import opened Ofi
  import opened Quoting

  /** MAIN RESULT. The tilt is a quarter of the windowed flow, rounded down, and at most 150 ticks either way. */
  lemma TiltIs(flow: int)
    ensures
      var r := Tilt(flow);
      if flow < -600 then r == -150 else if flow > 603 then r == 150 else 4 * r <= flow < 4 * r + 4
  {
  }

  lemma TiltRises(x: int, y: int)
    requires x <= y
    ensures Tilt(x) <= Tilt(y)
  {
    TiltIs(x);
    TiltIs(y);
    hide Tilt;
  }

  /** The microprice divides the spread as the bid size divides the two sizes: a larger bid moves it to the ask. */
  lemma MicropriceIs(t: Top)
    requires t.bidPrice <= t.askPrice && t.bidSize + t.askSize > 0
    ensures Microprice(t) == t.bidPrice + (t.askPrice - t.bidPrice) * t.bidSize / (t.bidSize + t.askSize)
  {
    var den, part := t.bidSize + t.askSize, (t.askPrice - t.bidPrice) * t.bidSize;
    assert Numerator(t) == t.bidPrice * den + part;
    DivShift(t.bidPrice, part, den);
  }

  lemma QuotientIs(n: nat, d: nat, q: nat)
    requires d > 0 && q * d <= n < q * d + d
    ensures n / d == q
  {
    var p := n / d;
    assert (q + 1) * d == q * d + d;
    DivBetween(n, d, q, q + 1);
    assert n == p * d + n % d;
    assert p == q + 1 ==> p * d == q * d + d;
  }

  lemma DivShift(k: nat, x: nat, d: nat)
    requires d > 0
    ensures (k * d + x) / d == k + x / d
  {
    var q, r := x / d, x % d;
    assert x == q * d + r;
    ShiftedQuotient(k, q, r, d);
  }

  lemma ShiftedQuotient(k: nat, q: nat, r: nat, d: nat)
    requires r < d
    ensures (k * d + (q * d + r)) / d == k + q
  {
    assert (k + q) * d == k * d + q * d;
    QuotientIs(k * d + (q * d + r), d, k + q);
  }

  /** Both prices posted around a centre, with the inventory it is quoted at. */
  predicate Posts(q: Quote, centre: int, inventory: int) {
    && q.bidQty == (if inventory <= 900 then 100 else 0)
    && q.askQty == (if inventory >= -900 then 100 else 0)
    && q.bidPrice == (if inventory <= 900 && centre >= 200 then centre - 200 else 0)
    && q.askPrice == (if inventory >= -900 && centre >= -200 then centre + 200 else 0)
  }

  /** MAIN RESULT. A valid, uncrossed book with some size is quoted 100 shares on either side, 200 ticks below and
      above the microprice moved down by two ticks a share held and up by the tilt; the side that could take
      the position beyond 1000 is withheld, and a price below zero is not posted. */
  lemma QuoteIs(m: Market, tilt: int)
    ensures
      var t, quote := m.top, GoldenQuote(m, tilt);
      && (quote.Some? <==> m.valid && t.bidPrice < t.askPrice && t.bidSize + t.askSize > 0)
      && (quote.Some? ==>
            var micro := t.bidPrice + (t.askPrice - t.bidPrice) * t.bidSize / (t.bidSize + t.askSize);
            Posts(quote.value, micro - 2 * m.inventory + tilt, m.inventory))
  {
    if Quotable(m) { MicropriceIs(m.top); }
  }

  /** Quoted on the same book and inventory, a larger tilt never lowers a posted price. */
  lemma TiltLifts(m: Market, x: int, y: int)
    requires x <= y && GoldenQuote(m, x).Some?
    ensures GoldenQuote(m, y).Some?
    ensures
      var a, b := GoldenQuote(m, x).value, GoldenQuote(m, y).value;
      a.bidQty == b.bidQty && a.askQty == b.askQty && a.bidPrice <= b.bidPrice && a.askPrice <= b.askPrice
  {
    QuoteIs(m, x);
    QuoteIs(m, y);
    hide GoldenQuote;
  }

  /** More inventory never raises the bid, nor the ask where both are quoted. */
  lemma InventoryLowers(m: Market, m': Market, tilt: int)
    requires m'.valid == m.valid && m'.top == m.top && m.inventory <= m'.inventory && GoldenQuote(m, tilt).Some?
    ensures GoldenQuote(m', tilt).Some?
    ensures
      var a, b := GoldenQuote(m, tilt).value, GoldenQuote(m', tilt).value;
      b.bidPrice <= a.bidPrice && (a.askQty > 0 ==> b.askQty > 0 && b.askPrice <= a.askPrice)
  {
    QuoteIs(m, tilt);
    QuoteIs(m', tilt);
    hide GoldenQuote;
  }

  /** MAIN RESULT. The OFI maker leans with the flow: on the same book and inventory, after more buying pressure in its
      window it posts no lower price on either side; and it is the plain quote moved by that window's tilt. */
  lemma MakerLeans(g: Golden, g': Golden, m: Market)
    requires g.buf != [] && g'.buf != [] && MakerQuote(g, m).Some?
    requires Sum(MakerNext(g, m).buf) <= Sum(MakerNext(g', m).buf)
    ensures MakerQuote(g', m).Some?
    ensures
      var a, b := MakerQuote(g, m).value, MakerQuote(g', m).value;
      a.bidQty == b.bidQty && a.askQty == b.askQty && a.bidPrice <= b.bidPrice && a.askPrice <= b.askPrice
  {
    TiltRises(Sum(MakerNext(g, m).buf), Sum(MakerNext(g', m).buf));
    TiltLifts(m, Tilt(Sum(MakerNext(g, m).buf)), Tilt(Sum(MakerNext(g', m).buf)));
  }

  /** The maker's window: a book it quotes after another such book shifts in their flow, the oldest going out; a book it
      does not quote interrupts the flow and leaves the window. */
  lemma MakerWindow(g: Golden, m: Market)
    requires g.buf != []
    ensures
      var g', t := MakerNext(g, m), m.top;
      if !(m.valid && t.bidPrice < t.askPrice && t.bidSize + t.askSize > 0) then g'.prev.None? && g'.buf == g.buf
      else
        && g'.prev == Some(t)
        && g'.buf == if g.prev.None? then g.buf else g.buf[1..] + [Increment(g.prev.value, t)]
  {
  }

  /** The same in figures: from a flow of -600 to 603 the quote moves a quarter of the flow. */
  lemma MakerQuoteIs(g: Golden, m: Market, tilt: int)
    requires g.buf != [] && MakerQuote(g, m).Some?
    requires
      var flow := Sum(MakerNext(g, m).buf);
      if flow < -600 then tilt == -150 else if flow > 603 then tilt == 150 else 4 * tilt <= flow < 4 * tilt + 4
    ensures
      var t := m.top;
      && m.valid && t.bidPrice < t.askPrice && t.bidSize + t.askSize > 0
      && var micro := t.bidPrice + (t.askPrice - t.bidPrice) * t.bidSize / (t.bidSize + t.askSize);
         Posts(MakerQuote(g, m).value, micro - 2 * m.inventory + tilt, m.inventory)
  {
    TiltIs(Sum(MakerNext(g, m).buf));
    QuoteIs(m, tilt);
  }
}
