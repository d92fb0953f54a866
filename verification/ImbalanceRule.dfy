/** The imbalance rule in plain arithmetic: what it decides on which eight sizes, and which way it leans. */
module ImbalanceRule {
  import opened Imbalance
  import B = Book

  /** A snapshot with these touch prices and four sizes on either side. */
  predicate Shows(s: B.Snapshot, b: seq<nat>, a: seq<nat>) { |b| == |a| == 4 && s.bidSizes == b && s.askSizes == a }

  lemma FourLanes(x: seq<nat>)
    requires |x| == 4
    ensures Weighted(x) == 4 * x[0] + 3 * x[1] + 2 * x[2] + x[3]
  {
    var y := x[1..];
    var z := y[1..];
    var last := z[1..];
    assert last[1..] == [] && Weighted(last) == x[3];
    assert Weighted(z) == 2 * x[2] + Weighted(last);
    assert Weighted(y) == 3 * x[1] + Weighted(z);
  }

  /** MAIN RESULT. On a valid book after a valid one, with the ask above the bid by at most 1000 ticks: BUY at the
      ask exactly when the weighted bid sizes are more than one and a half times the weighted ask sizes, SELL
      at a positive bid exactly when the reverse holds, otherwise nothing; the lot is 250 beyond four and a half
      times, 200 beyond three times, 100 below. */
  lemma RuleIs(prevValid: bool, s: B.Snapshot, b: seq<nat>, a: seq<nat>)
    requires Shows(s, b, a)
    ensures
      var wb, wa := 4 * b[0] + 3 * b[1] + 2 * b[2] + b[3], 4 * a[0] + 3 * a[1] + 2 * a[2] + a[3];
      var open := prevValid && s.valid && s.bidPrice < s.askPrice <= s.bidPrice + 1000;
      var d := Rule(prevValid, s);
      && (d.Some? && !d.value.sell <==> open && 2 * wb > 3 * wa)
      && (d.Some? && d.value.sell <==> open && 2 * wa > 3 * wb && s.bidPrice > 0)
      && (d.Some? && !d.value.sell ==>
            && d.value.price == s.askPrice
            && d.value.size == if 2 * wb > 9 * wa then 250 else if wb > 3 * wa then 200 else 100)
      && (d.Some? && d.value.sell ==>
            && d.value.price == s.bidPrice
            && d.value.size == if 2 * wa > 9 * wb then 250 else if wa > 3 * wb then 200 else 100)
  {
    FourLanes(b);
    FourLanes(a);
  }

  /** More bid size at any level keeps a BUY, at no smaller a lot, and never makes a SELL. */
  lemma MoreBids(prevValid: bool, s: B.Snapshot, s': B.Snapshot, b: seq<nat>, a: seq<nat>, b': seq<nat>)
    requires Shows(s, b, a) && Shows(s', b', a) && s' == s.(bidSizes := b')
    requires b'[0] >= b[0] && b'[1] >= b[1] && b'[2] >= b[2] && b'[3] >= b[3]
    ensures
      var d, d' := Rule(prevValid, s), Rule(prevValid, s');
      && (d.Some? && !d.value.sell ==> d'.Some? && !d'.value.sell && d'.value.size >= d.value.size)
      && (d'.Some? && d'.value.sell ==> d.Some? && d.value.sell && d'.value.size <= d.value.size)
  {
    RuleIs(prevValid, s, b, a);
    RuleIs(prevValid, s', b', a);
    hide Rule;
  }

  /** With the sizes of the two sides exchanged, a book with a positive bid is traded the other way, in the same
      lot. */
  lemma Mirrored(prevValid: bool, s: B.Snapshot, b: seq<nat>, a: seq<nat>)
    requires Shows(s, b, a) && s.bidPrice > 0
    ensures
      var d, d' := Rule(prevValid, s), Rule(prevValid, s.(bidSizes := a, askSizes := b));
      && (d.Some? <==> d'.Some?)
      && (d.Some? ==> d'.value.sell == !d.value.sell && d'.value.size == d.value.size
                      && {d.value.price, d'.value.price} == {s.bidPrice, s.askPrice})
  {
    RuleIs(prevValid, s, b, a);
    RuleIs(prevValid, s.(bidSizes := a, askSizes := b), a, b);
    hide Rule;
  }
}
