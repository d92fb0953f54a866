/** What the account's figures mean, in plain terms: sides, slippage and fees of a fill, marks, and the reason
    the kill switch gives. */
module PortfolioShape {
  import opened Messages
  import opened Accounting
  import opened Portfolios

  /** A buy adds its size to the position of its symbol and a sale takes it away. */
  lemma FillMoves(b: BookState, buy: bool, size: int, price: real)
    ensures
      Traded(b, SignedSize(buy, size) as real, price).pos == b.pos + if buy then size as real else 0.0 - size as real
  {
  }

  /** MAIN RESULT. Slippage is what the fill cost beyond the price asked for: the price difference on every share,
      positive exactly when a buy paid more or a sale got less. */
  lemma SlippageIs(buy: bool, size: int, price: real, asked: real)
    requires size > 0
    ensures Slippage(buy, size, price, None).None?
    ensures
      var s := Slippage(buy, size, price, Some(asked));
      && s.Some? && AbsR(s.value) == AbsR(price - asked) * size as real
      && (s.value > 0.0 <==> if buy then price > asked else price < asked)
  {
    var n := size as real;
    SignOf(price - asked, n);
    SignOf(asked - price, n);
  }

  lemma SignOf(x: real, n: real)
    requires n > 0.0
    ensures (x * n > 0.0 <==> x > 0.0) && AbsR(x * n) == AbsR(x) * n
  {
  }

  /** The fee is the broker's when known, else so many ten-thousandths of what was traded. */
  lemma FeeIs(feeBps: real, price: real, size: int, broker: real)
    ensures FeeOf(Some(broker), feeBps, price, size) == broker
    ensures FeeOf(None, feeBps, price, size) * 10000.0 == feeBps * (price * size as real)
    ensures Usd(10000 * size) == size as real
  {
  }

  /** The last mid recorded for a symbol, zero when there is none. */
  function LastMid(events: seq<Event>, symbol: string): real {
    if events == [] then 0.0
    else
      var e := events[|events| - 1];
      if e.Mark? && e.symbol == symbol then e.mid else LastMid(events[..|events| - 1], symbol)
  }

  /** MAIN RESULT. Whatever is traded, each symbol is marked at the last mid recorded for it, and at no other's. */
  lemma {:induction false} MarkIsLastMid(events: seq<Event>, symbol: string)
    requires NoReconciliation(events)
    ensures Book(Books(BookStep, events), symbol).mark == LastMid(events, symbol)
  {
    hide BookStep;
    if events != [] {
      var before, e := events[..|events| - 1], events[|events| - 1];
      var l := Books(BookStep, before);
      MarkIsLastMid(before, symbol);
      BookPut(l, e.symbol, BookStep(Book(l, e.symbol), e), symbol);
      MarkOfStep(Book(l, e.symbol), e);
    }
  }

  lemma MarkOfStep(b: BookState, e: Event)
    requires !e.Reconcile?
    ensures BookStep(b, e).mark == if e.Mark? then e.mid else b.mark
  {
  }

  /** Aligning with the broker takes over its position, keeps what was earned, gives a flat book no average, and
      marks at the broker's mark when it has one. */
  lemma ReconcileIs(b: BookState, pos: real, avg: real, mark: Option<real>)
    ensures
      var r := Reconciled(b, pos, avg, mark);
      && r.pos == pos && r.realized == b.realized && (pos == 0.0 ==> r.avg == 0.0) && (pos != 0.0 ==> r.avg == avg)
      && (mark.Some? ==> r.mark == mark.value) && (mark.None? && b.mark != 0.0 ==> r.mark == b.mark)
      && (mark.None? && b.mark == 0.0 && pos != 0.0 ==> OpenProfit(r) == 0.0 || avg == 0.0)
  {
  }

  // ---- why the switch tripped -------------------------------------------------------------------------

  /** The switch trips at the k-th fill. */
  predicate Trips(curve: seq<real>, limit: real, k: nat)
    requires k < |curve|
  {
    Drop(curve, k) >= limit
  }

  lemma {:induction false} BestAbove(curve: seq<real>, k: nat)
    requires k < |curve|
    ensures Best(curve) >= curve[k]
  {
    if k < |curve| - 1 {
      BestAbove(curve[..|curve| - 1], k);
    }
  }

  /** A check trips exactly at a drop of the limit, and says daily loss when the equity itself is that far under. */
  lemma CheckedTrips(curve: seq<real>, limit: real)
    requires curve != []
    ensures
      var last := |curve| - 1;
      var w, before := Watched(limit, curve), Watched(limit, curve[..last]);
      w.reason ==
        if !Trips(curve, limit, last) then before.reason
        else if curve[last] <= 0.0 - limit then Some(DailyLoss) else Some(Drawdown)
  {
    var last := |curve| - 1;
    HaltedIffDropped(limit, curve[..last]);
    assert curve[..last + 1] == curve;
  }

  /** MAIN RESULT. The reason shown is that of the last fill at which equity stood the limit or more below its best:
      daily loss when equity was at minus the limit or lower, drawdown otherwise; none before the first. */
  lemma {:induction false} ReasonIsLastTrip(curve: seq<real>, limit: real, k: nat)
    requires k < |curve| && Trips(curve, limit, k) && forall j: nat | k < j < |curve| :: !Trips(curve, limit, j)
    ensures
      Watched(limit, curve).reason == if curve[k] <= 0.0 - limit then Some(DailyLoss) else Some(Drawdown)
  {
    hide Drop;
    CheckedTrips(curve, limit);
    var before := curve[..|curve| - 1];
    if k < |before| {
      forall j: nat | j < |before| ensures Trips(before, limit, j) == Trips(curve, limit, j) {
        SameDrop(curve, j);
      }
      ReasonIsLastTrip(before, limit, k);
    }
  }

  lemma SameDrop(curve: seq<real>, j: nat)
    requires j + 1 < |curve|
    ensures Drop(curve[..|curve| - 1], j) == Drop(curve, j)
  {
    assert curve[..|curve| - 1][..j + 1] == curve[..j + 1];
  }

  lemma {:induction false} NoReasonBefore(curve: seq<real>, limit: real)
    requires forall j: nat | j < |curve| :: !Trips(curve, limit, j)
    ensures Watched(limit, curve).reason.None?
  {
    hide Drop;
    if curve != [] {
      var before := curve[..|curve| - 1];
      CheckedTrips(curve, limit);
      forall j: nat | j < |before| ensures !Trips(before, limit, j) {
        assert !Trips(curve, limit, j);
        SameDrop(curve, j);
      }
      NoReasonBefore(before, limit);
    }
  }
}
