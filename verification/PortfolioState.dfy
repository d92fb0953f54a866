/** The account as objects: symbol books updated in place behind a dictionary that keeps insertion order. */
module PortfolioState {
  import opened Messages
  import opened Accounting
  import opened Portfolios

  class SymbolBook {
    var pos: int
    var avgCost: real
    var realized: real
    var mark: real

    ghost function State(): BookState
      reads this
    {
      BookState(pos as real, avgCost, realized, mark)
    }

    constructor ()
      ensures State() == NO_BOOK && pos == 0
    {
      pos, avgCost, realized, mark := 0, 0.0, 0.0, 0.0;
    }

    function Unrealized(): (r: real)
      reads this
      ensures r == OpenProfit(State())
    {
      pos as real * (mark - avgCost)
    }

    /** The last mid; it also seeds the average of a flat book that has none. */
    method Remark(price: real)
      modifies `mark, `avgCost
      ensures pos == old(pos) && State() == Remarked(old(State()), price)
    {
      mark := price;
      if pos == 0 && avgCost == 0.0 {
        avgCost := mark;
      }
    }

    /** The broker's position, average and, when it has one, price. */
    method Align(pos: int, avgCostUsd: real, markUsd: Option<real>)
      modifies `pos, `avgCost, `mark
      ensures this.pos == pos && State() == Reconciled(old(State()), pos as real, avgCostUsd, markUsd)
    {
      this.pos := pos;
      avgCost := if pos != 0 then avgCostUsd else 0.0;
      if markUsd.Some? {
        mark := markUsd.value;
      } else if mark == 0.0 && avgCostUsd != 0.0 {
        mark := avgCostUsd;
      }
    }

    /** Opens, adds, closes or flips. */
    method Fill(qty: int, price: real)
      requires pos != 0 || qty != 0
      modifies `pos, `avgCost, `realized
      ensures pos == old(pos) + qty && State() == FilledBook(old(State()), qty as real, price)
    {
      ghost var p := AsPosition(State());
      FilledIsAverageCost(p, qty as real, price);
      if pos == 0 || (pos > 0) == (qty > 0) {
        AddOn(qty, price);
      } else {
        Close(qty, price);
      }
    }

    /** A fill, or nothing and false when it would divide by zero. */
    method Trade(qty: int, price: real) returns (ok: bool)
      modifies `pos, `avgCost, `realized
      ensures ok == !Raises(old(State()), qty as real) && State() == Traded(old(State()), qty as real, price)
      ensures pos == old(pos) + qty
    {
      ok := pos != 0 || qty != 0;
      if ok {
        Fill(qty, price);
      }
    }

    method AddOn(qty: int, price: real)
      requires (pos != 0 || qty != 0) && (pos == 0 || (pos > 0) == (qty > 0))
      modifies `pos, `avgCost
      ensures pos == old(pos) + qty && AsPosition(State()) == AverageCost(old(AsPosition(State())), qty as real, price)
    {
      AddsAbs(AsPosition(State()), qty as real, price);
      var newPos := pos + qty;
      avgCost := (avgCost * AbsR(pos as real) + price * AbsR(qty as real)) / AbsR(newPos as real);
      pos := newPos;
    }

    method Close(qty: int, price: real)
      requires pos != 0 && (pos > 0) != (qty > 0)
      modifies `pos, `avgCost, `realized
      ensures pos == old(pos) + qty && AsPosition(State()) == AverageCost(old(AsPosition(State())), qty as real, price)
    {
      hide AverageCost, Closing, Gain;
      ghost var p := AsPosition(State());
      ClosesSigned(p, qty as real, price);
      var closing := MinR(AbsR(qty as real), AbsR(pos as real));
      var long := pos > 0;
      GainSigned(price - avgCost, closing, long);
      realized := realized + (price - avgCost) * closing * (if long then 1.0 else -1.0);
      pos := pos + qty;
      assert pos as real == p.qty + qty as real;
      if pos == 0 {
        avgCost := 0.0;
      } else if (pos > 0) != long {
        avgCost := price;
      }
    }
  }

  // ---- a dictionary in insertion order ------------------------------------------------------------

  function ListOf(names: seq<string>, states: map<string, BookState>): Ledger
    requires forall s <- names :: s in states
  {
    if names == [] then Empty else Open(names[0], states[names[0]], ListOf(names[1..], states))
  }

  ghost predicate Distinct(names: seq<string>) { forall j, k | 0 <= j < k < |names| :: names[j] != names[k] }

  lemma {:induction false} ListLooksUp(names: seq<string>, states: map<string, BookState>, symbol: string)
    requires forall s <- names :: s in states
    ensures Book(ListOf(names, states), symbol) == if symbol in names then states[symbol] else NO_BOOK
  {
    if names != [] {
      ListLooksUp(names[1..], states, symbol);
    }
  }

  lemma {:induction false} ListUnaffected(names: seq<string>, states: map<string, BookState>, symbol: string,
                                         b: BookState)
    requires (forall s <- names :: s in states) && symbol !in names
    ensures ListOf(names, states[symbol := b]) == ListOf(names, states)
  {
    if names != [] {
      ListUnaffected(names[1..], states, symbol, b);
    }
  }

  lemma {:induction false} ListReplaces(names: seq<string>, states: map<string, BookState>, symbol: string,
                                       b: BookState)
    requires (forall s <- names :: s in states) && Distinct(names) && symbol in names
    ensures ListOf(names, states[symbol := b]) == Put(ListOf(names, states), symbol, b)
  {
    if names[0] == symbol {
      ListUnaffected(names[1..], states, symbol, b);
    } else {
      ListReplaces(names[1..], states, symbol, b);
    }
  }

  lemma {:induction false} ListAppends(names: seq<string>, states: map<string, BookState>, symbol: string, b: BookState)
    requires (forall s <- names :: s in states) && symbol !in names
    ensures ListOf(names + [symbol], states[symbol := b]) == Put(ListOf(names, states), symbol, b)
  {
    if names == [] {
      assert names + [symbol] == [symbol];
    } else {
      ListAppends(names[1..], states, symbol, b);
      assert (names + [symbol])[1..] == names[1..] + [symbol];
    }
  }

  lemma {:induction false} PutAgain(l: Ledger, symbol: string, b: BookState, b': BookState)
    ensures Put(Put(l, symbol, b), symbol, b') == Put(l, symbol, b')
  {
    if l.Open? {
      PutAgain(l.rest, symbol, b, b');
    }
  }

  // ---- the account --------------------------------------------------------------------------------

  class Portfolio {
    const lossLimit: real
    const feeBps: real
    var names: seq<string>
    var books: map<string, SymbolBook>
    var fees: real
    var halted: bool
    var haltReason: Option<Reason>
    var peakEquity: real
    var equityCurve: seq<real>
    var realizedCurve: seq<real>
    var trades: seq<Ticket>

    /** Every name has its own book. */
    ghost predicate Indexed()
      reads `names, `books
    {
      && Distinct(names) && (forall s :: s in names <==> s in books)
      && (forall s, t | s in books && t in books :: books[s] == books[t] ==> s == t)
    }

    /** The switch is what the recorded equities make it. */
    ghost predicate Valid()
      reads this
    {
      Indexed() && Watch(halted, haltReason, peakEquity) == Watched(lossLimit, equityCurve)
    }

    ghost function States(): map<string, BookState>
      reads `books, books.Values
    {
      map s | s in books :: books[s].State()
    }

    ghost function Accounts(): Ledger
      requires Indexed()
      reads `names, `books, books.Values
    {
      ListOf(names, States())
    }

    /** What the account shows when the book of one symbol, and no other, has changed. */
    twostate lemma OneChanged(symbol: string)
      requires old(Indexed()) && names == old(names) && books == old(books) && symbol in books
      requires forall s | s in books && s != symbol :: unchanged(books[s])
      ensures Indexed() && Accounts() == Put(old(Accounts()), symbol, books[symbol].State())
    {
      assert States() == old(States())[symbol := books[symbol].State()];
      ListReplaces(names, old(States()), symbol, books[symbol].State());
    }

    constructor (lossLimit: real, feeBps: real)
      ensures Valid() && AddsUp(trades, Accounts()) && Accounts() == Empty && books == map[]
      ensures fees == 0.0 && equityCurve == []
      ensures this.lossLimit == lossLimit && this.feeBps == feeBps
    {
      this.lossLimit, this.feeBps := lossLimit, feeBps;
      names, books, fees := [], map[], 0.0;
      halted, haltReason, peakEquity := false, None, 0.0;
      equityCurve, realizedCurve, trades := [], [], [];
    }

    /** The book of a symbol, opened empty when there is none. */
    method BookOf(symbol: string) returns (b: SymbolBook)
      requires Valid()
      modifies `names, `books
      ensures Valid() && symbol in books && books[symbol] == b && books.Keys == old(books.Keys) + {symbol}
      ensures forall s | s in old(books) :: books[s] == old(books[s])
      ensures symbol in old(books) || fresh(b)
      ensures b.State() == Book(old(Accounts()), symbol)
      ensures Accounts() == Put(old(Accounts()), symbol, b.State())
    {
      ListLooksUp(names, States(), symbol);
      if symbol in books {
        b := books[symbol];
        ListReplaces(names, States(), symbol, b.State());
        assert States()[symbol := b.State()] == States();
      } else {
        b := OpenBook(symbol);
      }
    }

    method OpenBook(symbol: string) returns (b: SymbolBook)
      requires Indexed() && symbol !in books
      modifies `names, `books
      ensures fresh(b) && books == old(books)[symbol := b] && Indexed()
      ensures b.State() == NO_BOOK && Accounts() == Put(old(Accounts()), symbol, NO_BOOK)
    {
      hide ListOf, Put;
      ghost var states := States();
      b := new SymbolBook();
      ListAppends(names, states, symbol, b.State());
      names, books := names + [symbol], books[symbol := b];
      assert States() == states[symbol := b.State()];
    }

    /** Sums over the books in insertion order. */
    method RealizedTotal() returns (r: real)
      requires Valid()
      ensures r == Total(Realized, Accounts())
    {
      r := 0.0;
      var k := |names|;
      while k > 0
        invariant 0 <= k <= |names| && r == Total(Realized, ListOf(names[k..], States()))
      {
        k := k - 1;
        assert names[k..][1..] == names[k + 1..];
        r := books[names[k]].realized + r;
      }
      assert names[0..] == names;
    }

    method UnrealizedTotal() returns (r: real)
      requires Valid()
      ensures r == Total(OpenProfit, Accounts())
    {
      r := 0.0;
      var k := |names|;
      while k > 0
        invariant 0 <= k <= |names| && r == Total(OpenProfit, ListOf(names[k..], States()))
      {
        k := k - 1;
        assert names[k..][1..] == names[k + 1..];
        var u := books[names[k]].Unrealized();
        r := u + r;
      }
      assert names[0..] == names;
    }

    method EquityNow() returns (r: real)
      requires Valid()
      ensures r == Equity(Accounts())
    {
      var realized := RealizedTotal();
      var open := UnrealizedTotal();
      r := realized + open;
    }

    /** Records the mid price of a symbol. */
    method MarkPrice(symbol: string, midTicks: int)
      requires Valid()
      modifies `names, `books, books.Values
      ensures Valid() && fresh(books.Values - old(books.Values))
      ensures Accounts() == Put(old(Accounts()), symbol, Remarked(Book(old(Accounts()), symbol), Usd(midTicks)))
      ensures old(AddsUp(trades, Accounts())) ==> AddsUp(trades, Accounts())
    {
      ghost var before := Accounts();
      var b := BookOf(symbol);
      ghost var b0 := b.State();
      label L:
      b.Remark(Usd(midTicks));
      OneChanged@L(symbol);
      PutAgain(before, symbol, b0, b.State());
      QuietAddsUp(trades, before, symbol, b.State());
    }

    /** The signed shares held of a symbol, zero when it has no book. */
    method PositionOf(symbol: string) returns (p: int)
      requires Valid()
      ensures p as real == Book(Accounts(), symbol).pos
    {
      ListLooksUp(names, States(), symbol);
      p := if symbol in books then books[symbol].pos else 0;
    }

    /** Aligns a book with the broker's position. */
    method SetPosition(symbol: string, pos: int, avgCostUsd: real, markUsd: Option<real>)
      requires Valid()
      modifies `names, `books, books.Values
      ensures Valid() && fresh(books.Values - old(books.Values))
      ensures
        var b := Book(old(Accounts()), symbol);
        Accounts() == Put(old(Accounts()), symbol, Reconciled(b, pos as real, avgCostUsd, markUsd))
      ensures old(AddsUp(trades, Accounts())) ==> AddsUp(trades, Accounts())
    {
      ghost var before := Accounts();
      var b := BookOf(symbol);
      ghost var b0 := b.State();
      label L:
      b.Align(pos, avgCostUsd, markUsd);
      OneChanged@L(symbol);
      PutAgain(before, symbol, b0, b.State());
      QuietAddsUp(trades, before, symbol, b.State());
    }

    /** Books a fill and its fee, checks the switch, records equity and realized profit, and logs the trade;
        false when the average of an empty fill on a flat book would divide by zero. */
    method OnFill(symbol: string, buy: bool, size: int, priceTicks: int, fee: Option<real>, askedTicks: Option<int>)
      returns (ok: bool)
      requires Valid()
      modifies this, books.Values
      ensures Valid() && fresh(books.Values - old(books.Values))
      ensures
        var b, qty := Book(old(Accounts()), symbol), SignedSize(buy, size) as real;
        ok == !Raises(b, qty) && Accounts() == Put(old(Accounts()), symbol, Traded(b, qty, Usd(priceTicks)))
      ensures ok ==> equityCurve == old(equityCurve) + [Equity(Accounts())]
      ensures ok ==> realizedCurve == old(realizedCurve) + [Total(Realized, Accounts())]
      ensures ok ==> fees == old(fees) + FeeOf(fee, feeBps, Usd(priceTicks), size)
      ensures ok ==>
        var b, price := Book(old(Accounts()), symbol), Usd(priceTicks);
        trades == old(trades) +
          [Ticket(symbol, buy, size, price, ProfitBooked(b, Traded(b, SignedSize(buy, size) as real, price)),
                  FeeOf(fee, feeBps, price, size), Slippage(buy, size, price, UsdOption(askedTicks)))]
      ensures !ok ==> unchanged(`equityCurve, `realizedCurve, `trades, `halted, `haltReason, `peakEquity, `fees)
      ensures ok ==>
        trades != [] && Total(Realized, Accounts()) == old(Total(Realized, Accounts())) + trades[|trades| - 1].pnl
      ensures old(AddsUp(trades, Accounts())) ==> AddsUp(trades, Accounts())
    {
      hide Traded, Put, Book, Total, Raises, ProfitBooked, FeeOf, Slippage, Profits, SumR, Equity, SignedSize, ListOf;
      var charge := Fee(fee, Usd(priceTicks), size);
      var pnl;
      ok, pnl := Settle(symbol, SignedSize(buy, size), Usd(priceTicks), charge);
      if ok {
        var slip := Slippage(buy, size, Usd(priceTicks), UsdOption(askedTicks));
        Log(Ticket(symbol, buy, size, Usd(priceTicks), pnl, charge, slip));
      }
    }

    method Log(t: Ticket)
      requires Valid()
      modifies `trades
      ensures Valid() && trades == old(trades) + [t] && SumR(Profits(trades)) == old(SumR(Profits(trades))) + t.pnl
    {
      ProfitsSnoc(trades, t);
      trades := trades + [t];
    }

    method Settle(symbol: string, qty: int, price: real, charge: real) returns (ok: bool, pnl: real)
      requires Valid()
      modifies `names, `books, `fees, `halted, `haltReason, `peakEquity, `equityCurve, `realizedCurve, books.Values
      ensures Valid() && fresh(books.Values - old(books.Values))
      ensures
        var b := Book(old(Accounts()), symbol);
        && ok == !Raises(b, qty as real) && Accounts() == Put(old(Accounts()), symbol, Traded(b, qty as real, price))
        && pnl == ProfitBooked(b, Traded(b, qty as real, price))
      ensures ok ==> equityCurve == old(equityCurve) + [Equity(Accounts())] && fees == old(fees) + charge
      ensures ok ==> realizedCurve == old(realizedCurve) + [Total(Realized, Accounts())]
      ensures !ok ==> unchanged(`equityCurve, `realizedCurve, `halted, `haltReason, `peakEquity, `fees)
      ensures Total(Realized, Accounts()) == old(Total(Realized, Accounts())) + pnl && (ok || pnl == 0.0)
    {
      hide *;
      ok, pnl := BookFill(symbol, qty, price);
      if ok {
        Charge(charge);
        var eq := EquityNow();
        Check(eq);
        var realized := RealizedTotal();
        RecordRealized(realized);
      }
    }

    method Charge(charge: real)
      requires Valid()
      modifies `fees
      ensures Valid() && fees == old(fees) + charge
    {
      fees := fees + charge;
    }

    method RecordRealized(realized: real)
      requires Valid()
      modifies `realizedCurve
      ensures Valid() && realizedCurve == old(realizedCurve) + [realized]
    {
      realizedCurve := realizedCurve + [realized];
    }

    method BookFill(symbol: string, qty: int, price: real) returns (ok: bool, pnl: real)
      requires Valid()
      modifies `names, `books, books.Values
      ensures Valid() && fresh(books.Values - old(books.Values))
      ensures
        var b := Book(old(Accounts()), symbol);
        && ok == !Raises(b, qty as real) && Accounts() == Put(old(Accounts()), symbol, Traded(b, qty as real, price))
        && pnl == ProfitBooked(b, Traded(b, qty as real, price))
      ensures Total(Realized, Accounts()) == old(Total(Realized, Accounts())) + pnl && (ok || pnl == 0.0)
    {
      hide Traded, Put, Book, Total;
      ghost var before := Accounts();
      var b := BookOf(symbol);
      ghost var b0 := b.State();
      var realizedBefore := b.realized;
      label L:
      ok := b.Trade(qty, price);
      pnl := b.realized - realizedBefore;
      assert pnl == ProfitBooked(b0, b.State());
      OneChanged@L(symbol);
      PutAgain(before, symbol, b0, b.State());
      RealizedPut(before, symbol, b.State());
      if !ok { RaisedBooksNothing(b0, qty as real, price); }
    }

    method Fee(fee: Option<real>, price: real, size: int) returns (r: real)
      ensures r == FeeOf(fee, feeBps, price, size)
    {
      r := if fee.Some? then fee.value else feeBps / 10000.0 * price * size as real;
    }

    /** The kill switch, then the equity curve. */
    method Check(eq: real)
      requires Valid()
      modifies `halted, `haltReason, `peakEquity, `equityCurve
      ensures Valid() && equityCurve == old(equityCurve) + [eq]
    {
      hide Watched, Distinct;
      WatchedSnoc(lossLimit, equityCurve, eq);
      peakEquity := MaxR(peakEquity, eq);
      var drawdown := peakEquity - eq;
      if eq <= 0.0 - lossLimit {
        halted, haltReason := true, Some(DailyLoss);
      } else if drawdown >= lossLimit {
        halted, haltReason := true, Some(Drawdown);
      }
      equityCurve := equityCurve + [eq];
    }
  }
}
