/** The account: one average-cost book per symbol, marks, fees, recorded equity and the kill switch. */
module Portfolios {
  import opened Messages
  import opened Accounting

  /** One symbol's book. */
  datatype BookState = BookState(pos: real, avg: real, realized: real, mark: real)

  const NO_BOOK := BookState(0.0, 0.0, 0.0, 0.0)

  /** The books, in the order in which their symbols were first seen. */
  datatype Ledger = Empty | Open(symbol: string, book: BookState, rest: Ledger)

  function Usd(ticks: int): real { ticks as real / 10000.0 }

  function UsdOption(ticks: Option<int>): Option<real> { if ticks.None? then None else Some(Usd(ticks.value)) }

  function AsPosition(b: BookState): Position { Position(b.pos, b.avg, b.realized) }

  /** The book of a symbol; one not seen before would be opened empty. */
  function Book(l: Ledger, symbol: string): BookState {
    match l
    case Empty => NO_BOOK
    case Open(s, b, rest) => if s == symbol then b else Book(rest, symbol)
  }

  /** Replaces the book of a symbol, or opens it at the end. */
  function Put(l: Ledger, symbol: string, b: BookState): Ledger {
    match l
    case Empty => Open(symbol, b, Empty)
    case Open(s, b0, rest) => if s == symbol then Open(s, b, rest) else Open(s, b0, Put(rest, symbol, b))
  }

  lemma {:induction false} BookPut(l: Ledger, symbol: string, b: BookState, other: string)
    ensures Book(Put(l, symbol, b), other) == if other == symbol then b else Book(l, other)
  {
    if l.Open? {
      BookPut(l.rest, symbol, b, other);
    }
  }

  // ---- sums over the books -----------------------------------------------------------------------

  /** The sum of some figure over all books. */
  function Total(f: BookState -> real, l: Ledger): real {
    match l
    case Empty => 0.0
    case Open(_, b, rest) => f(b) + Total(f, rest)
  }

  function Realized(b: BookState): real { b.realized }
  function OpenProfit(b: BookState): real { Unrealized(AsPosition(b), b.mark) }
  function Exposure(b: BookState): real { b.pos * b.mark }
  function BookBalance(b: BookState): real { Balance(AsPosition(b)) }

  /** Booked and open profit together. */
  function Equity(l: Ledger): real { Total(Realized, l) + Total(OpenProfit, l) }

  lemma {:induction false} TotalPut(f: BookState -> real, l: Ledger, symbol: string, b: BookState)
    requires f(NO_BOOK) == 0.0
    ensures Total(f, Put(l, symbol, b)) == Total(f, l) - f(Book(l, symbol)) + f(b)
  {
    if l.Open? {
      TotalPut(f, l.rest, symbol, b);
    }
  }

  /** A change of one book moves the realized total by what it books. */
  lemma RealizedPut(l: Ledger, symbol: string, b: BookState)
    ensures Total(Realized, Put(l, symbol, b)) == Total(Realized, l) + ProfitBooked(Book(l, symbol), b)
  {
    TotalPut(Realized, l, symbol, b);
  }

  lemma {:induction false} TotalsSplit(f: BookState -> real, g: BookState -> real,
                                      h: BookState -> real, k: BookState -> real, l: Ledger)
    requires forall b :: f(b) + g(b) == h(b) + k(b)
    ensures Total(f, l) + Total(g, l) == Total(h, l) + Total(k, l)
  {
    if l.Open? {
      TotalsSplit(f, g, h, k, l.rest);
      assert f(l.book) + g(l.book) == h(l.book) + k(l.book);
    }
  }

  // ---- what each call does -----------------------------------------------------------------------

  ghost function FilledBook(b: BookState, signed: real, price: real): BookState
    requires b.pos != 0.0 || signed != 0.0
  {
    var p := Filled(AsPosition(b), signed, price);
    BookState(p.qty, p.avg, p.realized, b.mark)
  }

  /** A zero fill on a flat book divides by zero. */
  predicate Raises(b: BookState, signed: real) { signed == 0.0 && b.pos == 0.0 }

  ghost function Traded(b: BookState, signed: real, price: real): BookState {
    if Raises(b, signed) then b else FilledBook(b, signed, price)
  }

  function Remarked(b: BookState, mark: real): BookState {
    b.(mark := mark, avg := if b.pos == 0.0 && b.avg == 0.0 then mark else b.avg)
  }

  function Reconciled(b: BookState, pos: real, avg: real, mark: Option<real>): BookState {
    BookState(pos, if pos != 0.0 then avg else 0.0, b.realized,
              if mark.Some? then mark.value else if b.mark == 0.0 && avg != 0.0 then avg else b.mark)
  }

  function SignedSize(buy: bool, size: int): int { if buy then size else -size }

  /** The broker's fee when known, else the modelled one. */
  function FeeOf(fee: Option<real>, feeBps: real, price: real, size: int): real {
    if fee.Some? then fee.value else feeBps / 10000.0 * price * size as real
  }

  /** How much worse than asked for a fill was, in dollars; None when no price was asked for. */
  function Slippage(buy: bool, size: int, price: real, asked: Option<real>): Option<real> {
    if asked.None? then None
    else Some((if buy then price - asked.value else asked.value - price) * size as real)
  }

  /** One line of the trade log. */
  datatype Ticket = Ticket(symbol: string, buy: bool, size: int, price: real, pnl: real, fee: real, slip: Option<real>)

  /** The profit a change of one book books. */
  function ProfitBooked(before: BookState, after: BookState): real { after.realized - before.realized }

  datatype Event =
    | Mark(symbol: string, mid: real)
    | Trade(symbol: string, leg: nat, signed: real, price: real)
    | Reconcile(symbol: string, pos: real, avg: real, mark: Option<real>)

  /** What an event makes of its symbol's book. */
  ghost function BookStep(b: BookState, e: Event): BookState {
    match e
    case Mark(_, mid) => Remarked(b, mid)
    case Reconcile(_, pos, avg, mark) => Reconciled(b, pos, avg, mark)
    case Trade(_, _, signed, price) => Traded(b, signed, price)
  }

  /** The books after these events, under a rule for what an event makes of a book. */
  function Books(step: (BookState, Event) -> BookState, events: seq<Event>): Ledger {
    if events == [] then Empty
    else
      var l, e := Books(step, events[..|events| - 1]), events[|events| - 1];
      Put(l, e.symbol, step(Book(l, e.symbol), e))
  }

  // ---- conservation ------------------------------------------------------------------------------

  predicate NoReconciliation(events: seq<Event>) { forall e <- events :: !e.Reconcile? }

  function SharesOf(e: Event): real { if e.Trade? then e.signed else 0.0 }

  /** Cash one event moves: received less paid. */
  function CashOf(e: Event): real { if e.Trade? then 0.0 - e.signed * e.price else 0.0 }

  function Flow(moves: Event -> real, events: seq<Event>): real {
    if events == [] then 0.0 else Flow(moves, events[..|events| - 1]) + moves(events[|events| - 1])
  }

  ghost predicate MovesAt(step: (BookState, Event) -> BookState, f: BookState -> real, moves: Event -> real,
                          b: BookState, e: Event)
  {
    !e.Reconcile? ==> f(step(b, e)) == f(b) + moves(e)
  }

  /** A figure of a book that starts at zero and that each event moves alike, whatever the book. */
  ghost predicate MovesBy(step: (BookState, Event) -> BookState, f: BookState -> real, moves: Event -> real) {
    f(NO_BOOK) == 0.0 && (forall b, e :: MovesAt(step, f, moves, b, e))
  }

  lemma MovesOnce(step: (BookState, Event) -> BookState, f: BookState -> real, moves: Event -> real,
                  b: BookState, e: Event)
    requires MovesBy(step, f, moves) && !e.Reconcile?
    ensures f(NO_BOOK) == 0.0 && f(step(b, e)) == f(b) + moves(e)
  {
    assert MovesAt(step, f, moves, b, e);
  }

  lemma {:induction false} FigureAlong(step: (BookState, Event) -> BookState, f: BookState -> real,
                                      moves: Event -> real, events: seq<Event>)
    requires MovesBy(step, f, moves) && NoReconciliation(events)
    ensures Total(f, Books(step, events)) == Flow(moves, events)
  {
    if events != [] {
      var l, e := Books(step, events[..|events| - 1]), events[|events| - 1];
      FigureAlong(step, f, moves, events[..|events| - 1]);
      MovesOnce(step, f, moves, Book(l, e.symbol), e);
      TotalPut(f, l, e.symbol, step(Book(l, e.symbol), e));
    }
  }

  function Shares(b: BookState): real { b.pos }

  /** A fill moves its shares and cash in the book; a new mark moves none, though it may reseed the
      average of a flat book. */
  lemma BookConserves(b: BookState, e: Event)
    requires !e.Reconcile?
    ensures BookStep(b, e).pos == b.pos + SharesOf(e)
    ensures BookBalance(BookStep(b, e)) == BookBalance(b) + CashOf(e)
  {
  }

  lemma FiguresMoveAt(b: BookState, e: Event)
    ensures MovesAt(BookStep, Shares, SharesOf, b, e) && MovesAt(BookStep, BookBalance, CashOf, b, e)
  {
    if !e.Reconcile? {
      BookConserves(b, e);
    }
  }

  lemma FiguresMove()
    ensures MovesBy(BookStep, Shares, SharesOf) && MovesBy(BookStep, BookBalance, CashOf)
  {
    forall b, e ensures MovesAt(BookStep, Shares, SharesOf, b, e) && MovesAt(BookStep, BookBalance, CashOf, b, e) {
      FiguresMoveAt(b, e);
    }
  }

  lemma BalancesAreCash(events: seq<Event>)
    requires NoReconciliation(events)
    ensures Total(BookBalance, Books(BookStep, events)) == Flow(CashOf, events)
  {
    FiguresMove();
    FigureAlong(BookStep, BookBalance, CashOf, events);
  }

  lemma EveryBookSplits()
    ensures forall b :: Realized(b) + OpenProfit(b) == BookBalance(b) + Exposure(b)
  {
    forall b ensures Realized(b) + OpenProfit(b) == BookBalance(b) + Exposure(b) {
      WorthSplits(AsPosition(b), b.mark);
    }
  }

  lemma EquitySplits(l: Ledger)
    ensures Equity(l) == Total(BookBalance, l) + Total(Exposure, l)
  {
    EveryBookSplits();
    TotalsSplit(Realized, OpenProfit, BookBalance, Exposure, l);
  }

  /** MAIN RESULT. Whatever the fills and marks, and however many symbols, equity is the cash that has
      moved plus the net exposure at the current marks: no profit is made or lost in the accounting. */
  lemma EquityIsCashPlusExposure(events: seq<Event>)
    requires NoReconciliation(events)
    ensures Equity(Books(BookStep, events)) == Flow(CashOf, events) + Total(Exposure, Books(BookStep, events))
  {
    BalancesAreCash(events);
    EquitySplits(Books(BookStep, events));
  }

  function SumR(xs: seq<real>): real {
    if xs == [] then 0.0 else SumR(xs[..|xs| - 1]) + xs[|xs| - 1]
  }

  lemma SumSnoc(xs: seq<real>, x: real)
    ensures SumR(xs + [x]) == SumR(xs) + x
  {
    assert (xs + [x])[..|xs|] == xs;
  }

  /** The profit column of the trade log. */
  function Profits(log: seq<Ticket>): (r: seq<real>)
    ensures |r| == |log|
  {
    seq(|log|, i requires 0 <= i < |log| => log[i].pnl)
  }

  lemma ProfitsSnoc(log: seq<Ticket>, t: Ticket)
    ensures SumR(Profits(log + [t])) == SumR(Profits(log)) + t.pnl
  {
    assert Profits(log + [t]) == Profits(log) + [t.pnl];
    SumSnoc(Profits(log), t.pnl);
  }

  /** The profits logged are the profit realized. */
  ghost predicate AddsUp(log: seq<Ticket>, l: Ledger) { SumR(Profits(log)) == Total(Realized, l) }

  lemma QuietAddsUp(log: seq<Ticket>, l: Ledger, symbol: string, b: BookState)
    requires ProfitBooked(Book(l, symbol), b) == 0.0
    ensures AddsUp(log, l) ==> AddsUp(log, Put(l, symbol, b))
  {
    RealizedPut(l, symbol, b);
  }

  lemma RaisedBooksNothing(b: BookState, signed: real, price: real)
    requires Raises(b, signed)
    ensures ProfitBooked(b, Traded(b, signed, price)) == 0.0
  {
  }

  /** The profit each fill books, in the order of the fills: what the trade log's profit column holds. */
  ghost function Logged(events: seq<Event>): seq<real> {
    if events == [] then []
    else
      var before, e := events[..|events| - 1], events[|events| - 1];
      var b := Book(Books(BookStep, before), e.symbol);
      Logged(before) + (if e.Trade? then [ProfitBooked(b, BookStep(b, e))] else [])
  }

  /** Only fills book profit: marks and reconciliations leave it. */
  lemma OnlyFillsBook(b: BookState, e: Event)
    ensures !e.Trade? ==> ProfitBooked(b, BookStep(b, e)) == 0.0
  {
  }

  /** The profits of the trade log add up to the account's realized profit, whatever marks and
      reconciliations lie between the fills. */
  lemma {:induction false} TicketsAddUp(events: seq<Event>)
    ensures Total(Realized, Books(BookStep, events)) == SumR(Logged(events))
  {
    hide BookStep, ProfitBooked;
    if events != [] {
      var before, e := events[..|events| - 1], events[|events| - 1];
      var l := Books(BookStep, before);
      var b := Book(l, e.symbol);
      TicketsAddUp(before);
      RealizedPut(l, e.symbol, BookStep(b, e));
      OnlyFillsBook(b, e);
      if e.Trade? {
        SumSnoc(Logged(before), ProfitBooked(b, BookStep(b, e)));
      } else {
        assert Logged(events) == Logged(before);
      }
    }
  }

  // ---- one symbol and the legs that trade it ------------------------------------------------------

  function On(events: seq<Event>, symbol: string): seq<Event> {
    if events == [] then []
    else
      var e := events[|events| - 1];
      On(events[..|events| - 1], symbol) + (if e.symbol == symbol then [e] else [])
  }

  lemma {:induction false} BookFigure(step: (BookState, Event) -> BookState, f: BookState -> real, moves: Event -> real,
                                     events: seq<Event>, symbol: string)
    requires MovesBy(step, f, moves) && NoReconciliation(events)
    ensures f(Book(Books(step, events), symbol)) == Flow(moves, On(events, symbol))
  {
    if events != [] {
      var before, e := events[..|events| - 1], events[|events| - 1];
      BookFigure(step, f, moves, before, symbol);
      hide MovesBy, Flow, Put, Book;
      var l := Books(step, before);
      BookPut(l, e.symbol, step(Book(l, e.symbol), e), symbol);
      if e.symbol == symbol {
        MovesOnce(step, f, moves, Book(l, symbol), e);
        FlowSnoc(moves, On(before, symbol), e);
        assert On(events, symbol) == On(before, symbol) + [e];
      } else {
        assert On(events, symbol) == On(before, symbol);
      }
    }
  }

  lemma FlowSnoc(moves: Event -> real, events: seq<Event>, e: Event)
    ensures Flow(moves, events + [e]) == Flow(moves, events) + moves(e)
  {
    assert (events + [e])[..|events|] == events;
  }

  /** The fills among some events. */
  function FillsIn(events: seq<Event>): seq<Fill> {
    if events == [] then []
    else
      var e := events[|events| - 1];
      FillsIn(events[..|events| - 1]) + (if e.Trade? then [Fill(e.leg, e.signed, e.price)] else [])
  }

  lemma {:induction false} FillsMove(events: seq<Event>)
    ensures Bought(FillsIn(events)) == Flow(SharesOf, events) && Cash(FillsIn(events)) == Flow(CashOf, events)
  {
    if events != [] {
      FillsMove(events[..|events| - 1]);
      var before, e := FillsIn(events[..|events| - 1]), events[|events| - 1];
      if e.Trade? {
        assert FillsIn(events)[..|before|] == before;
      } else {
        assert FillsIn(events) == before;
      }
    }
  }

  /** A book and a position that hold the same and have moved the same cash. */
  predicate Tracks(b: BookState, p: Position) { b.pos == p.qty && BookBalance(b) == Balance(p) }

  /** The account's book of a symbol holds what its fills add up to. */
  lemma BookTracksFills(events: seq<Event>, symbol: string)
    requires NoReconciliation(events)
    ensures Tracks(Book(Books(BookStep, events), symbol), Held(FillsIn(On(events, symbol))))
  {
    FiguresMove();
    BookFigure(BookStep, Shares, SharesOf, events, symbol);
    BookFigure(BookStep, BookBalance, CashOf, events, symbol);
    FillsMove(On(events, symbol));
    Conserved(FillsIn(On(events, symbol)));
  }

  lemma TrackedSumIff(legs: seq<Position>, p: Position, b: BookState)
    requires LegsQty(legs) == p.qty && LegsBalance(legs) == Balance(p) && Tracks(b, p)
    ensures LegsWorth(legs, b.mark) == Worth(AsPosition(b), b.mark) <==> b.mark != 0.0 || LegsCost(legs) == 0.0
  {
    SumIff(legs, AsPosition(b), b.mark);
  }

  /** MAIN RESULT. The strategy legs trading a symbol add up to the account's profit on it at its current
      mark, exactly when that mark is not zero or their open holdings cost nothing in total. */
  lemma LegsSumToBookIff(events: seq<Event>, symbol: string, n: nat)
    requires NoReconciliation(events) && forall i <- FillsIn(On(events, symbol)) :: i.leg < n
    ensures
      var b, legs := Book(Books(BookStep, events), symbol), Legs(FillsIn(On(events, symbol)), n);
      LegsWorth(legs, b.mark) == Worth(AsPosition(b), b.mark) <==> b.mark != 0.0 || LegsCost(legs) == 0.0
  {
    var fills := FillsIn(On(events, symbol));
    BookTracksFills(events, symbol);
    LegTotals(fills, n);
    TrackedSumIff(Legs(fills, n), Held(fills), Book(Books(BookStep, events), symbol));
  }

  // ---- the kill switch ---------------------------------------------------------------------------

  datatype Reason = DailyLoss | Drawdown

  /** The switch, why it last tripped, and the best equity so far. */
  datatype Watch = Watch(halted: bool, reason: Option<Reason>, peak: real)

  /** One check: stop on a loss from zero, or on a fall from the best equity so far. */
  function Checked(w: Watch, limit: real, eq: real): Watch {
    var peak := MaxR(w.peak, eq);
    if eq <= 0.0 - limit then Watch(true, Some(DailyLoss), peak)
    else if peak - eq >= limit then Watch(true, Some(Drawdown), peak)
    else w.(peak := peak)
  }

  /** The switch after these recorded equities. */
  function Watched(limit: real, curve: seq<real>): Watch {
    if curve == [] then Watch(false, None, 0.0)
    else Checked(Watched(limit, curve[..|curve| - 1]), limit, curve[|curve| - 1])
  }

  lemma WatchedSnoc(limit: real, curve: seq<real>, eq: real)
    ensures Watched(limit, curve + [eq]) == Checked(Watched(limit, curve), limit, eq)
  {
    assert (curve + [eq])[..|curve|] == curve;
  }

  /** The best recorded equity, or zero. */
  function Best(curve: seq<real>): (r: real)
    ensures r >= 0.0
  {
    if curve == [] then 0.0 else MaxR(Best(curve[..|curve| - 1]), curve[|curve| - 1])
  }

  /** How far equity stood, at the k-th fill, below the best until then. */
  function Drop(curve: seq<real>, k: nat): real
    requires k < |curve|
  {
    Best(curve[..k + 1]) - curve[k]
  }

  ghost predicate EverDropped(curve: seq<real>, limit: real) {
    exists k: nat | k < |curve| :: Drop(curve, k) >= limit
  }

  lemma DroppedStep(curve: seq<real>, limit: real)
    requires curve != []
    ensures
      var before, last := curve[..|curve| - 1], |curve| - 1;
      EverDropped(curve, limit) <==> EverDropped(before, limit) || Best(curve) - curve[last] >= limit
  {
    var before := curve[..|curve| - 1];
    assert curve[..|curve|] == curve;
    assert Drop(curve, |curve| - 1) == Best(curve) - curve[|curve| - 1];
    forall k: nat | k < |before| ensures Drop(curve, k) == Drop(before, k) {
      assert curve[..k + 1] == before[..k + 1];
    }
    if k: nat :| k < |before| && Drop(before, k) >= limit {
      assert Drop(curve, k) >= limit;
    }
  }

  /** MAIN RESULT. The switch is set exactly when at some fill the recorded equity stood the limit or more
      below max(0, best so far), for any limit: the test for a loss from zero adds no case. */
  lemma {:induction false} HaltedIffDropped(limit: real, curve: seq<real>)
    ensures Watched(limit, curve).peak == Best(curve) && (Watched(limit, curve).halted <==> EverDropped(curve, limit))
  {
    if curve != [] {
      HaltedIffDropped(limit, curve[..|curve| - 1]);
      DroppedStep(curve, limit);
    }
  }

  /** Nothing the account does clears the switch. */
  lemma {:induction false} StaysHalted(limit: real, curve: seq<real>, more: seq<real>)
    requires Watched(limit, curve).halted
    ensures Watched(limit, curve + more).halted
  {
    if more == [] {
      assert curve + more == curve;
    } else {
      StaysHalted(limit, curve, more[..|more| - 1]);
      assert (curve + more)[..|curve + more| - 1] == curve + more[..|more| - 1];
    }
  }
}
