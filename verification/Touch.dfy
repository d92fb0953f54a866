/** The snapshot a strategy sees, in terms of the orders alone: which prices are best, and what lies there. */
module Touch {
  import opened Messages
  import opened Depth
  import B = Book
  import O = Orders

  ghost predicate Bids(slots: seq<Slot>, p: nat) {
    exists i | 0 <= i < |slots| :: slots[i].Some? && slots[i].value.side == Bid && slots[i].value.price == p
  }

  ghost predicate Asks(slots: seq<Slot>, p: nat) {
    exists i | 0 <= i < |slots| :: slots[i].Some? && slots[i].value.side == Ask && slots[i].value.price == p
  }

  /** Shares resting on one side at a price. */
  function Volume(slots: seq<Slot>, side: Side, p: nat): nat {
    if slots == [] then 0
    else
      var last := slots[|slots| - 1];
      Volume(slots[..|slots| - 1], side, p) +
      if last.Some? && last.value.side == side && last.value.price == p then last.value.shares else 0
  }

  lemma {:induction false} InterestIs(slots: seq<Slot>, p: nat)
    ensures At(slots, Bid, p).orders > 0 <==> Bids(slots, p)
    ensures At(slots, Ask, p).orders > 0 <==> Asks(slots, p)
    ensures At(slots, Bid, p).volume == Volume(slots, Bid, p) && At(slots, Ask, p).volume == Volume(slots, Ask, p)
  {
    if slots != [] {
      var last := |slots| - 1;
      InterestIs(slots[..last], p);
      SnocBids(slots, p);
    }
  }

  lemma SnocBids(slots: seq<Slot>, p: nat)
    requires slots != []
    ensures
      var last := slots[|slots| - 1];
      && (Bids(slots, p) <==>
          Bids(slots[..|slots| - 1], p) || (last.Some? && last.value.side == Bid && last.value.price == p))
      && (Asks(slots, p) <==>
          Asks(slots[..|slots| - 1], p) || (last.Some? && last.value.side == Ask && last.value.price == p))
  {
    var k := |slots| - 1;
    assert forall i | 0 <= i < k :: slots[..k][i] == slots[i];
  }

  /** A bid side in best-first order: prices fall, and each carries the shares bid there. */
  lemma BidSide(levels: seq<Level>, n: nat, slots: seq<Slot>)
    requires n > 0 && IsTopN(levels, n, slots, Bid)
    ensures forall i, j | 0 <= i < j < |levels| :: levels[i].price > levels[j].price
    ensures forall i | 0 <= i < |levels| ::
              Bids(slots, levels[i].price) && levels[i].size == Volume(slots, Bid, levels[i].price)
    ensures forall p: nat | Bids(slots, p) :: levels != [] && levels[0].price >= p
    ensures forall p: nat | Bids(slots, p) ::
              Displayed(levels, p) || (|levels| == n && p < levels[n - 1].price)
  {
    hide At;
    forall i | 0 <= i < |levels|
      ensures Bids(slots, levels[i].price) && levels[i].size == Volume(slots, Bid, levels[i].price)
    {
      InterestIs(slots, levels[i].price);
      assert Truthful(levels[i], slots, Bid);
    }
    forall p: nat | Bids(slots, p)
      ensures levels != [] && levels[0].price >= p
      ensures Displayed(levels, p) || (|levels| == n && p < levels[n - 1].price)
    {
      InterestIs(slots, p);
    }
  }

  /** An ask side likewise: prices rise. */
  lemma AskSide(levels: seq<Level>, n: nat, slots: seq<Slot>)
    requires n > 0 && IsTopN(levels, n, slots, Ask)
    ensures forall i, j | 0 <= i < j < |levels| :: levels[i].price < levels[j].price
    ensures forall i | 0 <= i < |levels| ::
              Asks(slots, levels[i].price) && levels[i].size == Volume(slots, Ask, levels[i].price)
    ensures forall p: nat | Asks(slots, p) :: levels != [] && levels[0].price <= p
    ensures forall p: nat | Asks(slots, p) ::
              Displayed(levels, p) || (|levels| == n && p > levels[n - 1].price)
  {
    hide At;
    forall i | 0 <= i < |levels|
      ensures Asks(slots, levels[i].price) && levels[i].size == Volume(slots, Ask, levels[i].price)
    {
      InterestIs(slots, levels[i].price);
      assert Truthful(levels[i], slots, Ask);
    }
    forall p: nat | Asks(slots, p)
      ensures levels != [] && levels[0].price <= p
      ensures Displayed(levels, p) || (|levels| == n && p > levels[n - 1].price)
    {
      InterestIs(slots, p);
    }
  }

  /** MAIN RESULT. The snapshot of a book whose sides are exact: the bid price is the highest of all bids, or 0 when
      there is none; the ask price the lowest of all asks, or 2^32 - 1; the sizes are all shares at those
      prices; it is valid exactly when there are both; and level sizes are those of the prices shown, zero
      beyond them. */
  lemma SnapshotIsTouch(bid: seq<Level>, ask: seq<Level>, n: nat, slots: seq<Slot>)
    requires n > 0 && IsTopN(bid, n, slots, Bid) && IsTopN(ask, n, slots, Ask)
    ensures
      var s := B.View(bid, ask, n);
      && (if exists p: nat :: Bids(slots, p)
          then Bids(slots, s.bidPrice) && (forall p: nat | Bids(slots, p) :: p <= s.bidPrice)
               && s.bidSize == Volume(slots, Bid, s.bidPrice)
          else s.bidPrice == s.bidSize == 0)
      && (if exists p: nat :: Asks(slots, p)
          then Asks(slots, s.askPrice) && (forall p: nat | Asks(slots, p) :: s.askPrice <= p)
               && s.askSize == Volume(slots, Ask, s.askPrice)
          else s.askPrice == 0xFFFF_FFFF && s.askSize == 0)
      && (s.valid <==> (exists p: nat :: Bids(slots, p)) && exists p: nat :: Asks(slots, p))
    ensures
      var s := B.View(bid, ask, n);
      && |s.bidSizes| == |s.askSizes| == n
      && (forall k | 0 <= k < n ::
            s.bidSizes[k] == if k < |bid| then Volume(slots, Bid, bid[k].price) else 0)
      && (forall k | 0 <= k < n ::
            s.askSizes[k] == if k < |ask| then Volume(slots, Ask, ask[k].price) else 0)
  {
    hide IsTopN, Volume;
    BidSide(bid, n, slots);
    AskSide(ask, n, slots);
  }

  /** MAIN RESULT. An edit other than Replace makes the book rescan exactly when the price of the edited order is on
      display. */
  lemma RescanIff(b: B.Book, n: nat, m: Msg)
    requires n > 0 && b.table != [] && B.Exact(b, n, []) && B.Matches(b.table, m)
    requires m.kind.Cancel? || m.kind.Execute? || m.kind.ExecPrice? || m.kind.Delete?
    ensures
      var e := b.table[m.ref % |b.table|].value;
      B.NeedsRescan(b, n, m) <==> Displayed(b.Levels(e.side), e.price)
  {
    var e := b.table[m.ref % |b.table|].value;
    assert b.table + [] == b.table && IsTopN(b.Levels(e.side), n, b.table + [], e.side);
    InterestIs(b.table, e.price);
  }

  /** MAIN RESULT. Each of the three messages that take shares takes them from the one price the order rests at: no
      more than it has, and no other price on either side moves. */
  lemma SharesTaken(b: B.Book, n: nat, m: Msg, side: Side, p: nat)
    requires b.table != [] && B.Matches(b.table, m) && (m.kind.Cancel? || m.kind.Execute? || m.kind.ExecPrice?)
    ensures
      var e := b.table[m.ref % |b.table|].value;
      Volume(B.Apply(b, n, m).table, side, p) ==
      Volume(b.table, side, p) -
      if side == e.side && p == e.price then (if m.shares < e.shares then m.shares else e.shares) else 0
  {
    O.EditedTable(b, n, m);
    hide B.Apply, At, Volume;
    var i := m.ref % |b.table|;
    var table' := B.Apply(b, n, m).table;
    assert table' == b.table[i := table'[i]];
    AtUpdate(b.table, i, table'[i], side, p);
    InterestIs(b.table, p);
    InterestIs(table', p);
  }
}
