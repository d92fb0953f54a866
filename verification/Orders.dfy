/** The book's own account of its orders, with no table and no caches: a map from reference to resting
    order, changed by each message kind as the exchange means it; and when the table holds exactly that. */
module Orders {
  import opened Messages
  import opened Depth
  import B = Book

  datatype Resting = Resting(side: Side, price: nat, shares: nat)

  /** Shares leave an order; with none left the order is gone. An unknown reference is no order. */
  function Less(live: map<nat, Resting>, ref: nat, q: nat): map<nat, Resting> {
    if ref !in live then live
    else if live[ref].shares <= q then live - {ref}
    else live[ref := Resting(live[ref].side, live[ref].price, live[ref].shares - q)]
  }

  function After(live: map<nat, Resting>, m: Msg): map<nat, Resting> {
    match m.kind
    case Add => live[m.ref := Resting(m.side, m.price, m.shares)]
    case AddMpid => live[m.ref := Resting(m.side, m.price, m.shares)]
    case Cancel => Less(live, m.ref, m.shares)
    case Execute => Less(live, m.ref, m.shares)
    case ExecPrice => Less(live, m.ref, m.shares)
    case Delete => live - {m.ref}
    case Replace =>
      if m.ref !in live then live
      else (live - {m.ref})[m.newRef := Resting(live[m.ref].side, m.price, m.shares)]
    case Trade => live
  }

  function AfterAll(msgs: seq<Msg>): map<nat, Resting> {
    if msgs == [] then map[] else After(AfterAll(msgs[..|msgs| - 1]), msgs[|msgs| - 1])
  }

  /** Each order lies in the slot its reference addresses, and no slot holds anything else. */
  ghost predicate Holds(table: seq<Slot>, live: map<nat, Resting>)
    requires table != []
  {
    && (forall ref: nat | ref in live ::
          table[ref % |table|] == Some(Entry(ref, live[ref].side, live[ref].price, live[ref].shares)))
    && (forall i | 0 <= i < |table| && table[i].Some? ::
          table[i].value.ref in live && table[i].value.ref % |table| == i)
  }

  /** Another order that stays lies in the slot a new reference needs. */
  ghost predicate Occupied(live: map<nat, Resting>, ref: nat, depth: nat)
    requires depth > 0
  {
    exists r: nat | r in live :: r != ref && r % depth == ref % depth
  }

  ghost predicate Collides(live: map<nat, Resting>, m: Msg, depth: nat)
    requires depth > 0
  {
    match m.kind
    case Add => Occupied(live, m.ref, depth)
    case AddMpid => Occupied(live, m.ref, depth)
    case Replace => m.ref in live && Occupied(live - {m.ref}, m.newRef, depth)
    case _ => false
  }

  /** A slot with a known reference holds the order of that reference. */
  lemma SlotIs(table: seq<Slot>, live: map<nat, Resting>, ref: nat)
    requires table != [] && Holds(table, live)
    ensures
      var slot := table[ref % |table|];
      (slot.Some? && slot.value.ref == ref <==> ref in live)
      && (ref in live ==> slot.value == Entry(ref, live[ref].side, live[ref].price, live[ref].shares))
  {
  }

  lemma Stored(table: seq<Slot>, live: map<nat, Resting>, ref: nat, o: Resting)
    requires table != [] && Holds(table, live)
    ensures
      Holds(table[ref % |table| := Some(Entry(ref, o.side, o.price, o.shares))], live[ref := o]) <==>
      !Occupied(live, ref, |table|)
  {
    var i := ref % |table|;
    var table', live' := table[i := Some(Entry(ref, o.side, o.price, o.shares))], live[ref := o];
    if Occupied(live, ref, |table|) {
      var r: nat :| r in live && r != ref && r % |table| == i;
      assert r in live' && table'[r % |table|].value.ref != r;
    } else {
      forall r: nat | r in live'
        ensures table'[r % |table|] == Some(Entry(r, live'[r].side, live'[r].price, live'[r].shares))
      {
        if r != ref { assert r in live && r % |table| != i; }
      }
    }
  }

  lemma Dropped(table: seq<Slot>, live: map<nat, Resting>, ref: nat)
    requires table != [] && Holds(table, live) && ref in live
    ensures Holds(table[ref % |table| := None], live - {ref})
  {
    var i := ref % |table|;
    forall r: nat | r in live - {ref} ensures r % |table| != i {
      assert table[i].value.ref == ref;
    }
  }

  lemma Kept(table: seq<Slot>, live: map<nat, Resting>, ref: nat)
    requires table != [] && Holds(table, live) && ref in live
    ensures !Occupied(live, ref, |table|)
  {
  }

  lemma AddsFollow(b: B.Book, n: nat, live: map<nat, Resting>, m: Msg)
    requires b.table != [] && Holds(b.table, live) && (m.kind.Add? || m.kind.AddMpid?)
    ensures Holds(B.Apply(b, n, m).table, After(live, m)) <==> !Collides(live, m, |b.table|)
  {
    hide Holds, Occupied, B.Insert;
    Stored(b.table, live, m.ref, Resting(m.side, m.price, m.shares));
  }

  lemma EditedTable(b: B.Book, n: nat, m: Msg)
    requires b.table != [] && B.Matches(b.table, m) && !IsAdd(m.kind) && !m.kind.Trade?
    ensures B.Apply(b, n, m).table == B.Edited(b.table, m)
  {
  }

  lemma ReducesFollow(b: B.Book, n: nat, live: map<nat, Resting>, m: Msg)
    requires b.table != [] && Holds(b.table, live) && (m.kind.Cancel? || m.kind.Execute? || m.kind.ExecPrice?)
    ensures Holds(B.Apply(b, n, m).table, After(live, m))
  {
    hide Holds, Occupied;
    SlotIs(b.table, live, m.ref);
    if m.ref in live {
      EditedTable(b, n, m);
      Dropped(b.table, live, m.ref);
      Kept(b.table, live, m.ref);
      var o := live[m.ref];
      if o.shares > m.shares {
        Stored(b.table, live, m.ref, Resting(o.side, o.price, o.shares - m.shares));
      }
    }
  }

  lemma DeletesFollow(b: B.Book, n: nat, live: map<nat, Resting>, m: Msg)
    requires b.table != [] && Holds(b.table, live) && m.kind.Delete?
    ensures Holds(B.Apply(b, n, m).table, After(live, m))
  {
    hide Holds;
    SlotIs(b.table, live, m.ref);
    if m.ref in live {
      EditedTable(b, n, m);
      Dropped(b.table, live, m.ref);
    } else {
      assert live - {m.ref} == live;
    }
  }

  lemma ReplacesFollow(b: B.Book, n: nat, live: map<nat, Resting>, m: Msg)
    requires b.table != [] && Holds(b.table, live) && m.kind.Replace?
    ensures Holds(B.Apply(b, n, m).table, After(live, m)) <==> !Collides(live, m, |b.table|)
  {
    hide Holds, Occupied;
    SlotIs(b.table, live, m.ref);
    if m.ref in live {
      EditedTable(b, n, m);
      Dropped(b.table, live, m.ref);
      Stored(b.table[m.ref % |b.table| := None], live - {m.ref}, m.newRef,
             Resting(live[m.ref].side, m.price, m.shares));
    }
  }

  /** MAIN RESULT. From a table that holds exactly the orders of the account, any message of the eight kinds leaves
      one that holds exactly the orders after it, unless it stores an order where another one lies. */
  lemma ApplyFollowsIff(b: B.Book, n: nat, live: map<nat, Resting>, m: Msg)
    requires b.table != [] && Holds(b.table, live)
    ensures Holds(B.Apply(b, n, m).table, After(live, m)) <==> !Collides(live, m, |b.table|)
  {
    hide Holds, Occupied, After, B.Apply;
    match m.kind {
      case Add => AddsFollow(b, n, live, m);
      case AddMpid => AddsFollow(b, n, live, m);
      case Cancel => ReducesFollow(b, n, live, m);
      case Execute => ReducesFollow(b, n, live, m);
      case ExecPrice => ReducesFollow(b, n, live, m);
      case Delete => DeletesFollow(b, n, live, m);
      case Replace => ReplacesFollow(b, n, live, m);
      case Trade => TradesFollow(b, n, live, m);
    }
  }

  lemma TradesFollow(b: B.Book, n: nat, live: map<nat, Resting>, m: Msg)
    requires b.table != [] && m.kind.Trade?
    ensures B.Apply(b, n, m) == b && After(live, m) == live
  {
  }

  // ---- whole streams -----------------------------------------------------------------------------------

  /** No message of the stream collides, by the account alone. */
  ghost predicate CollisionFree(msgs: seq<Msg>, depth: nat)
    requires depth > 0
  {
    forall k | 0 <= k < |msgs| :: !Collides(AfterAll(msgs[..k]), msgs[k], depth)
  }

  /** MAIN RESULT. After every stream without collisions the table holds exactly the resting orders. */
  lemma {:induction false} TableHoldsOrders(depth: nat, n: nat, msgs: seq<Msg>)
    requires depth > 0 && CollisionFree(msgs, depth)
    ensures Holds(B.Run(depth, n, msgs).table, AfterAll(msgs))
  {
    hide Collides, After, B.Apply;
    if msgs != [] {
      var before := msgs[..|msgs| - 1];
      assert forall k | 0 <= k < |before| :: before[..k] == msgs[..k];
      TableHoldsOrders(depth, n, before);
      ApplyFollowsIff(B.Run(depth, n, before), n, AfterAll(before), msgs[|msgs| - 1]);
    }
  }

  /** Every Add brings a reference that is not resting. */
  ghost predicate FreshAdds(msgs: seq<Msg>) {
    forall k | 0 <= k < |msgs| && (msgs[k].kind.Add? || msgs[k].kind.AddMpid?) :: msgs[k].ref !in AfterAll(msgs[..k])
  }

  lemma FreshSlotIsFree(table: seq<Slot>, live: map<nat, Resting>, m: Msg)
    requires table != [] && Holds(table, live) && (m.kind.Add? || m.kind.AddMpid?)
    requires m.ref !in live && !Collides(live, m, |table|)
    ensures table[B.Index(table, m.ref)].None?
  {
  }

  /** MAIN RESULT. With fresh references besides, both sides of the display are in every state the best n prices,
      volumes summed, of the resting orders alone. */
  lemma DisplayShowsOrders(depth: nat, n: nat, msgs: seq<Msg>)
    requires depth > 0 && CollisionFree(msgs, depth) && FreshAdds(msgs)
    ensures
      var b := B.Run(depth, n, msgs);
      && Holds(b.table, AfterAll(msgs)) && b == B.Rescanned(b.table, n)
      && IsTopN(b.bid, n, b.table, Bid) && IsTopN(b.ask, n, b.table, Ask)
  {
    forall k | 0 <= k < |msgs| && IsAdd(msgs[k].kind)
      ensures
        var table := B.Run(depth, n, msgs[..k]).table;
        table[B.Index(table, msgs[k].ref)].None?
    {
      assert forall j | 0 <= j < k :: msgs[..k][..j] == msgs[..j];
      TableHoldsOrders(depth, n, msgs[..k]);
      FreshSlotIsFree(B.Run(depth, n, msgs[..k]).table, AfterAll(msgs[..k]), msgs[k]);
    }
    TableHoldsOrders(depth, n, msgs);
    B.IncrementalEqualsRebuild(depth, n, msgs);
    B.RebuildIsTopN(B.Run(depth, n, msgs).table, n, Bid);
    B.RebuildIsTopN(B.Run(depth, n, msgs).table, n, Ask);
  }
}
