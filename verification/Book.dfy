/** The multi-level order book as a function on values: a direct-mapped table of orders backed
    by one top-N price cache per side, and the proof that the cache is always exact. */
module Book {
  import opened Messages
  import opened Depth

  /** `table[i]` is Some when the slot is valid. The caches hold the populated levels only. */
  datatype Book = Book(table: seq<Slot>, bid: seq<Level>, ask: seq<Level>) {
    function Levels(side: Side): seq<Level> { if side.Bid? then bid else ask }
  }

  function Empty(depth: nat): Book {
    Book(seq(depth, _ => None), [], [])
  }

  /** Position of the level at price p, or |levels|. */
  function FindPrice(levels: seq<Level>, p: nat): (i: nat)
    ensures i <= |levels|
    ensures i < |levels| ==> levels[i].price == p
    ensures forall j | 0 <= j < i :: levels[j].price != p
  {
    if levels == [] then 0
    else if levels[0].price == p then 0
    else 1 + FindPrice(levels[1..], p)
  }

  /** First position whose level p beats, or |levels|. */
  function InsertionPoint(levels: seq<Level>, side: Side, p: nat): (i: nat)
    ensures i <= |levels|
    ensures i < |levels| ==> Better(side, p, levels[i].price)
    ensures forall j | 0 <= j < i :: !Better(side, p, levels[j].price)
  {
    if levels == [] then 0
    else if Better(side, p, levels[0].price) then 0
    else 1 + InsertionPoint(levels[1..], side, p)
  }

  function Take(levels: seq<Level>, n: nat): seq<Level> {
    if |levels| <= n then levels else levels[..n]
  }

  /** x put at position i, everything from there on one place later. */
  function Splice(levels: seq<Level>, i: nat, x: Level): (r: seq<Level>)
    requires i <= |levels|
    ensures |r| == |levels| + 1 && r[i] == x
    ensures forall j | 0 <= j < i :: r[j] == levels[j]
    ensures forall j | i < j < |r| :: r[j] == levels[j - 1]
  {
    levels[..i] + [x] + levels[i..]
  }

  /** A list that reads like a spliced one, cut to length. */
  lemma Spliced(levels: seq<Level>, i: nat, x: Level, n: nat, r: seq<Level>)
    requires i <= |levels| && i < n && |r| == if |levels| < n then |levels| + 1 else n
    requires r[i] == x && forall j | 0 <= j < i :: r[j] == levels[j]
    requires forall j | i < j < |r| :: r[j] == levels[j - 1]
    ensures r == Take(Splice(levels, i, x), n)
  {
  }

  /** Aggregate into the level at price p, or make room for a new one among the best n. */
  function Insert(levels: seq<Level>, n: nat, side: Side, p: nat, s: nat): seq<Level> {
    var k := FindPrice(levels, p);
    if k < |levels| then levels[k := Level(p, levels[k].size + s)]
    else
      var i := InsertionPoint(levels, side, p);
      if i < n then Take(Splice(levels, i, Level(p, s)), n) else levels
  }

  /** Rebuild a cache from the table in index order. */
  function Rebuild(slots: seq<Slot>, n: nat, side: Side): seq<Level> {
    if slots == [] then []
    else
      var rest := Rebuild(slots[..|slots| - 1], n, side);
      var last := slots[|slots| - 1];
      if last.Some? && last.value.side == side
      then Insert(rest, n, side, last.value.price, last.value.shares) else rest
  }

  function Index(table: seq<Slot>, ref: nat): (i: nat)
    requires table != []
    ensures i < |table|
  {
    ref % |table|
  }

  /** The addressed slot holds exactly the order the message names. */
  predicate Matches(table: seq<Slot>, m: Msg)
    requires table != []
  {
    var slot := table[Index(table, m.ref)];
    slot.Some? && slot.value.ref == m.ref
  }

  /** Would touching this order change a displayed level? */
  predicate AffectsDisplayed(b: Book, n: nat, e: Entry) {
    var levels := b.Levels(e.side);
    |levels| != n || levels == [] || !Better(e.side, levels[|levels| - 1].price, e.price)
  }

  /** The table after an edit whose target matched. */
  function Edited(table: seq<Slot>, m: Msg): seq<Slot>
    requires table != [] && Matches(table, m)
  {
    var i := Index(table, m.ref);
    var e := table[i].value;
    if IsReduce(m.kind) then
      if e.shares > m.shares then table[i := Some(e.(shares := e.shares - m.shares))]
      else table[i := None]
    else if m.kind.Delete? then table[i := None]
    else if m.kind.Replace? then
      table[i := None][Index(table, m.newRef) := Some(Entry(m.newRef, e.side, m.price, m.shares))]
    else table
  }

  predicate NeedsRescan(b: Book, n: nat, m: Msg)
    requires b.table != []
  {
    && IsEdit(m.kind)
    && Matches(b.table, m)
    && (m.kind.Replace? || AffectsDisplayed(b, n, b.table[Index(b.table, m.ref)].value))
  }

  function Rescanned(table: seq<Slot>, n: nat): Book {
    Book(table, Rebuild(table, n, Bid), Rebuild(table, n, Ask))
  }

  function Apply(b: Book, n: nat, m: Msg): (r: Book)
    requires b.table != []
    ensures |r.table| == |b.table|
  {
    if IsAdd(m.kind) then
      var table := b.table[Index(b.table, m.ref) := Some(Entry(m.ref, m.side, m.price, m.shares))];
      if m.side.Bid? then Book(table, Insert(b.bid, n, Bid, m.price, m.shares), b.ask)
      else Book(table, b.bid, Insert(b.ask, n, Ask, m.price, m.shares))
    else if m.kind.Trade? || !Matches(b.table, m) then b
    else if NeedsRescan(b, n, m) then Rescanned(Edited(b.table, m), n)
    else b.(table := Edited(b.table, m))
  }

  function Run(depth: nat, n: nat, msgs: seq<Msg>): (b: Book)
    requires depth > 0
    ensures |b.table| == depth
  {
    if msgs == [] then Empty(depth)
    else Apply(Run(depth, n, msgs[..|msgs| - 1]), n, msgs[|msgs| - 1])
  }

  // ---- what the cache means --------------------------------------------------------------

  /** Orders an aliasing Add has overwritten in the table while the cache still counts them. */
  function NextShadow(b: Book, n: nat, shadow: seq<Slot>, m: Msg): seq<Slot>
    requires b.table != []
  {
    if IsAdd(m.kind) then
      var prior := b.table[Index(b.table, m.ref)];
      if prior.Some? then shadow + [prior] else shadow
    else if NeedsRescan(b, n, m) then []
    else shadow
  }

  function Shadow(depth: nat, n: nat, msgs: seq<Msg>): seq<Slot>
    requires depth > 0
  {
    if msgs == [] then []
    else
      var before := msgs[..|msgs| - 1];
      NextShadow(Run(depth, n, before), n, Shadow(depth, n, before), msgs[|msgs| - 1])
  }

  ghost predicate Exact(b: Book, n: nat, shadow: seq<Slot>) {
    forall side: Side :: IsTopN(b.Levels(side), n, b.table + shadow, side)
  }

  /** What only depends on the prices of a list. */
  lemma SamePrices(levels: seq<Level>, r: seq<Level>, side: Side, q: nat)
    requires |r| == |levels| && forall i | 0 <= i < |levels| :: r[i].price == levels[i].price
    ensures Displayed(r, q) == Displayed(levels, q) && WorseThanAll(r, side, q) == WorseThanAll(levels, side, q)
  {
    if i :| 0 <= i < |levels| && levels[i].price == q {
      assert r[i].price == q;
    }
    if !WorseThanAll(levels, side, q) {
      var i :| 0 <= i < |levels| && !Better(side, levels[i].price, q);
      assert !Better(side, r[i].price, q);
    }
  }

  /** More volume at a displayed price. */
  lemma AddToLevel(levels: seq<Level>, n: nat, slots: seq<Slot>, slots': seq<Slot>, side: Side, p: nat, k: nat, s: nat)
    requires IsTopN(levels, n, slots, side) && k < |levels| && levels[k].price == p
    requires forall q: nat | q != p :: At(slots', side, q) == At(slots, side, q)
    requires At(slots', side, p).orders == At(slots, side, p).orders + 1
    requires At(slots', side, p).volume == At(slots, side, p).volume + s
    ensures IsTopN(levels[k := Level(p, levels[k].size + s)], n, slots', side)
  {
    hide At, Displayed, WorseThanAll;
    var r := levels[k := Level(p, levels[k].size + s)];
    assert Truthful(levels[k], slots, side);
    forall i | 0 <= i < |r| ensures Truthful(r[i], slots', side) {
      assert Truthful(levels[i], slots, side);
    }
    forall q: nat | At(slots', side, q).orders > 0 && !Displayed(r, q)
      ensures |r| == n && WorseThanAll(r, side, q)
    {
      SamePrices(levels, r, side, q);
    }
  }

  /** A price an exact list does not show has no orders, or is worse than all of a full list. */
  lemma NotShown(levels: seq<Level>, n: nat, slots: seq<Slot>, side: Side, p: nat)
    requires IsTopN(levels, n, slots, side) && FindPrice(levels, p) == |levels|
    ensures !Displayed(levels, p)
    ensures InsertionPoint(levels, side, p) < n ==> At(slots, side, p).orders == 0
    ensures InsertionPoint(levels, side, p) >= n ==> |levels| == n && WorseThanAll(levels, side, p)
  {
    hide At;
  }

  /** One more order at price p turns an exact list into another exact list. */
  lemma InsertKeepsTopN(levels: seq<Level>, n: nat, slots: seq<Slot>, slots': seq<Slot>, side: Side, p: nat, s: nat)
    requires IsTopN(levels, n, slots, side)
    requires forall q: nat | q != p :: At(slots', side, q) == At(slots, side, q)
    requires At(slots', side, p).orders == At(slots, side, p).orders + 1
    requires At(slots', side, p).volume == At(slots, side, p).volume + s
    ensures IsTopN(Insert(levels, n, side, p, s), n, slots', side)
  {
    hide At, IsTopN, Displayed, WorseThanAll;
    var k := FindPrice(levels, p);
    if k < |levels| {
      AddToLevel(levels, n, slots, slots', side, p, k, s);
    } else {
      NotShown(levels, n, slots, side, p);
      if InsertionPoint(levels, side, p) < n {
        AtNoOrders(slots, side, p);
        InsertNewPrice(levels, n, slots, slots', side, p, s);
      } else {
        HiddenChange(levels, n, slots, slots', side, p);
      }
    }
  }

  /** A price that is not on display is beaten by everything before its insertion point and beats
      everything from there on. */
  lemma InsertionOrder(levels: seq<Level>, side: Side, p: nat)
    requires Sorted(levels, side) && FindPrice(levels, p) == |levels|
    ensures forall j | 0 <= j < InsertionPoint(levels, side, p) :: Better(side, levels[j].price, p)
    ensures forall j | InsertionPoint(levels, side, p) <= j < |levels| :: Better(side, p, levels[j].price)
  {
    var i := InsertionPoint(levels, side, p);
    forall j | 0 <= j < i ensures Better(side, levels[j].price, p) {
      assert levels[j].price != p;
    }
    forall j | i <= j < |levels| ensures Better(side, p, levels[j].price) {
      assert j == i || Better(side, levels[i].price, levels[j].price);
    }
  }

  /** The shape of an insertion that makes room at position i. */
  lemma InsertShape(levels: seq<Level>, n: nat, side: Side, p: nat, s: nat)
    requires |levels| <= n && FindPrice(levels, p) == |levels|
    requires InsertionPoint(levels, side, p) < n
    ensures
      var i, r := InsertionPoint(levels, side, p), Insert(levels, n, side, p, s);
      && i < |r| && |r| == (if |levels| < n then |levels| + 1 else n)
      && r[i] == Level(p, s)
      && (forall j | 0 <= j < i :: r[j] == levels[j])
      && (forall j | i < j < |r| :: r[j] == levels[j - 1])
  {
  }

  /** The case of InsertKeepsTopN where p is not on display and beats something, or room is left. */
  lemma InsertNewPrice(levels: seq<Level>, n: nat, slots: seq<Slot>, slots': seq<Slot>, side: Side, p: nat, s: nat)
    requires IsTopN(levels, n, slots, side) && FindPrice(levels, p) == |levels|
    requires InsertionPoint(levels, side, p) < n
    requires forall q: nat | q != p :: At(slots', side, q) == At(slots, side, q)
    requires At(slots', side, p) == Interest(1, s)
    ensures IsTopN(Insert(levels, n, side, p, s), n, slots', side)
  {
    var i := InsertionPoint(levels, side, p);
    var r := Insert(levels, n, side, p, s);
    InsertShape(levels, n, side, p, s);
    forall j | 0 <= j < |r| ensures Truthful(r[j], slots', side) {
      if j < i { assert Truthful(levels[j], slots, side); }
      if j > i { assert Truthful(levels[j - 1], slots, side); }
    }
    forall q: nat | At(slots', side, q).orders > 0 && !Displayed(r, q)
      ensures |r| == n && WorseThanAll(r, side, q)
    {
      assert r[i].price == p;
      UndisplayedAfterInsert(levels, n, slots, side, p, s, q);
    }
    InsertSorted(levels, n, side, p, s);
  }

  lemma InsertSorted(levels: seq<Level>, n: nat, side: Side, p: nat, s: nat)
    requires |levels| <= n && Sorted(levels, side) && FindPrice(levels, p) == |levels|
    requires InsertionPoint(levels, side, p) < n
    ensures Sorted(Insert(levels, n, side, p, s), side)
  {
    var i, r := InsertionPoint(levels, side, p), Insert(levels, n, side, p, s);
    InsertShape(levels, n, side, p, s);
    InsertionOrder(levels, side, p);
    forall j, k | 0 <= j < k < |r| ensures Better(side, r[j].price, r[k].price) {
      if j != i && k != i {
        var j0, k0 := if j < i then j else j - 1, if k < i then k else k - 1;
        assert r[j] == levels[j0] && r[k] == levels[k0] && j0 < k0;
      }
    }
  }

  lemma UndisplayedAfterInsert(levels: seq<Level>, n: nat, slots: seq<Slot>, side: Side, p: nat, s: nat, q: nat)
    requires IsTopN(levels, n, slots, side) && FindPrice(levels, p) == |levels|
    requires InsertionPoint(levels, side, p) < n
    requires At(slots, side, q).orders > 0 && !Displayed(Insert(levels, n, side, p, s), q)
    ensures |Insert(levels, n, side, p, s)| == n && WorseThanAll(Insert(levels, n, side, p, s), side, q)
  {
    InsertShape(levels, n, side, p, s);
    InsertionOrder(levels, side, p);
    if Displayed(levels, q) {
      DroppedLevel(levels, n, side, p, s, q);
    } else {
      assert WorseThanAll(levels, side, q);
    }
  }

  /** A level that is not pushed off the end stays on display. */
  lemma KeptLevel(levels: seq<Level>, n: nat, side: Side, p: nat, s: nat, j: nat)
    requires |levels| <= n && FindPrice(levels, p) == |levels|
    requires InsertionPoint(levels, side, p) < n
    requires j < |levels| && (j < InsertionPoint(levels, side, p) || j + 1 < |Insert(levels, n, side, p, s)|)
    ensures Displayed(Insert(levels, n, side, p, s), levels[j].price)
  {
    InsertShape(levels, n, side, p, s);
    assert Insert(levels, n, side, p, s)[if j < InsertionPoint(levels, side, p) then j else j + 1] == levels[j];
  }

  /** Only the last level can fall off, and only when the list was full. */
  lemma DroppedLevel(levels: seq<Level>, n: nat, side: Side, p: nat, s: nat, q: nat)
    requires |levels| <= n && Sorted(levels, side) && FindPrice(levels, p) == |levels|
    requires InsertionPoint(levels, side, p) < n
    requires Displayed(levels, q) && !Displayed(Insert(levels, n, side, p, s), q)
    ensures |levels| == n && WorseThanAll(Insert(levels, n, side, p, s), side, q)
  {
    var i := InsertionPoint(levels, side, p);
    InsertShape(levels, n, side, p, s);
    InsertionOrder(levels, side, p);
    var j :| 0 <= j < |levels| && levels[j].price == q;
    if j < i || j + 1 < |Insert(levels, n, side, p, s)| {
      KeptLevel(levels, n, side, p, s, j);
    }
  }

  /** Where no orders rest there is no volume. */
  lemma {:induction false} AtNoOrders(slots: seq<Slot>, side: Side, p: nat)
    ensures At(slots, side, p).orders == 0 ==> At(slots, side, p).volume == 0
  {
    if slots != [] {
      AtNoOrders(slots[..|slots| - 1], side, p);
    }
  }

  /** Changes confined to one price that a full list leaves out do not disturb the list. */
  lemma HiddenChange(levels: seq<Level>, n: nat, slots: seq<Slot>, slots': seq<Slot>, side: Side, p: nat)
    requires IsTopN(levels, n, slots, side) && |levels| == n && WorseThanAll(levels, side, p)
    requires forall q: nat | q != p :: At(slots', side, q) == At(slots, side, q)
    ensures IsTopN(levels, n, slots', side)
  {
    forall i | 0 <= i < |levels| ensures Truthful(levels[i], slots', side) {
      assert Truthful(levels[i], slots, side);
    }
  }

  lemma SameDepth(levels: seq<Level>, n: nat, slots: seq<Slot>, slots': seq<Slot>, side: Side)
    requires IsTopN(levels, n, slots, side)
    requires forall q: nat :: At(slots', side, q) == At(slots, side, q)
    ensures IsTopN(levels, n, slots', side)
  {
    forall i | 0 <= i < |levels| ensures Truthful(levels[i], slots', side) {
      assert Truthful(levels[i], slots, side);
    }
  }

  /** A rescan produces the exact top-N of the table. */
  lemma {:induction false} RebuildIsTopN(slots: seq<Slot>, n: nat, side: Side)
    ensures IsTopN(Rebuild(slots, n, side), n, slots, side)
  {
    if slots != [] {
      var rest, last := slots[..|slots| - 1], slots[|slots| - 1];
      RebuildIsTopN(rest, n, side);
      var levels := Rebuild(rest, n, side);
      if last.Some? && last.value.side == side {
        InsertKeepsTopN(levels, n, rest, slots, side, last.value.price, last.value.shares);
      } else {
        SameDepth(levels, n, rest, slots, side);
      }
    }
  }

  /** Writing an order into the table (an overwritten one moving to the shadow) adds exactly
      that order to the depth the cache accounts for. */
  lemma AddDepth(table: seq<Slot>, shadow: seq<Slot>, i: nat, e: Entry, side: Side, q: nat)
    requires i < |table|
    ensures
      var shadow' := if table[i].Some? then shadow + [table[i]] else shadow;
      var before, after := At(table + shadow, side, q), At(table[i := Some(e)] + shadow', side, q);
      && after.orders == before.orders + Contribution(Some(e), side, q).orders
      && after.volume == before.volume + Contribution(Some(e), side, q).volume
  {
    var prior := table[i];
    var shadow' := if prior.Some? then shadow + [prior] else shadow;
    AtUpdate(table, i, Some(e), side, q);
    AtConcat(table, shadow, side, q);
    AtConcat(table[i := Some(e)], shadow', side, q);
    if prior.Some? {
      assert shadow'[..|shadow'| - 1] == shadow;
    }
  }

  lemma AddKeepsExact(b: Book, n: nat, shadow: seq<Slot>, m: Msg)
    requires b.table != [] && Exact(b, n, shadow) && IsAdd(m.kind)
    ensures Exact(Apply(b, n, m), n, NextShadow(b, n, shadow, m))
  {
    var i := Index(b.table, m.ref);
    var e := Entry(m.ref, m.side, m.price, m.shares);
    var after, shadow' := Apply(b, n, m), NextShadow(b, n, shadow, m);
    forall side: Side ensures IsTopN(after.Levels(side), n, after.table + shadow', side) {
      forall q: nat { AddDepth(b.table, shadow, i, e, side, q); }
      assert IsTopN(b.Levels(side), n, b.table + shadow, side);
      if side == m.side {
        InsertKeepsTopN(b.Levels(side), n, b.table + shadow, after.table + shadow', side, m.price, m.shares);
      } else {
        SameDepth(b.Levels(side), n, b.table + shadow, after.table + shadow', side);
      }
    }
  }

  /** An edit other than Replace changes the depth at the edited order's price only. */
  lemma EditDepth(table: seq<Slot>, shadow: seq<Slot>, m: Msg, side: Side, q: nat)
    requires table != [] && IsEdit(m.kind) && !m.kind.Replace? && Matches(table, m)
    requires var e := table[Index(table, m.ref)].value; side != e.side || q != e.price
    ensures At(Edited(table, m) + shadow, side, q) == At(table + shadow, side, q)
  {
    var i := Index(table, m.ref);
    var table' := Edited(table, m);
    assert table' == table[i := table'[i]];
    AtUpdate(table, i, table'[i], side, q);
    AtConcat(table, shadow, side, q);
    AtConcat(table', shadow, side, q);
  }

  /** Changes at the price of one order that is worse than the last level of a full cache. */
  lemma HiddenOrder(levels: seq<Level>, n: nat, slots: seq<Slot>, slots': seq<Slot>, side: Side, e: Entry)
    requires IsTopN(levels, n, slots, side)
    requires forall q: nat | side != e.side || q != e.price :: At(slots', side, q) == At(slots, side, q)
    requires side == e.side ==> |levels| == n && levels != [] && Better(side, levels[|levels| - 1].price, e.price)
    ensures IsTopN(levels, n, slots', side)
  {
    if side == e.side {
      HiddenChange(levels, n, slots, slots', side, e.price);
    } else {
      SameDepth(levels, n, slots, slots', side);
    }
  }

  lemma SkippedRescanKeepsSide(b: Book, n: nat, shadow: seq<Slot>, m: Msg, side: Side)
    requires b.table != [] && IsTopN(b.Levels(side), n, b.table + shadow, side)
    requires IsEdit(m.kind) && Matches(b.table, m) && !NeedsRescan(b, n, m)
    ensures IsTopN(b.Levels(side), n, Edited(b.table, m) + shadow, side)
  {
    var e := b.table[Index(b.table, m.ref)].value;
    forall q: nat | side != e.side || q != e.price
      ensures At(Edited(b.table, m) + shadow, side, q) == At(b.table + shadow, side, q)
    {
      EditDepth(b.table, shadow, m, side, q);
    }
    HiddenOrder(b.Levels(side), n, b.table + shadow, Edited(b.table, m) + shadow, side, e);
  }

  /** An edit that skips the rescan touched an order no full cache shows. */
  lemma SkippedRescanKeepsExact(b: Book, n: nat, shadow: seq<Slot>, m: Msg)
    requires b.table != [] && Exact(b, n, shadow)
    requires IsEdit(m.kind) && Matches(b.table, m) && !NeedsRescan(b, n, m)
    ensures Exact(b.(table := Edited(b.table, m)), n, shadow)
  {
    hide IsTopN, Edited, NeedsRescan;
    SkippedRescanKeepsSide(b, n, shadow, m, Bid);
    SkippedRescanKeepsSide(b, n, shadow, m, Ask);
  }

  lemma ApplyKeepsExact(b: Book, n: nat, shadow: seq<Slot>, m: Msg)
    requires b.table != [] && Exact(b, n, shadow)
    ensures Exact(Apply(b, n, m), n, NextShadow(b, n, shadow, m))
  {
    if IsAdd(m.kind) {
      AddKeepsExact(b, n, shadow, m);
    } else if IsEdit(m.kind) && Matches(b.table, m) {
      if NeedsRescan(b, n, m) {
        var table' := Edited(b.table, m);
        assert table' + [] == table';
        RebuildIsTopN(table', n, Bid);
        RebuildIsTopN(table', n, Ask);
      } else {
        SkippedRescanKeepsExact(b, n, shadow, m);
      }
    }
  }

  /** MAIN RESULT. After every message stream, aliasing references included, each side's cache is
      exactly the best n distinct prices, sizes summed, of the valid table entries together with
      the orders overwritten by an aliasing Add since the last rescan. */
  lemma {:induction false} CacheIsExact(depth: nat, n: nat, msgs: seq<Msg>)
    requires depth > 0
    ensures Exact(Run(depth, n, msgs), n, Shadow(depth, n, msgs))
  {
    if msgs == [] {
      var b := Empty(depth);
      forall side: Side ensures IsTopN(b.Levels(side), n, b.table + [], side) {
        forall q: nat { AtEmpty(b.table + [], side, q); }
      }
    } else {
      var before := msgs[..|msgs| - 1];
      CacheIsExact(depth, n, before);
      ApplyKeepsExact(Run(depth, n, before), n, Shadow(depth, n, before), msgs[|msgs| - 1]);
    }
  }

  // ---- when the cache shows the table alone ------------------------------------------------

  /** Every Add of the stream lands on a slot that is free at that moment. */
  ghost predicate NoAliasing(depth: nat, n: nat, msgs: seq<Msg>)
    requires depth > 0
  {
    forall k | 0 <= k < |msgs| && IsAdd(msgs[k].kind) ::
      var table := Run(depth, n, msgs[..k]).table; table[Index(table, msgs[k].ref)].None?
  }

  lemma {:induction false} NoAliasingNoShadow(depth: nat, n: nat, msgs: seq<Msg>)
    requires depth > 0 && NoAliasing(depth, n, msgs)
    ensures Shadow(depth, n, msgs) == []
  {
    if msgs != [] {
      var before := msgs[..|msgs| - 1];
      assert forall k | 0 <= k < |before| :: before[..k] == msgs[..k];
      NoAliasingNoShadow(depth, n, before);
    }
  }

  /** Without aliasing the incremental Adds, the skipped rescans and the performed ones all agree
      with rebuilding both caches from the table after every message. */
  lemma IncrementalEqualsRebuild(depth: nat, n: nat, msgs: seq<Msg>)
    requires depth > 0 && NoAliasing(depth, n, msgs)
    ensures Run(depth, n, msgs) == Rescanned(Run(depth, n, msgs).table, n)
  {
    var b := Run(depth, n, msgs);
    CacheIsExact(depth, n, msgs);
    NoAliasingNoShadow(depth, n, msgs);
    assert b.table + [] == b.table;
    assert IsTopN(b.Levels(Bid), n, b.table + [], Bid) && IsTopN(b.Levels(Ask), n, b.table + [], Ask);
    RebuildIsTopN(b.table, n, Bid);
    RebuildIsTopN(b.table, n, Ask);
    TopNUnique(b.bid, Rebuild(b.table, n, Bid), n, b.table, Bid);
    TopNUnique(b.ask, Rebuild(b.table, n, Ask), n, b.table, Ask);
  }

  /** Overwritten orders do not show in a list of what is left: they add nothing where they share a price
      with it, and are worse than all of it, with no place free, where they do not. */
  ghost predicate Unseen(levels: seq<Level>, n: nat, shadow: seq<Slot>, side: Side) {
    forall p: nat | At(shadow, side, p).orders > 0 ::
      if Displayed(levels, p) then At(shadow, side, p).volume == 0
      else |levels| == n && WorseThanAll(levels, side, p)
  }

  lemma DepthsAdd(table: seq<Slot>, shadow: seq<Slot>, side: Side)
    ensures forall q: nat ::
      && At(table + shadow, side, q).orders == At(table, side, q).orders + At(shadow, side, q).orders
      && At(table + shadow, side, q).volume == At(table, side, q).volume + At(shadow, side, q).volume
      && (At(shadow, side, q).orders == 0 ==> At(shadow, side, q).volume == 0)
  {
    forall q: nat
      ensures At(table + shadow, side, q).orders == At(table, side, q).orders + At(shadow, side, q).orders
      ensures At(table + shadow, side, q).volume == At(table, side, q).volume + At(shadow, side, q).volume
      ensures At(shadow, side, q).orders == 0 ==> At(shadow, side, q).volume == 0
    {
      AtConcat(table, shadow, side, q);
      AtNoOrders(shadow, side, q);
    }
  }

  lemma UnseenKeepsTopN(own: seq<Level>, n: nat, table: seq<Slot>, shadow: seq<Slot>, side: Side)
    requires IsTopN(own, n, table, side) && Unseen(own, n, shadow, side)
    ensures IsTopN(own, n, table + shadow, side)
  {
    DepthsAdd(table, shadow, side);
    forall i | 0 <= i < |own| ensures Truthful(own[i], table + shadow, side) {
      assert Truthful(own[i], table, side) && Displayed(own, own[i].price);
    }
  }

  lemma SharedTopNUnseen(own: seq<Level>, n: nat, table: seq<Slot>, shadow: seq<Slot>, side: Side)
    requires IsTopN(own, n, table, side) && IsTopN(own, n, table + shadow, side)
    ensures Unseen(own, n, shadow, side)
  {
    DepthsAdd(table, shadow, side);
    forall p: nat | At(shadow, side, p).orders > 0 && Displayed(own, p) ensures At(shadow, side, p).volume == 0 {
      var i :| 0 <= i < |own| && own[i].price == p;
      assert Truthful(own[i], table, side) && Truthful(own[i], table + shadow, side);
    }
  }

  /** With aliasing a cache may differ from the table. It is what a rebuild would give exactly when the
      orders overwritten since the last rescan do not show in the rebuilt list. */
  lemma TopNOfTableIff(depth: nat, n: nat, msgs: seq<Msg>, side: Side)
    requires depth > 0
    ensures
      var b := Run(depth, n, msgs);
      var own := Rebuild(b.table, n, side);
      b.Levels(side) == own <==> Unseen(own, n, Shadow(depth, n, msgs), side)
  {
    var b, shadow := Run(depth, n, msgs), Shadow(depth, n, msgs);
    CacheIsExact(depth, n, msgs);
    assert IsTopN(b.Levels(side), n, b.table + shadow, side);
    UnseenIff(b.Levels(side), n, b.table, shadow, side);
  }

  lemma UnseenIff(levels: seq<Level>, n: nat, table: seq<Slot>, shadow: seq<Slot>, side: Side)
    requires IsTopN(levels, n, table + shadow, side)
    ensures levels == Rebuild(table, n, side) <==> Unseen(Rebuild(table, n, side), n, shadow, side)
  {
    var own := Rebuild(table, n, side);
    RebuildIsTopN(table, n, side);
    if Unseen(own, n, shadow, side) {
      UnseenKeepsTopN(own, n, table, shadow, side);
      TopNUnique(levels, own, n, table + shadow, side);
    } else if levels == own {
      SharedTopNUnseen(own, n, table, shadow, side);
    }
  }

  /** Checked before an aliasing Add: the order about to be overwritten is not on display, or the new
      order pushes its level off a full list, or it holds no shares and does not rest alone. */
  predicate OverwritesUnseen(b: Book, n: nat, m: Msg)
    requires b.table != [] && b.table[Index(b.table, m.ref)].Some?
  {
    var e := b.table[Index(b.table, m.ref)].value;
    var levels := b.Levels(e.side);
    || FindPrice(levels, e.price) == |levels|
    || (m.side == e.side && PushesOff(levels, n, e.side, m.price, e.price))
    || (e.shares == 0 && ((m.side == e.side && m.price == e.price) || At(b.table, e.side, e.price).orders > 1))
  }

  /** Inserting at p drops the level at q, the last of a full list. */
  predicate PushesOff(levels: seq<Level>, n: nat, side: Side, p: nat, q: nat) {
    && levels != [] && |levels| == n && levels[n - 1].price == q
    && FindPrice(levels, p) == |levels| && Better(side, p, q)
  }

  lemma FindPriceIff(levels: seq<Level>, p: nat)
    ensures FindPrice(levels, p) < |levels| <==> Displayed(levels, p)
  {
    if FindPrice(levels, p) < |levels| {
      assert levels[FindPrice(levels, p)].price == p;
    }
  }

  /** The prices of a list after room has been made for p. */
  lemma DisplayedAfterSplice(levels: seq<Level>, n: nat, side: Side, p: nat, s: nat, q: nat)
    requires |levels| <= n && Sorted(levels, side) && FindPrice(levels, p) == |levels|
    requires InsertionPoint(levels, side, p) < n
    ensures Displayed(Insert(levels, n, side, p, s), q) <==>
      q == p || (Displayed(levels, q) && !PushesOff(levels, n, side, p, q))
  {
    hide Insert, InsertionPoint, FindPrice;
    var i, r := InsertionPoint(levels, side, p), Insert(levels, n, side, p, s);
    InsertShape(levels, n, side, p, s);
    InsertionOrder(levels, side, p);
    assert r[i].price == p;
    if Displayed(levels, q) {
      var j :| 0 <= j < |levels| && levels[j].price == q;
      if j < i || j + 1 < |r| {
        KeptLevel(levels, n, side, p, s, j);
      }
    }
    if Displayed(r, q) && q != p {
      var k :| 0 <= k < |r| && r[k].price == q;
      var j := if k < i then k else k - 1;
      assert levels[j].price == q;
    }
  }

  /** A price with orders stays on display unless the insertion pushes it off. */
  lemma DisplayedAfterInsert(levels: seq<Level>, n: nat, slots: seq<Slot>, side: Side, p: nat, s: nat, q: nat)
    requires IsTopN(levels, n, slots, side) && At(slots, side, q).orders > 0
    ensures Displayed(Insert(levels, n, side, p, s), q) <==> Displayed(levels, q) && !PushesOff(levels, n, side, p, q)
  {
    FindPriceIff(levels, p);
    if FindPrice(levels, p) < |levels| {
      var r := Insert(levels, n, side, p, s);
      assert |r| == |levels| && forall j | 0 <= j < |levels| :: r[j].price == levels[j].price;
    } else if InsertionPoint(levels, side, p) < n {
      DisplayedAfterSplice(levels, n, side, p, s, q);
      InsertionOrder(levels, side, p);
    }
  }

  /** On top of a book that shows its table, an Add that overwrites an order leaves a book that shows its
      table exactly when the overwritten order was unseen. */
  lemma AliasingAddIff(b: Book, n: nat, m: Msg)
    requires b.table != [] && b == Rescanned(b.table, n)
    requires IsAdd(m.kind) && b.table[Index(b.table, m.ref)].Some?
    ensures
      var r := Apply(b, n, m);
      r == Rescanned(r.table, n) <==> OverwritesUnseen(b, n, m)
  {
    hide IsTopN, Rebuild, Insert, OverwritesUnseen, Unseen, Edited, Matches;
    var i := Index(b.table, m.ref);
    var prior, r := b.table[i], Apply(b, n, m);
    var e := prior.value;
    assert b.table + [] == b.table;
    RebuildIsTopN(b.table, n, Bid);
    RebuildIsTopN(b.table, n, Ask);
    assert Exact(b, n, []);
    ApplyKeepsExact(b, n, [], m);
    assert NextShadow(b, n, [], m) == [] + [prior] == [prior];
    assert IsTopN(r.Levels(Bid), n, r.table + [prior], Bid) && IsTopN(r.Levels(Ask), n, r.table + [prior], Ask);
    var other := if e.side.Bid? then Ask else Bid;
    OtherSideUnseen(prior, other);
    UnseenIff(r.Levels(other), n, r.table, [prior], other);
    OverwrittenIff(b, n, m);
  }

  lemma OtherSideUnseen(slot: Slot, side: Side)
    requires slot.Some? && slot.value.side != side
    ensures forall levels: seq<Level>, n: nat :: Unseen(levels, n, [slot], side)
  {
    assert [slot][..0] == [];
    assert forall p: nat :: At([slot], side, p).orders == 0;
  }

  /** The side of the overwritten order. */
  lemma OverwrittenIff(b: Book, n: nat, m: Msg)
    requires b.table != [] && b == Rescanned(b.table, n)
    requires IsAdd(m.kind) && b.table[Index(b.table, m.ref)].Some?
    requires
      var r, prior := Apply(b, n, m), b.table[Index(b.table, m.ref)];
      IsTopN(r.Levels(prior.value.side), n, r.table + [prior], prior.value.side)
    ensures
      var r, side := Apply(b, n, m), b.table[Index(b.table, m.ref)].value.side;
      r.Levels(side) == Rebuild(r.table, n, side) <==> OverwritesUnseen(b, n, m)
  {
    var i := Index(b.table, m.ref);
    var prior, r := b.table[i], Apply(b, n, m);
    var e := prior.value;
    var side, levels, levels' := e.side, b.Levels(e.side), r.Levels(e.side);
    RebuildIsTopN(b.table, n, side);
    OwnOrder(b.table, i);
    AtUpdate(b.table, i, Some(Entry(m.ref, m.side, m.price, m.shares)), side, e.price);
    FindPriceIff(levels, e.price);
    if m.side == side {
      DisplayedAfterInsert(levels, n, b.table, side, m.price, m.shares, e.price);
    }
    OneOverwritten(levels', n, r.table, prior);
  }

  lemma OwnOrder(table: seq<Slot>, i: nat)
    requires i < |table| && table[i].Some?
    ensures At(table, table[i].value.side, table[i].value.price).orders >= 1
  {
    var e := table[i].value;
    AtUpdate(table, i, None, e.side, e.price);
  }

  /** A list that counts one overwritten order shows the table exactly when that order's price is not on
      it, or has other orders and gains no shares from it. */
  lemma OneOverwritten(levels: seq<Level>, n: nat, table: seq<Slot>, prior: Slot)
    requires prior.Some? && IsTopN(levels, n, table + [prior], prior.value.side)
    ensures
      var e := prior.value;
      levels == Rebuild(table, n, e.side) <==>
        !Displayed(levels, e.price) || (e.shares == 0 && At(table, e.side, e.price).orders > 0)
  {
    var e, own := prior.value, Rebuild(table, n, prior.value.side);
    assert [prior][..0] == [];
    RebuildIsTopN(table, n, e.side);
    DepthsAdd(table, [prior], e.side);
    forall j | 0 <= j < |levels|
      ensures Truthful(levels[j], table, e.side) <==>
        levels[j].price != e.price || (e.shares == 0 && At(table, e.side, e.price).orders > 0)
    {
      assert Truthful(levels[j], table + [prior], e.side);
    }
    if IsTopN(levels, n, table, e.side) {
      TopNUnique(levels, own, n, table, e.side);
    }
  }

  /** A concrete aliasing stream: the second Add overwrites the first, whose price stays on display. */
  lemma AliasingLeavesStaleLevel()
    ensures
      var msgs := [Msg(Add, 0, 1, Bid, 5, 10, 1), Msg(Add, 0, 257, Bid, 7, 20, 257)];
      var b := Run(256, 4, msgs);
      b.bid == [Level(20, 7), Level(10, 5)] && !IsTopN(b.bid, 4, b.table, Bid)
  {
    var m0, m1 := Msg(Add, 0, 1, Bid, 5, 10, 1), Msg(Add, 0, 257, Bid, 7, 20, 257);
    var msgs := [m0, m1];
    assert msgs[..1] == [m0] && [m0][..0] == [];
    var b0, b1, b := Run(256, 4, []), Run(256, 4, [m0]), Run(256, 4, msgs);
    assert b1 == Apply(b0, 4, m0) && b == Apply(b1, 4, m1);
    assert b1.bid == [Level(10, 5)];
    assert b.bid == [Level(20, 7), Level(10, 5)];
    var e := Some(Entry(257, Bid, 20, 7));
    assert b.table == b0.table[1 := e];
    AtUpdate(b0.table, 1, e, Bid, 10);
    AtEmpty(b0.table, Bid, 10);
    assert !Truthful(b.bid[1], b.table, Bid);
  }

  /** A rescan forgets every overwritten order. */
  lemma RescanForgetsShadow(depth: nat, n: nat, msgs: seq<Msg>, m: Msg)
    requires depth > 0 && NeedsRescan(Run(depth, n, msgs), n, m)
    ensures
      var b := Run(depth, n, msgs + [m]);
      IsTopN(b.bid, n, b.table, Bid) && IsTopN(b.ask, n, b.table, Ask)
  {
    assert (msgs + [m])[..|msgs|] == msgs;
    CacheIsExact(depth, n, msgs + [m]);
    var b := Run(depth, n, msgs + [m]);
    assert b.table + [] == b.table;
    assert IsTopN(b.Levels(Bid), n, b.table + [], Bid) && IsTopN(b.Levels(Ask), n, b.table + [], Ask);
  }

  // ---- what consumers see ------------------------------------------------------------------

  datatype Snapshot = Snapshot(bidPrice: nat, bidSize: nat, askPrice: nat, askSize: nat, valid: bool,
                               bidSizes: seq<nat>, askSizes: seq<nat>)

  const NO_ASK: nat := 0xFFFF_FFFF

  function Sizes(levels: seq<Level>, n: nat): (r: seq<nat>)
    ensures |r| == n
  {
    seq(n, i requires 0 <= i => if i < |levels| then levels[i].size else 0)
  }

  /** The price column of one side, with a filler beyond the populated levels. */
  function Prices(levels: seq<Level>, n: nat, filler: nat): (r: seq<nat>)
    ensures |r| == n
  {
    seq(n, i requires 0 <= i => if i < |levels| then levels[i].price else filler)
  }

  /** The book outputs, from the two caches. */
  function View(bid: seq<Level>, ask: seq<Level>, n: nat): Snapshot {
    Snapshot(
      if bid != [] then bid[0].price else 0, if bid != [] then bid[0].size else 0,
      if ask != [] then ask[0].price else NO_ASK, if ask != [] then ask[0].size else 0,
      bid != [] && ask != [], Sizes(bid, n), Sizes(ask, n))
  }
}
