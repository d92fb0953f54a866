/** The untimed reference book as the mutable object it is: in-place level arrays, a slot table,
    and cache objects replaced by a rescan. Each method is proved against module Book. */
module BookGolden {
  import opened Messages
  import opened Depth
  import B = Book

  /** Read two parallel arrays as levels. */
  function Zip(price: seq<nat>, size: seq<nat>): (r: seq<Level>)
    requires |price| == |size|
    ensures |r| == |price|
  {
    seq(|price|, i requires 0 <= i < |price| => Level(price[i], size[i]))
  }

  class SideCache {
    const n: nat
    const side: Side
    const price: array<nat>
    const size: array<nat>
    var cnt: nat

    ghost predicate Valid()
      reads this
    {
      price.Length == n && size.Length == n && price != size && cnt <= n
    }

    ghost function Levels(): seq<Level>
      requires Valid()
      reads this, price, size
    {
      Zip(price[..cnt], size[..cnt])
    }

    constructor (n: nat, side: Side)
      ensures Valid() && this.n == n && this.side == side && Levels() == []
      ensures fresh(price) && fresh(size)
    {
      this.n, this.side, this.cnt := n, side, 0;
      this.price := new nat[n](_ => 0);
      this.size := new nat[n](_ => 0);
    }

    method Insert(p: nat, s: nat)
      requires Valid()
      modifies this, price, size
      ensures Valid() && Levels() == B.Insert(old(Levels()), n, side, p, s)
    {
      ghost var levels := Levels();
      for i := 0 to n
        invariant Levels() == levels && cnt == old(cnt)
        invariant forall j | 0 <= j < i && j < cnt :: levels[j].price != p
      {
        if i < cnt && price[i] == p {
          assert levels[i].price == p && B.FindPrice(levels, p) == i;
          size[i] := size[i] + s;
          assert Levels() == levels[i := Level(p, levels[i].size + s)];
          return;
        }
      }
      assert B.FindPrice(levels, p) == cnt;
      var ins := cnt;
      for i := 0 to n
        invariant Levels() == levels && cnt == old(cnt) && ins == cnt
        invariant forall j | 0 <= j < i && j < cnt :: !Better(side, p, levels[j].price)
      {
        if i < cnt && Better(side, p, price[i]) {
          ins := i;
          assert Better(side, p, levels[i].price);
          break;
        }
      }
      assert ins == B.InsertionPoint(levels, side, p);
      if ins < n {
        PlaceAt(ins, p, s);
      }
    }

    /** Put a new level at `ins`, as the value-level insertion does. */
    method PlaceAt(ins: nat, p: nat, s: nat)
      requires Valid() && ins <= cnt && ins < n
      modifies this, price, size
      ensures Valid()
      ensures Levels() == B.Take(B.Splice(old(Levels()), ins, Level(p, s)), n)
    {
      hide B.Splice, B.Take;
      ghost var levels := Levels();
      FillGap(ins, p, s);
      B.Spliced(levels, ins, Level(p, s), n, Levels());
    }

    /** Make room at `ins` and write there. */
    method FillGap(ins: nat, p: nat, s: nat)
      requires Valid() && ins <= cnt && ins < n
      modifies this, price, size
      ensures Valid() && cnt == if old(cnt) < n then old(cnt) + 1 else n
      ensures Levels()[ins] == Level(p, s) && forall j | 0 <= j < ins :: Levels()[j] == old(Levels())[j]
      ensures forall j | ins < j < cnt :: Levels()[j] == old(Levels())[j - 1]
    {
      ghost var levels := Levels();
      OpenGap(ins);
      price[ins] := p;
      size[ins] := s;
      if cnt < n {
        cnt := cnt + 1;
      }
      forall j | 0 <= j < ins ensures Levels()[j] == levels[j] {}
      forall j | ins < j < cnt ensures Levels()[j] == levels[j - 1] {
        assert price[j] == old(price[j - 1]) && size[j] == old(size[j - 1]);
      }
    }

    /** Shift levels ins.. one place down; the last one falls off. */
    method OpenGap(ins: nat)
      requires Valid() && ins < n
      modifies price, size
      ensures forall j | 0 <= j < ins :: price[j] == old(price[j]) && size[j] == old(size[j])
      ensures forall j | ins < j < n :: price[j] == old(price[j - 1]) && size[j] == old(size[j - 1])
    {
      var i := n - 1;
      while i > ins
        invariant ins <= i < n
        invariant forall j | 0 <= j <= i :: price[j] == old(price[j]) && size[j] == old(size[j])
        invariant forall j | i < j < n :: price[j] == old(price[j - 1]) && size[j] == old(size[j - 1])
      {
        price[i] := price[i - 1];
        size[i] := size[i - 1];
        i := i - 1;
      }
    }

    /** The worst displayed price, or what lies in slot 0 of an empty side. */
    method WorstPrice() returns (p: nat)
      requires Valid() && n > 0
      ensures p == if Levels() != [] then Levels()[|Levels()| - 1].price else price[0]
    {
      p := price[if cnt != 0 then cnt - 1 else 0];
    }
  }

  /** Slots as the book sees them: an entry counts only while its valid bit is set. */
  function Masked(valid: seq<bool>, entries: seq<Slot>): (r: seq<Slot>)
    requires |valid| == |entries|
    ensures |r| == |valid|
  {
    seq(|valid|, i requires 0 <= i < |valid| => if valid[i] then entries[i] else None)
  }

  /** Two separate caches that hold the rebuild of a table prefix. */
  ghost predicate Pair(b: SideCache, a: SideCache, n: nat, prefix: seq<Slot>)
    reads b, b.price, b.size, a, a.price, a.size
  {
    && b.Valid() && b.n == n && b.side == Bid && a.Valid() && a.n == n && a.side == Ask
    && b != a && {b.price, b.size} !! {a.price, a.size}
    && b.Levels() == B.Rebuild(prefix, n, Bid) && a.Levels() == B.Rebuild(prefix, n, Ask)
  }

  /** Insert one slot of the walk into the side it belongs to. */
  method FoldSlot(b: SideCache, a: SideCache, n: nat, slot: Slot, ghost prefix: seq<Slot>)
    requires Pair(b, a, n, prefix)
    modifies b, b.price, b.size, a, a.price, a.size
    ensures Pair(b, a, n, prefix + [slot])
  {
    assert (prefix + [slot])[..|prefix|] == prefix;
    if slot.Some? {
      if slot.value.side.Bid? {
        b.Insert(slot.value.price, slot.value.shares);
      } else {
        a.Insert(slot.value.price, slot.value.shares);
      }
    }
  }

  class OrderBookM2 {
    const depth: nat
    const n: nat
    const entries: array<Slot>
    const entryValid: array<bool>
    var bid: SideCache
    var ask: SideCache

    ghost function Repr(): set<object>
      reads this
    {
      {this, entries, entryValid, bid, bid.price, bid.size, ask, ask.price, ask.size}
    }

    ghost predicate Valid()
      reads this, entries, entryValid, bid, ask
    {
      && depth > 0 && n > 0
      && entries.Length == depth && entryValid.Length == depth
      && bid.Valid() && ask.Valid() && bid.n == n && ask.n == n && bid.side == Bid && ask.side == Ask
      && bid != ask && {bid.price, bid.size} !! {ask.price, ask.size}
      && (forall i | 0 <= i < depth && entryValid[i] :: entries[i].Some?)
    }

    ghost function Value(): B.Book
      requires Valid()
      reads this, bid, ask, entries, entryValid, Repr()
    {
      B.Book(Masked(entryValid[..], entries[..]), bid.Levels(), ask.Levels())
    }

    constructor (orderDepth: nat, nlevels: nat)
      requires orderDepth > 0 && nlevels > 0
      ensures Valid() && fresh(Repr()) && n == nlevels && depth == orderDepth
      ensures Value() == B.Empty(orderDepth)
    {
      depth, n := orderDepth, nlevels;
      entries := new Slot[orderDepth](_ => None);
      entryValid := new bool[orderDepth](_ => false);
      bid := new SideCache(nlevels, Bid);
      ask := new SideCache(nlevels, Ask);
    }

    /** Rebuild both caches from every valid entry. */
    method Rescan()
      requires Valid()
      modifies this
      ensures Valid() && fresh({bid, bid.price, bid.size, ask, ask.price, ask.size})
      ensures Value() == B.Rescanned(old(Value()).table, n)
    {
      hide B.Insert;
      ghost var table := Masked(entryValid[..], entries[..]);
      var b := new SideCache(n, Bid);
      var a := new SideCache(n, Ask);
      for idx := 0 to depth
        invariant Pair(b, a, n, table[..idx])
      {
        assert table[..idx + 1] == table[..idx] + [table[idx]];
        FoldSlot(b, a, n, if entryValid[idx] then entries[idx] else None, table[..idx]);
      }
      assert table[..depth] == table;
      bid, ask := b, a;
    }

    method AffectsDisplayed(e: Entry) returns (r: bool)
      requires Valid()
      ensures r == B.AffectsDisplayed(Value(), n, e)
    {
      var c := if e.side.Ask? then ask else bid;
      var worst := c.WorstPrice();
      r := c.cnt != n || (if e.side.Ask? then e.price <= worst else e.price >= worst);
    }

    method Apply(m: Msg)
      requires Valid()
      modifies Repr()
      ensures Valid() && fresh(Repr() - old(Repr()))
      ensures Value() == B.Apply(old(Value()), n, m)
    {
      hide B.Edited, B.Insert, B.Rebuild;
      var idx := m.ref % depth;
      if IsAdd(m.kind) {
        Add(m);
        return;
      }
      if m.kind.Trade? {
        return;
      }
      if !(entryValid[idx] && entries[idx].value.ref == m.ref) {
        return;
      }
      var affects := AffectsDisplayed(entries[idx].value);
      var rescan := m.kind.Replace? || affects;
      Edit(m);
      if rescan {
        Rescan();
      }
    }

    method Add(m: Msg)
      requires Valid() && IsAdd(m.kind)
      modifies entries, entryValid, bid, bid.price, bid.size, ask, ask.price, ask.size
      ensures Valid() && Value() == B.Apply(old(Value()), n, m)
    {
      var idx := m.ref % depth;
      ghost var table := Value().table;
      entries[idx] := Some(Entry(m.ref, m.side, m.price, m.shares));
      entryValid[idx] := true;
      assert Value().table == table[idx := entries[idx]];
      if m.side.Bid? {
        bid.Insert(m.price, m.shares);
      } else {
        ask.Insert(m.price, m.shares);
      }
    }

    /** The structural change a matching edit makes to the table. */
    method Edit(m: Msg)
      requires Valid() && IsEdit(m.kind) && B.Matches(Value().table, m)
      modifies entries, entryValid
      ensures Valid() && Value() == old(Value()).(table := B.Edited(old(Value()).table, m))
    {
      var idx := m.ref % depth;
      var orig := entries[idx].value;
      if IsReduce(m.kind) {
        if orig.shares > m.shares {
          entries[idx] := Some(orig.(shares := orig.shares - m.shares));
        } else {
          entryValid[idx] := false;
        }
      } else if m.kind.Delete? {
        entryValid[idx] := false;
      } else {
        var nidx := m.newRef % depth;
        entryValid[idx] := false;
        entries[nidx] := Some(Entry(m.newRef, orig.side, m.price, m.shares));
        entryValid[nidx] := true;
      }
    }

    method Snapshot() returns (s: B.Snapshot)
      requires Valid()
      ensures s == B.View(Value().bid, Value().ask, n)
    {
      var bidSizes := LevelSizes(bid);
      var askSizes := LevelSizes(ask);
      s := B.Snapshot(
        if bid.cnt != 0 then bid.price[0] else 0, if bid.cnt != 0 then bid.size[0] else 0,
        if ask.cnt != 0 then ask.price[0] else B.NO_ASK, if ask.cnt != 0 then ask.size[0] else 0,
        bid.cnt > 0 && ask.cnt > 0, bidSizes, askSizes);
    }

    method LevelSizes(c: SideCache) returns (r: seq<nat>)
      requires c.Valid()
      ensures r == B.Sizes(c.Levels(), c.n)
    {
      r := [];
      for i := 0 to c.n
        invariant |r| == i && forall j | 0 <= j < i :: r[j] == B.Sizes(c.Levels(), c.n)[j]
      {
        r := r + [if i < c.cnt then c.size[i] else 0];
      }
    }
  }
}
