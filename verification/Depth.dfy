/** What a price-level cache is supposed to show: an independent account of market depth,
    stated pointwise over a collection of orders, with no reference to how it is cached. */
module Depth {
  import opened Messages

  datatype Entry = Entry(ref: nat, side: Side, price: nat, shares: nat)
  type Slot = Option<Entry>

  datatype Level = Level(price: nat, size: nat)

  /** How many orders rest at one price, and how many shares they hold together. */
  datatype Interest = Interest(orders: nat, volume: nat)

  /** p is a strictly better price than q on this side. */
  predicate Better(side: Side, p: nat, q: nat) {
    if side.Bid? then p > q else p < q
  }

  function Contribution(slot: Slot, side: Side, p: nat): Interest {
    if slot.Some? && slot.value.side == side && slot.value.price == p
    then Interest(1, slot.value.shares)
    else Interest(0, 0)
  }

  /** Total interest at price p on one side, over all occupied slots. */
  function At(slots: seq<Slot>, side: Side, p: nat): Interest {
    if slots == [] then Interest(0, 0)
    else
      var rest := At(slots[..|slots| - 1], side, p);
      var last := Contribution(slots[|slots| - 1], side, p);
      Interest(rest.orders + last.orders, rest.volume + last.volume)
  }

  ghost predicate Sorted(levels: seq<Level>, side: Side) {
    forall i, j | 0 <= i < j < |levels| :: Better(side, levels[i].price, levels[j].price)
  }

  ghost predicate Displayed(levels: seq<Level>, p: nat) {
    exists i | 0 <= i < |levels| :: levels[i].price == p
  }

  ghost predicate WorseThanAll(levels: seq<Level>, side: Side, p: nat) {
    forall i | 0 <= i < |levels| :: Better(side, levels[i].price, p)
  }

  /** The level carries a price some order rests at, with the full volume there. */
  ghost predicate Truthful(level: Level, slots: seq<Slot>, side: Side) {
    At(slots, side, level.price).orders > 0 && At(slots, side, level.price).volume == level.size
  }

  /** `levels` is exactly the best n distinct prices of the orders in `slots`: best first, volumes
      summed, and nothing left out unless all n places are taken by better prices. */
  ghost predicate IsTopN(levels: seq<Level>, n: nat, slots: seq<Slot>, side: Side) {
    && |levels| <= n
    && Sorted(levels, side)
    && (forall i | 0 <= i < |levels| :: Truthful(levels[i], slots, side))
    && (forall p: nat | At(slots, side, p).orders > 0 && !Displayed(levels, p) ::
          |levels| == n && WorseThanAll(levels, side, p))
  }

  lemma {:induction false} AtUpdate(slots: seq<Slot>, i: nat, slot: Slot, side: Side, p: nat)
    requires i < |slots|
    ensures At(slots[i := slot], side, p).orders + Contribution(slots[i], side, p).orders
         == At(slots, side, p).orders + Contribution(slot, side, p).orders
    ensures At(slots[i := slot], side, p).volume + Contribution(slots[i], side, p).volume
         == At(slots, side, p).volume + Contribution(slot, side, p).volume
  {
    var last := |slots| - 1;
    if i == last {
      assert slots[i := slot][..last] == slots[..last];
    } else {
      assert slots[i := slot][..last] == slots[..last][i := slot];
      AtUpdate(slots[..last], i, slot, side, p);
    }
  }

  lemma {:induction false} AtConcat(a: seq<Slot>, b: seq<Slot>, side: Side, p: nat)
    ensures At(a + b, side, p).orders == At(a, side, p).orders + At(b, side, p).orders
    ensures At(a + b, side, p).volume == At(a, side, p).volume + At(b, side, p).volume
  {
    if b == [] {
      assert a + b == a;
    } else {
      assert (a + b)[..|a + b| - 1] == a + b[..|b| - 1];
      AtConcat(a, b[..|b| - 1], side, p);
    }
  }

  lemma {:induction false} AtEmpty(slots: seq<Slot>, side: Side, p: nat)
    requires forall i | 0 <= i < |slots| :: slots[i].None?
    ensures At(slots, side, p) == Interest(0, 0)
  {
    if slots != [] {
      AtEmpty(slots[..|slots| - 1], side, p);
    }
  }

  /** A price that one exact list shows at position k, and that is not among the first k of the
      other, cannot be missing from the other nor beat what the other shows at k. */
  lemma NotAhead(a: seq<Level>, b: seq<Level>, n: nat, slots: seq<Slot>, side: Side, k: nat)
    requires IsTopN(a, n, slots, side) && IsTopN(b, n, slots, side)
    requires k < |a| && k <= |b| && forall i | 0 <= i < k :: a[i] == b[i]
    ensures k < |b| && !Better(side, a[k].price, b[k].price)
  {
    var p := a[k].price;
    assert Truthful(a[k], slots, side);
  }

  lemma SameNext(a: seq<Level>, b: seq<Level>, n: nat, slots: seq<Slot>, side: Side, k: nat)
    requires IsTopN(a, n, slots, side) && IsTopN(b, n, slots, side)
    requires k < |a| && k <= |b| && forall i | 0 <= i < k :: a[i] == b[i]
    ensures k < |b| && a[k] == b[k]
  {
    NotAhead(a, b, n, slots, side, k);
    NotAhead(b, a, n, slots, side, k);
    assert a[k].price == b[k].price;
    assert Truthful(a[k], slots, side) && Truthful(b[k], slots, side);
  }

  lemma {:induction false} CommonPrefix(a: seq<Level>, b: seq<Level>, n: nat, slots: seq<Slot>, side: Side, k: nat)
    requires IsTopN(a, n, slots, side) && IsTopN(b, n, slots, side)
    requires k <= |a|
    ensures k <= |b| && forall i | 0 <= i < k :: a[i] == b[i]
  {
    if k > 0 {
      CommonPrefix(a, b, n, slots, side, k - 1);
      SameNext(a, b, n, slots, side, k - 1);
    }
  }

  /** The top-N list of a collection of orders is unique. */
  lemma TopNUnique(a: seq<Level>, b: seq<Level>, n: nat, slots: seq<Slot>, side: Side)
    requires IsTopN(a, n, slots, side) && IsTopN(b, n, slots, side)
    ensures a == b
  {
    CommonPrefix(a, b, n, slots, side, |a|);
    CommonPrefix(b, a, n, slots, side, |b|);
  }
}
