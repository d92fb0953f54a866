/** The replay-stream generator: its map of live orders and pool of free references, and the proof
    that the golden book, fed the generated bytes, always holds exactly the live orders. */
module Replay {
  import opened Bits
  import opened Messages
  import opened Depth
  import I = Itch
  import S = Synth
  import B = Book

  const MID: nat := 1_500_000
  const TICK: nat := 100
  const FIRST_TS: nat := 34_200_000_000_000
  const BOOK_DEPTH: nat := 256

  datatype Order = Order(side: Side, price: nat, shares: nat)

  datatype Gen = Gen(free: seq<nat>, live: map<nat, Order>, msgs: seq<Msg>)

  /** One pass through the generator loop: everything it may draw. `ref` is the live order drawn. */
  datatype Draw = Draw(r: real, ref: nat, side: Side, level: nat, addShares: nat, cancelAll: bool, replaceShares: nat)

  predicate Possible(g: Gen, c: Draw) {
    && 0.0 <= c.r < 1.0
    && 1 <= c.level <= 4
    && c.addShares in {100, 200, 300, 500, 1000, 2500}
    && c.replaceShares in {100, 200, 400, 800}
    && (|g.live| > 0 ==> c.ref in g.live)
  }

  function PickPrice(side: Side, level: nat): nat
    requires level <= 4
  {
    if side.Bid? then MID - level * TICK else MID + level * TICK
  }

  /** The time stamp of the message about to be emitted. */
  function NextTime(g: Gen): nat { FIRST_TS + 1000 * (|g.msgs| + 1) }

  function Emit(g: Gen, m: Msg): Gen { g.(msgs := g.msgs + [m.(timestamp := NextTime(g))]) }

  /** Take q shares off a live order; an exhausted order frees its reference. */
  function Reduced(g: Gen, ref: nat, q: nat): Gen
    requires ref in g.live
  {
    var o := g.live[ref];
    if q >= o.shares then Gen(g.free + [ref], g.live - {ref}, g.msgs)
    else g.(live := g.live[ref := o.(shares := o.shares - q)])
  }

  function Half(sh: nat): nat { Max(1, sh / 2) }
  function Third(sh: nat): nat { Max(1, sh / 3) }

  datatype Branch = DoAdd | DoExecute | DoCancel | DoDelete | DoReplace | DoNothing

  function Chosen(g: Gen, c: Draw): Branch {
    if (c.r < 0.55 || |g.live| < 8) && g.free != [] then DoAdd
    else if |g.live| > 0 && c.r < 0.70 then DoExecute
    else if |g.live| > 0 && c.r < 0.82 then DoCancel
    else if |g.live| > 0 && c.r < 0.92 then DoDelete
    else if |g.live| > 0 && g.free != [] then DoReplace
    else DoNothing
  }

  function Adding(g: Gen, c: Draw): Gen
    requires g.free != [] && c.level <= 4
  {
    var n := |g.free| - 1;
    var ref, price := g.free[n], PickPrice(c.side, c.level);
    Emit(g, Msg(Add, 0, ref, c.side, c.addShares, price, ref)).(
      free := g.free[..n], live := g.live[ref := Order(c.side, price, c.addShares)])
  }

  function Executing(g: Gen, ref: nat): Gen
    requires ref in g.live
  {
    var ex := Half(g.live[ref].shares);
    Reduced(Emit(g, Msg(Execute, 0, ref, Bid, ex, 0, ref)), ref, ex)
  }

  function Cancelling(g: Gen, ref: nat, all: bool): Gen
    requires ref in g.live
  {
    var cx := if all then g.live[ref].shares else Third(g.live[ref].shares);
    Reduced(Emit(g, Msg(Cancel, 0, ref, Bid, cx, 0, ref)), ref, cx)
  }

  function Deleting(g: Gen, ref: nat): Gen
    requires ref in g.live
  {
    Emit(g, Msg(Delete, 0, ref, Bid, 0, 0, ref)).(free := g.free + [ref], live := g.live - {ref})
  }

  /** Replace takes a new reference from the pool and does not give the old one back. */
  function Replacing(g: Gen, c: Draw): Gen
    requires g.free != [] && c.level <= 4 && c.ref in g.live
  {
    var n := |g.free| - 1;
    var side := g.live[c.ref].side;
    var nref, price := g.free[n], PickPrice(side, c.level);
    Emit(g, Msg(Replace, 0, c.ref, Bid, c.replaceShares, price, nref)).(
      free := g.free[..n], live := (g.live - {c.ref})[nref := Order(side, price, c.replaceShares)])
  }

  function Next(g: Gen, c: Draw): Gen
    requires Possible(g, c)
  {
    match Chosen(g, c)
    case DoAdd => Adding(g, c)
    case DoExecute => Executing(g, c.ref)
    case DoCancel => Cancelling(g, c.ref, c.cancelAll)
    case DoDelete => Deleting(g, c.ref)
    case DoReplace => Replacing(g, c)
    case DoNothing => g
  }

  // ---- what every run keeps ------------------------------------------------------------------

  /** Live and free references are distinct, disjoint, within 1..255, and together at least 8. */
  ghost predicate Sound(g: Gen) {
    && (forall i | 0 <= i < |g.free| :: 1 <= g.free[i] <= 255 && g.free[i] !in g.live)
    && (forall i, j | 0 <= i < j < |g.free| :: g.free[i] != g.free[j])
    && (forall ref | ref in g.live :: 1 <= ref <= 255 && 1 <= g.live[ref].shares < TWO32 && g.live[ref].price < TWO32)
    && |g.live| + |g.free| >= 8
  }

  /** A shuffled pool of all references 1..255 and no orders. */
  ghost predicate Initial(g: Gen) {
    && g.live == map[] && g.msgs == [] && |g.free| == 255
    && (forall i | 0 <= i < 255 :: 1 <= g.free[i] <= 255)
    && (forall i, j | 0 <= i < j < 255 :: g.free[i] != g.free[j])
  }

  lemma Sizes(live: map<nat, Order>, ref: nat, o: Order)
    ensures ref in live ==> |live - {ref}| == |live| - 1 && |live[ref := o]| == |live|
    ensures ref !in live ==> |live[ref := o]| == |live| + 1
  {
    assert |live| == |live.Keys|;
    assert (live - {ref}).Keys == live.Keys - {ref};
    assert live[ref := o].Keys == live.Keys + {ref};
  }

  lemma ReducedSound(g: Gen, ref: nat, q: nat)
    requires Sound(g) && ref in g.live && q >= 1
    ensures Sound(Reduced(g, ref, q))
  {
    Sizes(g.live, ref, g.live[ref].(shares := if q >= g.live[ref].shares then 0 else g.live[ref].shares - q));
  }

  lemma AddingSound(g: Gen, c: Draw)
    requires Sound(g) && Possible(g, c) && g.free != []
    ensures Sound(Adding(g, c))
  {
    Sizes(g.live, g.free[|g.free| - 1], Order(c.side, PickPrice(c.side, c.level), c.addShares));
  }

  lemma DeletingSound(g: Gen, ref: nat)
    requires Sound(g) && ref in g.live
    ensures Sound(Deleting(g, ref))
  {
    Sizes(g.live, ref, g.live[ref]);
  }

  lemma ReplacingSound(g: Gen, c: Draw)
    requires Sound(g) && Possible(g, c) && g.free != [] && |g.live| >= 8
    ensures Sound(Replacing(g, c))
  {
    Sizes(g.live, c.ref, g.live[c.ref]);
    Sizes(g.live - {c.ref}, g.free[|g.free| - 1],
          Order(g.live[c.ref].side, PickPrice(g.live[c.ref].side, c.level), c.replaceShares));
  }

  lemma NextSound(g: Gen, c: Draw)
    requires Sound(g) && Possible(g, c)
    ensures Sound(Next(g, c))
  {
    match Chosen(g, c) {
      case DoAdd => AddingSound(g, c);
      case DoExecute =>
        var ex := Half(g.live[c.ref].shares);
        ReducedSound(Emit(g, Msg(Execute, 0, c.ref, Bid, ex, 0, c.ref)), c.ref, ex);
      case DoCancel =>
        var cx := if c.cancelAll then g.live[c.ref].shares else Third(g.live[c.ref].shares);
        ReducedSound(Emit(g, Msg(Cancel, 0, c.ref, Bid, cx, 0, c.ref)), c.ref, cx);
      case DoDelete => DeletingSound(g, c.ref);
      case DoReplace => ReplacingSound(g, c);
      case DoNothing =>
    }
  }

  /** A pass emits a message unless the pool is empty and the draw falls in the Replace range; so
      some draw always emits, although every Replace loses a reference. */
  lemma EmitsIff(g: Gen, c: Draw)
    requires Sound(g) && Possible(g, c)
    ensures |Next(g, c).msgs| == |g.msgs| + 1 <==> g.free != [] || c.r < 0.92
    ensures Next(g, c) == g <==> g.free == [] && c.r >= 0.92
  {
  }

  // ---- the book holds the live orders ---------------------------------------------------------

  function EntryOf(ref: nat, o: Order): Entry { Entry(ref, o.side, o.price, o.shares) }

  /** Slot by slot: the live order with that reference, or nothing. */
  ghost predicate Mirrors(table: seq<Slot>, live: map<nat, Order>) {
    && |table| == BOOK_DEPTH
    && forall i | 0 <= i < BOOK_DEPTH :: table[i] == if i in live then Some(EntryOf(i, live[i])) else None
  }

  /** The message a pass adds. */
  function Added(g: Gen, c: Draw): Msg
    requires Possible(g, c) && Next(g, c).msgs != []
  {
    Next(g, c).msgs[|Next(g, c).msgs| - 1]
  }

  lemma MirrorsMatch(table: seq<Slot>, live: map<nat, Order>, m: Msg)
    requires Mirrors(table, live) && m.ref in live && 1 <= m.ref <= 255
    ensures B.Index(table, m.ref) == m.ref && B.Matches(table, m)
    ensures table[m.ref].value == EntryOf(m.ref, live[m.ref])
  {
  }

  /** What the book's table becomes, whether or not a rescan follows. */
  lemma EditTable(b: B.Book, n: nat, m: Msg)
    requires b.table != [] && IsEdit(m.kind) && B.Matches(b.table, m)
    ensures B.Apply(b, n, m).table == B.Edited(b.table, m)
  {
  }

  lemma ReducedMirrors(g: Gen, b: B.Book, n: nat, m: Msg)
    requires Sound(g) && Mirrors(b.table, g.live) && IsReduce(m.kind) && m.ref in g.live
    ensures Mirrors(B.Apply(b, n, m).table, Reduced(g, m.ref, m.shares).live)
  {
    MirrorsMatch(b.table, g.live, m);
    EditTable(b, n, m);
  }

  lemma DeletedMirrors(g: Gen, b: B.Book, n: nat, m: Msg)
    requires Sound(g) && Mirrors(b.table, g.live) && m.kind.Delete? && m.ref in g.live
    ensures Mirrors(B.Apply(b, n, m).table, g.live - {m.ref})
  {
    MirrorsMatch(b.table, g.live, m);
    EditTable(b, n, m);
  }

  lemma ReplacedMirrors(g: Gen, b: B.Book, n: nat, m: Msg)
    requires Sound(g) && Mirrors(b.table, g.live) && m.kind.Replace? && m.ref in g.live
    requires 1 <= m.newRef <= 255 && m.newRef !in g.live
    ensures
      var order := Order(g.live[m.ref].side, m.price, m.shares);
      Mirrors(B.Apply(b, n, m).table, (g.live - {m.ref})[m.newRef := order])
  {
    MirrorsMatch(b.table, g.live, m);
    EditTable(b, n, m);
    SmallIndex(b.table, m.newRef);
  }

  lemma SmallIndex(table: seq<Slot>, ref: nat)
    requires |table| == BOOK_DEPTH && ref <= 255
    ensures B.Index(table, ref) == ref
  {
  }

  lemma AddedMirrors(g: Gen, b: B.Book, n: nat, m: Msg)
    requires Sound(g) && Mirrors(b.table, g.live) && m.kind.Add? && 1 <= m.ref <= 255 && m.ref !in g.live
    ensures Mirrors(B.Apply(b, n, m).table, g.live[m.ref := Order(m.side, m.price, m.shares)])
    ensures b.table[B.Index(b.table, m.ref)].None?
  {
    SmallIndex(b.table, m.ref);
  }

  lemma NextMirrors(g: Gen, c: Draw, b: B.Book, n: nat)
    requires Sound(g) && Possible(g, c) && Mirrors(b.table, g.live) && |Next(g, c).msgs| > |g.msgs|
    ensures Mirrors(B.Apply(b, n, Added(g, c)).table, Next(g, c).live)
    ensures IsAdd(Added(g, c).kind) ==> b.table[B.Index(b.table, Added(g, c).ref)].None?
  {
    hide B.Apply, B.Index, Mirrors;
    var m := Added(g, c);
    var branch := Chosen(g, c);
    if branch.DoAdd? {
      assert m.kind.Add? && m.ref == g.free[|g.free| - 1];
      AddedMirrors(g, b, n, m);
    } else if branch.DoExecute? || branch.DoCancel? {
      assert IsReduce(m.kind) && m.ref == c.ref && Next(g, c).live == Reduced(g, m.ref, m.shares).live;
      ReducedMirrors(g, b, n, m);
    } else if branch.DoDelete? {
      DeletedMirrors(g, b, n, m);
    } else {
      assert m.kind.Replace? && m.newRef == g.free[|g.free| - 1];
      ReplacedMirrors(g, b, n, m);
    }
  }

  // ---- runs -------------------------------------------------------------------------------------

  /** The generator after a run of draws, or None if one of them was not possible in its turn. */
  function Play(g: Gen, draws: seq<Draw>): Option<Gen> {
    if draws == [] then Some(g)
    else
      var before, c := Play(g, draws[..|draws| - 1]), draws[|draws| - 1];
      if before.Some? && Possible(before.value, c) then Some(Next(before.value, c)) else None
  }

  predicate Plays(g: Gen, draws: seq<Draw>) { Play(g, draws).Some? }

  function After(g: Gen, draws: seq<Draw>): Gen
    requires Plays(g, draws)
  {
    Play(g, draws).value
  }

  lemma AddedLast(g: Gen, c: Draw)
    requires Possible(g, c) && |Next(g, c).msgs| > |g.msgs|
    ensures Next(g, c).msgs == g.msgs + [Added(g, c)]
  {
  }

  /** MAIN RESULT. After every run the references are sound, the emitted messages never alias in the
      256-slot book, and the book they build holds exactly the live orders. */
  lemma {:induction false} BookHoldsLiveOrders(g: Gen, draws: seq<Draw>, n: nat)
    requires Initial(g) && Plays(g, draws)
    ensures Sound(After(g, draws))
    ensures Mirrors(B.Run(BOOK_DEPTH, n, After(g, draws).msgs).table, After(g, draws).live)
    ensures B.NoAliasing(BOOK_DEPTH, n, After(g, draws).msgs)
  {
    hide Possible, Next, B.Apply, B.Index;
    if draws != [] {
      var before, c := draws[..|draws| - 1], draws[|draws| - 1];
      BookHoldsLiveOrders(g, before, n);
      var g0, g1 := After(g, before), After(g, draws);
      NextSound(g0, c);
      EmitsIff(g0, c);
      if g1 != g0 {
        AddedLast(g0, c);
        assert g1.msgs[..|g0.msgs|] == g0.msgs;
        NextMirrors(g0, c, B.Run(BOOK_DEPTH, n, g0.msgs), n);
        NoAliasingExtends(g0.msgs, Added(g0, c), n);
      }
    }
  }

  lemma NoAliasingExtends(msgs: seq<Msg>, m: Msg, n: nat)
    requires B.NoAliasing(BOOK_DEPTH, n, msgs)
    requires IsAdd(m.kind) ==> var table := B.Run(BOOK_DEPTH, n, msgs).table; table[B.Index(table, m.ref)].None?
    ensures B.NoAliasing(BOOK_DEPTH, n, msgs + [m])
  {
    assert (msgs + [m])[..|msgs|] == msgs;
    assert forall k | 0 <= k < |msgs| :: (msgs + [m])[..k] == msgs[..k];
  }

  /** Hence the displayed levels are the exact best prices of the live orders at all times. */
  lemma CacheShowsLiveOrders(g: Gen, draws: seq<Draw>, n: nat)
    requires Initial(g) && Plays(g, draws)
    ensures
      var b := B.Run(BOOK_DEPTH, n, After(g, draws).msgs);
      b == B.Rescanned(b.table, n) && Mirrors(b.table, After(g, draws).live)
  {
    BookHoldsLiveOrders(g, draws, n);
    B.IncrementalEqualsRebuild(BOOK_DEPTH, n, After(g, draws).msgs);
  }

  // ---- the bytes --------------------------------------------------------------------------------

  /** 'AAPL', padded by the encoder. */
  const SYMBOL: I.Bytes := [0x41, 0x41, 0x50, 0x4C, 0x20, 0x20, 0x20, 0x20]

  const EXTRAS := S.Extras(1, SYMBOL, [], 0, true)

  /** The longest run whose clock stays within the 48-bit time stamp. */
  const MAX_MSGS: nat := 247_274_976_710

  function AllExtras(n: nat): (r: seq<S.Extras>)
    ensures |r| == n
  {
    seq(n, _ => EXTRAS)
  }

  function Stream(msgs: seq<Msg>): I.Bytes {
    S.Concat(S.Payloads(msgs, AllExtras(|msgs|)))
  }

  ghost predicate Encodable(m: Msg, k: nat) {
    && m.timestamp == FIRST_TS + 1000 * (k + 1) && S.Canonical(m)
    && m.ref < TWO64 && m.newRef < TWO64 && m.shares < TWO32 && m.price < TWO32
  }

  lemma AddedIs(g: Gen, c: Draw, m: Msg)
    requires Possible(g, c) && Next(g, c).msgs == g.msgs + [m]
    ensures Added(g, c) == m
  {
  }

  lemma AddedEncodable(g: Gen, c: Draw)
    requires Sound(g) && Possible(g, c) && |Next(g, c).msgs| > |g.msgs|
    ensures Encodable(Added(g, c), |g.msgs|) && Next(g, c).msgs == g.msgs + [Added(g, c)]
  {
    AddedLast(g, c);
    var m := Added(g, c);
    match Chosen(g, c) {
      case DoAdd => assert m.ref == g.free[|g.free| - 1] && m.kind.Add?;
      case DoExecute => assert m.ref == c.ref && m.kind.Execute?;
      case DoCancel => assert m.ref == c.ref && m.kind.Cancel?;
      case DoDelete => assert m.ref == c.ref && m.kind.Delete?;
      case DoReplace => assert m.ref == c.ref && m.newRef == g.free[|g.free| - 1] && m.kind.Replace?;
      case DoNothing =>
    }
  }

  /** Within the 48-bit clock an encodable message is accepted by the encoder. */
  lemma EncodablePacks(m: Msg, k: nat)
    requires Encodable(m, k)
    ensures S.Packable(m, EXTRAS) <==> k < MAX_MSGS
  {
  }

  lemma {:induction false} AllEncodable(g: Gen, draws: seq<Draw>)
    requires Initial(g) && Plays(g, draws)
    ensures forall k | 0 <= k < |After(g, draws).msgs| :: Encodable(After(g, draws).msgs[k], k)
  {
    if draws != [] {
      var before, c := draws[..|draws| - 1], draws[|draws| - 1];
      AllEncodable(g, before);
      BookHoldsLiveOrders(g, before, 4);
      var g0, g1 := After(g, before), After(g, draws);
      EmitsIff(g0, c);
      if g1 != g0 { AddedEncodable(g0, c); }
    }
  }

  /** MAIN RESULT. For every run short enough for the 48-bit clock, parsing the generated bytes gives
      back the generated messages, and the golden book built from them holds exactly the live orders. */
  lemma StreamBuildsLiveBook(g: Gen, draws: seq<Draw>, n: nat)
    requires Initial(g) && Plays(g, draws) && |After(g, draws).msgs| <= MAX_MSGS
    ensures
      var parsed := I.ParseStream(Stream(After(g, draws).msgs));
      && parsed == Some(After(g, draws).msgs)
      && Mirrors(B.Run(BOOK_DEPTH, n, parsed.value).table, After(g, draws).live)
  {
    var msgs := After(g, draws).msgs;
    AllEncodable(g, draws);
    BookHoldsLiveOrders(g, draws, n);
    forall k | 0 <= k < |msgs| ensures S.Packable(msgs[k], AllExtras(|msgs|)[k]) && S.Canonical(msgs[k]) {
      assert Encodable(msgs[k], k);
    }
    S.StreamRoundTrip(msgs, AllExtras(|msgs|));
  }

  // ---- the generator loop -----------------------------------------------------------------------

  class ReplayGen {
    var free: seq<nat>
    var live: map<nat, Order>
    var out: I.Bytes
    ghost var msgs: seq<Msg>

    ghost function State(): Gen
      reads this
    {
      Gen(free, live, msgs)
    }

    /** The bytes written so far encode the messages of the model. */
    ghost predicate Valid()
      reads this
    {
      out == Stream(msgs)
    }

    constructor (shuffled: seq<nat>)
      ensures Valid() && State() == Gen(shuffled, map[], [])
    {
      free, live, out, msgs := shuffled, map[], [], [];
    }

    /** The main loop, drawing until n messages are out or the draws are used up. None when a field
        or the clock leaves its range, as when the encoder raises. */
    method BuildSynthetic(n: nat, draws: seq<Draw>) returns (r: Option<I.Bytes>, used: nat)
      requires Initial(State()) && Valid() && Plays(State(), draws)
      modifies this
      ensures used <= |draws| && Plays(old(State()), draws[..used])
      ensures r.Some? ==> r.value == Stream(After(old(State()), draws[..used]).msgs)
      ensures r.Some? ==> |After(old(State()), draws[..used]).msgs| == n || used == |draws|
      ensures n <= MAX_MSGS ==> r.Some?
    {
      var gen := new S.SynthITCH(SYMBOL, 1);
      ghost var g := State();
      used := 0;
      var count := 0;
      while count < n && used < |draws|
        invariant used <= |draws| && count == |msgs| <= n
        invariant Play(g, draws[..used]) == Some(State()) && Valid()
        invariant fresh(gen) && Clocked(gen)
        decreases |draws| - used
      {
        NextPlay(g, draws, used, State());
        var emitted, ok := Pass(gen, draws[used]);
        used := used + 1;
        if !ok {
          return None, used;
        }
        if emitted {
          count := count + 1;
        }
      }
      assert draws[..|draws|] == draws;
      r := Some(out);
    }

    /** The encoder's clock stands at the last message sent. */
    ghost predicate Clocked(gen: S.SynthITCH)
      reads this, gen
    {
      gen.symbol == SYMBOL && gen.locate == 1 && gen.ts == FIRST_TS + 1000 * |msgs|
    }

    /** One pass of the loop: draw, encode, append. */
    method Pass(gen: S.SynthITCH, c: Draw) returns (emitted: bool, ok: bool)
      requires Possible(State(), c) && Valid() && Clocked(gen)
      requires |Next(State(), c).msgs| > |msgs| ==> Encodable(Added(State(), c), |msgs|)
      modifies this, gen
      ensures ok ==> State() == Next(old(State()), c) && Valid() && Clocked(gen)
      ensures ok ==> |msgs| == |old(msgs)| + if emitted then 1 else 0
      ensures !ok ==> |old(msgs)| >= MAX_MSGS
    {
      hide Next, Possible, Encodable;
      ok := true;
      ghost var g := State();
      var m := Draws(c);
      emitted := m.Some?;
      if emitted {
        AddedIs(g, c, m.value.(timestamp := NextTime(g)));
        ok := Send(gen, m.value);
      }
    }

    /** Encode one message and append it to the stream. */
    method Send(gen: S.SynthITCH, m: Msg) returns (ok: bool)
      requires Valid() && Clocked(gen) && Encodable(m.(timestamp := NextTime(State())), |msgs|)
      modifies gen, `out, `msgs
      ensures ok <==> |old(msgs)| < MAX_MSGS
      ensures ok ==> msgs == old(msgs) + [m.(timestamp := NextTime(old(State())))] && Valid() && Clocked(gen)
    {
      hide S.Payload, S.Frame, S.Packable;
      ghost var sent := m.(timestamp := NextTime(State()));
      EncodablePacks(sent, |msgs|);
      assert S.Extras(gen.locate, gen.symbol, [], 0, true) == EXTRAS;
      var frame := gen.Build(m, [], 0, true, 1000);
      ok := frame.Some?;
      if ok {
        StreamExtends(msgs, sent);
        out := out + frame.value;
        msgs := msgs + [sent];
      }
    }

    /** One pass: the branch taken, its effect on the pools, and the message it sends. */
    method Draws(c: Draw) returns (m: Option<Msg>)
      requires Possible(State(), c)
      modifies `free, `live
      ensures
        var g, g' := old(State()), Next(old(State()), c);
        && free == g'.free && live == g'.live
        && (m.None? ==> g' == g)
        && (m.Some? ==> g'.msgs == g.msgs + [m.value.(timestamp := NextTime(g))])
    {
      if (c.r < 0.55 || |live| < 8) && free != [] {
        var ref, price := free[|free| - 1], PickPrice(c.side, c.level);
        free := free[..|free| - 1];
        live := live[ref := Order(c.side, price, c.addShares)];
        return Some(Msg(Add, 0, ref, c.side, c.addShares, price, ref));
      }
      if |live| > 0 && c.r < 0.70 {
        var ex := Half(live[c.ref].shares);
        Reduce(c.ref, ex);
        return Some(Msg(Execute, 0, c.ref, Bid, ex, 0, c.ref));
      }
      if |live| > 0 && c.r < 0.82 {
        var cx := if c.cancelAll then live[c.ref].shares else Third(live[c.ref].shares);
        Reduce(c.ref, cx);
        return Some(Msg(Cancel, 0, c.ref, Bid, cx, 0, c.ref));
      }
      if |live| > 0 && c.r < 0.92 {
        free := free + [c.ref];
        live := live - {c.ref};
        return Some(Msg(Delete, 0, c.ref, Bid, 0, 0, c.ref));
      }
      if |live| > 0 && free != [] {
        var side := live[c.ref].side;
        var nref, price := free[|free| - 1], PickPrice(side, c.level);
        free := free[..|free| - 1];
        live := (live - {c.ref})[nref := Order(side, price, c.replaceShares)];
        return Some(Msg(Replace, 0, c.ref, Bid, c.replaceShares, price, nref));
      }
      m := None;
    }

    method Reduce(ref: nat, q: nat)
      requires ref in live
      modifies `free, `live
      ensures State() == Reduced(old(State()), ref, q)
    {
      var o := live[ref];
      if q >= o.shares {
        free := free + [ref];
        live := live - {ref};
      } else {
        live := live[ref := o.(shares := o.shares - q)];
      }
    }
  }

  /** The draw that is next in a possible run is possible, and what it sends can be encoded. */
  lemma NextPlay(g: Gen, draws: seq<Draw>, k: nat, h: Gen)
    requires Initial(g) && Plays(g, draws) && k < |draws| && Play(g, draws[..k]) == Some(h)
    ensures Possible(h, draws[k]) && Play(g, draws[..k + 1]) == Some(Next(h, draws[k]))
    ensures |Next(h, draws[k]).msgs| > |h.msgs| ==> Encodable(Added(h, draws[k]), |h.msgs|)
  {
    PlaysPrefix(g, draws, k + 1);
    assert draws[..k + 1][..k] == draws[..k];
    BookHoldsLiveOrders(g, draws[..k], 4);
    if |Next(h, draws[k]).msgs| > |h.msgs| {
      AddedEncodable(h, draws[k]);
    }
  }

  lemma {:induction false} PlaysPrefix(g: Gen, draws: seq<Draw>, k: nat)
    requires Plays(g, draws) && k <= |draws|
    ensures Plays(g, draws[..k])
    decreases |draws| - k
  {
    hide Possible, Next;
    if k < |draws| {
      PlaysPrefix(g, draws, k + 1);
      assert draws[..k + 1][..k] == draws[..k];
    } else {
      assert draws[..k] == draws;
    }
  }

  lemma {:induction false} ConcatExtends(frames: seq<I.Bytes>, f: I.Bytes)
    ensures S.Concat(frames + [f]) == S.Concat(frames) + S.Frame(f)
  {
    if frames == [] {
      assert [f][1..] == [] && [] + [f] == [f];
    } else {
      assert (frames + [f])[1..] == frames[1..] + [f];
      ConcatExtends(frames[1..], f);
    }
  }

  lemma StreamExtends(msgs: seq<Msg>, m: Msg)
    ensures Stream(msgs + [m]) == Stream(msgs) + S.Frame(S.Payload(m, EXTRAS))
  {
    var ps := S.Payloads(msgs, AllExtras(|msgs|));
    assert S.Payloads(msgs + [m], AllExtras(|msgs| + 1)) == ps + [S.Payload(m, EXTRAS)];
    ConcatExtends(ps, S.Payload(m, EXTRAS));
  }
}
