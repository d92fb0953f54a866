/** The tick-to-trade datapath, cycle by cycle: parser, book, imbalance strategy, mid reference and risk
    gate wired together, and what every decision at its output owes to the golden models. */
module Top {
  import opened Bits
  import opened Messages
  import opened Depth
  import P = ParserRtl
  import R = BookRtl
  import B = Book
  import M = Imbalance
  import K = Risk

  const LEVELS: nat := 4

  /** The input pins of one cycle. */
  datatype Pins = Pins(tvalid: bool, tdata: Byte, tlast: bool, halt: bool)

  /** All registers, with the imbalance strategy selected. `risk` and `beat` are the registered gate
      outputs and the output beat behind them. */
  datatype Regs = Regs(parser: P.Regs, book: R.Regs, strat: M.Regs, mid1: nat, mid2: nat, position: Int32,
                       riskValid: bool, risk: M.Decision, verdict: K.Verdict, beatValid: bool, beat: M.Decision)

  predicate WellFormed(s: Regs) { P.WellFormed(s.parser) && R.WellFormed(s.book) }

  /** The book outputs of this cycle. */
  function Shown(s: Regs): B.Snapshot { B.View(s.book.bid, s.book.ask, LEVELS) }

  function ParserPort(s: Regs, i: Pins): P.Port { P.Port(i.tvalid, i.tdata, i.tlast, s.book.phase.Idle?) }

  function BookPort(s: Regs): R.Port {
    var d := s.parser.out;
    R.Port(s.parser.mValid, d.code, d.ref, d.newRef, d.side, d.shares, d.price)
  }

  function GateOffer(s: Regs, i: Pins): K.Offer { K.Offer(s.strat.valid, s.strat.out, s.mid2, i.halt) }

  function Next(s: Regs, i: Pins): (r: Regs)
    requires WellFormed(s)
    ensures WellFormed(r) && |r.book.mem| == |s.book.mem|
  {
    var v := K.Gate(s.position, GateOffer(s, i));
    Regs(P.Next(s.parser, ParserPort(s, i)), R.Next(s.book, LEVELS, BookPort(s)), M.Next(s.strat, Shown(s)),
         K.MidBits(Shown(s)), s.mid1, K.NextPosition(s.position, GateOffer(s, i)),
         v.accepted, s.strat.out, v, s.riskValid, s.risk)
  }

  function Clocked(s: Regs, pins: seq<Pins>): (r: Regs)
    requires WellFormed(s)
    ensures WellFormed(r) && |r.book.mem| == |s.book.mem|
  {
    if pins == [] then s else Next(Clocked(s, pins[..|pins| - 1]), pins[|pins| - 1])
  }

  /** After reset; the shift registers and the order memory hold anything of their width. */
  ghost predicate IsReset(s: Regs) {
    && WellFormed(s) && s.parser.byteCnt == 0 && !s.parser.mValid
    && R.IsReset(s.book) && InRange(s.book)
    && s.strat == M.RESET && s.position == 0 && !s.riskValid && !s.beatValid
  }

  // ---- the streams between the blocks --------------------------------------------------------------

  function ParserPorts(s: Regs, pins: seq<Pins>): (r: seq<P.Port>)
    requires WellFormed(s)
    ensures |r| == |pins|
  {
    if pins == [] then []
    else
      var before := pins[..|pins| - 1];
      ParserPorts(s, before) + [ParserPort(Clocked(s, before), pins[|pins| - 1])]
  }

  function BookPorts(s: Regs, pins: seq<Pins>): (r: seq<R.Port>)
    requires WellFormed(s)
    ensures |r| == |pins|
  {
    if pins == [] then []
    else
      var before := pins[..|pins| - 1];
      BookPorts(s, before) + [BookPort(Clocked(s, before))]
  }

  /** The book outputs of every cycle so far. */
  function Shots(s: Regs, pins: seq<Pins>): (r: seq<B.Snapshot>)
    requires WellFormed(s)
    ensures |r| == |pins|
  {
    if pins == [] then []
    else
      var before := pins[..|pins| - 1];
      Shots(s, before) + [Shown(Clocked(s, before))]
  }

  function Offers(s: Regs, pins: seq<Pins>): (r: seq<K.Offer>)
    requires WellFormed(s)
    ensures |r| == |pins|
  {
    if pins == [] then []
    else
      var before := pins[..|pins| - 1];
      Offers(s, before) + [GateOffer(Clocked(s, before), pins[|pins| - 1])]
  }

  /** Each block runs on its own stream. */
  lemma {:induction false} BlocksRun(s: Regs, pins: seq<Pins>)
    requires WellFormed(s)
    ensures
      var r := Clocked(s, pins);
      && r.parser == P.Clocked(s.parser, ParserPorts(s, pins))
      && r.book == R.Clocked(s.book, LEVELS, BookPorts(s, pins))
      && (s.strat == M.RESET ==> r.strat == M.Clocked(Shots(s, pins)))
      && (s.position == 0 ==> r.position == K.RtlPosition(Offers(s, pins)))
  {
    if pins != [] {
      var before := pins[..|pins| - 1];
      BlocksRun(s, before);
      assert ParserPorts(s, pins)[..|before|] == ParserPorts(s, before);
      assert BookPorts(s, pins)[..|before|] == BookPorts(s, before);
      assert Shots(s, pins)[..|before|] == Shots(s, before);
      assert Offers(s, pins)[..|before|] == Offers(s, before);
    }
  }

  lemma {:induction false} ShotAt(s: Regs, pins: seq<Pins>, k: nat)
    requires WellFormed(s) && k < |pins|
    ensures Shots(s, pins)[k] == Shown(Clocked(s, pins[..k]))
  {
    hide Clocked, Shown;
    var before := pins[..|pins| - 1];
    if k < |before| {
      ShotAt(s, before, k);
      assert before[..k] == pins[..k];
    }
  }

  /** The collar reference is the mid of the snapshot the decision was made on. */
  lemma MidAligned(s: Regs, pins: seq<Pins>)
    requires WellFormed(s) && |pins| >= 2
    ensures Clocked(s, pins).mid2 == K.MidBits(Shots(s, pins)[|pins| - 2])
  {
    var n := |pins|;
    var once, twice := pins[..n - 1], pins[..n - 2];
    assert once[..n - 2] == twice;
    assert Clocked(s, once).mid1 == K.MidBits(Shown(Clocked(s, twice)));
    ShotAt(s, pins, n - 2);
  }

  // ---- 32-bit ranges ----------------------------------------------------------------------------

  ghost predicate WordLevels(levels: seq<Level>) {
    forall i | 0 <= i < |levels| :: levels[i].price < TWO32 && levels[i].size < TWO32
  }

  /** Every price and size in the book is a 32-bit word. */
  ghost predicate InRange(s: R.Regs) {
    && WordLevels(s.bid) && WordLevels(s.ask) && WordLevels(s.scanBid) && WordLevels(s.scanAsk)
    && s.rd.price < TWO32 && (forall i | 0 <= i < |s.mem| :: s.mem[i].price < TWO32)
  }

  lemma InsertInRange(levels: seq<Level>, side: Side, p: nat, q: nat)
    requires WordLevels(levels) && p < TWO32
    ensures WordLevels(R.InsertWrapped(levels, LEVELS, side, p, q))
  {
    var r := B.Insert(levels, LEVELS, side, p, q);
    forall i | 0 <= i < |r| ensures r[i].price < TWO32 {
      var k := B.InsertionPoint(levels, side, p);
      if B.FindPrice(levels, p) == |levels| && k < LEVELS {
        assert r[i] == B.Splice(levels, k, Level(p, q))[i];
      }
    }
  }

  lemma IdleInRange(s: R.Regs, i: R.Port)
    requires R.WellFormed(s) && InRange(s) && s.phase.Idle?
    ensures InRange(R.NextIdle(s, LEVELS, i))
  {
    if i.side.Bid? {
      InsertInRange(s.bid, Bid, i.price, i.shares);
    } else {
      InsertInRange(s.ask, Ask, i.price, i.shares);
    }
  }

  lemma EditInRange(s: R.Regs)
    requires R.WellFormed(s) && InRange(s)
    ensures InRange(R.EditState(s))
  {
  }

  lemma LookupInRange(s: R.Regs)
    requires R.WellFormed(s) && InRange(s)
    ensures InRange(R.NextLookup(s, LEVELS))
  {
    EditInRange(s);
    hide R.EditState, R.Displayed;
  }

  lemma RescanInRange(s: R.Regs)
    requires R.WellFormed(s) && InRange(s)
    ensures InRange(R.NextRescan(s, LEVELS))
  {
    InsertInRange(s.scanBid, Bid, s.rd.price, s.rd.shares);
    InsertInRange(s.scanAsk, Ask, s.rd.price, s.rd.shares);
  }

  lemma BookInRange(s: R.Regs, i: R.Port)
    requires R.WellFormed(s) && InRange(s)
    ensures InRange(R.Next(s, LEVELS, i))
  {
    match s.phase {
      case Idle => IdleInRange(s, i);
      case Lookup => LookupInRange(s);
      case Rescan => RescanInRange(s);
    }
  }

  lemma {:induction false} RunInRange(s: Regs, pins: seq<Pins>)
    requires IsReset(s)
    ensures InRange(Clocked(s, pins).book) && M.WordSized(Shown(Clocked(s, pins)))
  {
    if pins != [] {
      var before := Clocked(s, pins[..|pins| - 1]);
      RunInRange(s, pins[..|pins| - 1]);
      BookInRange(before.book, BookPort(before));
    }
  }

  lemma ShotsInRange(s: Regs, pins: seq<Pins>)
    requires IsReset(s)
    ensures forall k | 0 <= k < |pins| :: M.WordSized(Shots(s, pins)[k])
  {
    forall k | 0 <= k < |pins| ensures M.WordSized(Shots(s, pins)[k]) {
      ShotAt(s, pins, k);
      RunInRange(s, pins[..k]);
    }
  }

  // ---- the book applies the golden messages ---------------------------------------------------------

  /** Messages the book cannot tell apart: it reads no time stamp, and no shares of a Delete. */
  predicate Alike(a: Msg, b: Msg) {
    && a.kind == b.kind && a.ref == b.ref && a.newRef == b.newRef && a.side == b.side && a.price == b.price
    && (!a.kind.Delete? ==> a.shares == b.shares)
  }

  ghost predicate AllAlike(a: seq<Msg>, b: seq<Msg>) {
    |a| <= |b| && forall k | 0 <= k < |a| :: Alike(a[k], b[k])
  }

  lemma {:induction false} RunAlike(depth: nat, n: nat, a: seq<Msg>, b: seq<Msg>)
    requires depth > 0 && |a| == |b| && AllAlike(a, b)
    ensures B.Run(depth, n, a) == B.Run(depth, n, b)
  {
    if a != [] {
      var k := |a| - 1;
      RunAlike(depth, n, a[..k], b[..k]);
      ApplyAlike(B.Run(depth, n, a[..k]), n, a[k], b[k]);
    }
  }

  lemma ApplyAlike(b: B.Book, n: nat, m: Msg, m': Msg)
    requires b.table != [] && Alike(m, m')
    ensures B.Apply(b, n, m) == B.Apply(b, n, m')
  {
    assert B.Matches(b.table, m) == B.Matches(b.table, m');
    if IsEdit(m.kind) && B.Matches(b.table, m) {
      assert B.Edited(b.table, m) == B.Edited(b.table, m');
    }
  }

  /** The parser only ever holds out messages of supported types. */
  lemma {:induction false} HeldIsSupported(s: P.Regs, ports: seq<P.Port>)
    requires P.WellFormed(s) && !s.mValid
    ensures P.Clocked(s, ports).mValid ==> KindOf(P.Clocked(s, ports).out.code).Some?
  {
    if ports != [] { HeldIsSupported(s, ports[..|ports| - 1]); }
  }

  /** What the book makes of a decoded message. */
  function AsMsg(d: P.Decoded): Msg
    requires KindOf(d.code).Some?
  {
    Msg(KindOf(d.code).value, 0, d.ref, d.side, d.shares, d.price, d.newRef)
  }

  ghost predicate SameMsgs(ds: seq<P.Decoded>, ms: seq<Msg>) {
    |ds| == |ms| && forall k | 0 <= k < |ds| :: KindOf(ds[k].code).Some? && ms[k] == AsMsg(ds[k])
  }

  /** A message handed over is one accepted. */
  lemma HandedOverStep(r: Regs, i: Pins, ds: seq<P.Decoded>, ms: seq<Msg>)
    requires SameMsgs(ds, ms) && (r.parser.mValid ==> KindOf(r.parser.out.code).Some?)
    ensures
      var port, kind := BookPort(r), KindOf(BookPort(r).code);
      SameMsgs(if r.parser.mValid && ParserPort(r, i).mReady then ds + [r.parser.out] else ds,
               if r.book.phase.Idle? && port.valid && kind.Some? then ms + [R.MsgOf(port, kind.value)] else ms)
  {
  }

  /** Exactly the messages the parser hands over are accepted by the book, in the same order. */
  lemma {:induction false} HandedOver(s: Regs, pins: seq<Pins>)
    requires IsReset(s)
    ensures SameMsgs(P.Delivered(s.parser, ParserPorts(s, pins)), R.Accepted(s.book, LEVELS, BookPorts(s, pins)))
  {
    hide P.Next, R.Next, Next, Clocked, P.Clocked, R.Clocked, BookPort, ParserPort, R.MsgOf, SameMsgs;
    if pins == [] {
      assert SameMsgs([], []) by { NoMsgs(); }
    } else {
      var before := pins[..|pins| - 1];
      HandedOver(s, before);
      BlocksRun(s, before);
      HeldIsSupported(s.parser, ParserPorts(s, before));
      assert ParserPorts(s, pins)[..|before|] == ParserPorts(s, before);
      assert BookPorts(s, pins)[..|before|] == BookPorts(s, before);
      HandedOverStep(Clocked(s, before), pins[|before|], P.Delivered(s.parser, ParserPorts(s, before)),
                     R.Accepted(s.book, LEVELS, BookPorts(s, before)));
    }
  }

  lemma NoMsgs()
    ensures SameMsgs([], [])
  {
  }

  /** The golden messages of the bytes received so far. */
  function Received(s: Regs, pins: seq<Pins>): seq<Msg>
    requires WellFormed(s)
  {
    P.Golden(P.Framed(s.parser, ParserPorts(s, pins)).done)
  }

  /** The messages the book has completed. */
  function Completed(s: Regs, pins: seq<Pins>): seq<Msg>
    requires WellFormed(s)
  {
    R.Completed(s.book, LEVELS, BookPorts(s, pins))
  }

  ghost predicate StreamFits(s: Regs, pins: seq<Pins>)
    requires WellFormed(s)
  {
    P.AllFit(P.Framed(s.parser, ParserPorts(s, pins)))
  }

  lemma CompletedAreGolden(s: Regs, pins: seq<Pins>)
    requires IsReset(s) && StreamFits(s, pins)
    ensures AllAlike(Completed(s, pins), Received(s, pins))
  {
    hide P.Next, R.Next, Next;
    var ports := ParserPorts(s, pins);
    P.ParserIsGolden(s.parser, ports);
    HandedOver(s, pins);
    var ds, em, ms := P.Delivered(s.parser, ports), P.Emitted(s.parser, ports), Received(s, pins);
    assert forall k | 0 <= k < |ds| :: ds[k] == em[k];
    forall k | 0 <= k < |Completed(s, pins)| ensures Alike(Completed(s, pins)[k], ms[k]) {
      assert P.Same(em[k], ms[k]);
      CodeKind(ms[k].kind);
    }
  }

  lemma CodeKind(kind: Kind)
    ensures KindOf(Code(kind)) == Some(kind)
  {
  }

  /** What consumers see of a golden book whose sizes are cut to 32 bits. */
  function GoldenView(msgs: seq<Msg>, depth: nat): B.Snapshot
    requires depth > 0
  {
    var g := B.Run(depth, LEVELS, msgs);
    B.View(R.Wrap(g.bid), R.Wrap(g.ask), LEVELS)
  }

  /** The book is at most two messages behind: one it is working on, and one the parser holds. */
  lemma LagBound(s: Regs, pins: seq<Pins>)
    requires IsReset(s) && StreamFits(s, pins)
    ensures |Received(s, pins)| <= |Completed(s, pins)| + 2
  {
    hide P.Next, R.Next, Next;
    P.ParserIsGolden(s.parser, ParserPorts(s, pins));
    HandedOver(s, pins);
  }

  /** MAIN RESULT. From reset, for any byte stream of messages the parser can take, under any gaps, in
      every cycle the displayed book is the golden book of the golden messages received, save at most the
      last two. */
  lemma ShownIsGoldenPrefix(s: Regs, pins: seq<Pins>)
    requires IsReset(s) && StreamFits(s, pins)
    ensures
      var k := |Completed(s, pins)|;
      && k <= |Received(s, pins)| <= k + 2
      && Shown(Clocked(s, pins)) == GoldenView(Received(s, pins)[..k], |s.book.mem|)
  {
    var k, depth := |Completed(s, pins)|, |s.book.mem|;
    LagBound(s, pins);
    CompletedAreGolden(s, pins);
    RunAlike(depth, LEVELS, Completed(s, pins), Received(s, pins)[..k]);
    BlocksRun(s, pins);
    R.RtlRefinesGolden(s.book, LEVELS, BookPorts(s, pins));
  }

  // ---- decisions -----------------------------------------------------------------------------------

  /** Receiving more only adds messages. */
  ghost predicate Extends(a: seq<Msg>, b: seq<Msg>) { |a| <= |b| && b[..|a|] == a }

  lemma {:induction false} FramedExtends(s: P.Regs, ports: seq<P.Port>)
    requires P.WellFormed(s) && ports != [] && P.AllFit(P.Framed(s, ports))
    ensures P.AllFit(P.Framed(s, ports[..|ports| - 1]))
    ensures Extends(P.Golden(P.Framed(s, ports[..|ports| - 1]).done), P.Golden(P.Framed(s, ports).done))
  {
    var f, b := P.Framed(s, ports[..|ports| - 1]), ports[|ports| - 1].tdata;
    P.LastCycle(s, ports);
    P.FitsBefore(f, b);
    assert (f.done + [f.tail + [b]])[..|f.done|] == f.done;
  }

  lemma OneEarlier(s: Regs, pins: seq<Pins>)
    requires IsReset(s) && StreamFits(s, pins) && pins != []
    ensures StreamFits(s, pins[..|pins| - 1]) && Extends(Received(s, pins[..|pins| - 1]), Received(s, pins))
  {
    var before := pins[..|pins| - 1];
    assert ParserPorts(s, pins)[..|before|] == ParserPorts(s, before);
    FramedExtends(s.parser, ParserPorts(s, pins));
  }

  lemma ExtendsTransitive(a: seq<Msg>, b: seq<Msg>, c: seq<Msg>)
    requires Extends(a, b) && Extends(b, c)
    ensures Extends(a, c)
  {
    assert c[..|a|] == c[..|b|][..|a|];
  }

  lemma {:induction false} EarlierReceived(s: Regs, pins: seq<Pins>, k: nat)
    requires IsReset(s) && StreamFits(s, pins) && k <= |pins|
    ensures StreamFits(s, pins[..k]) && Extends(Received(s, pins[..k]), Received(s, pins))
  {
    hide StreamFits, Received;
    if k == |pins| {
      assert pins[..k] == pins;
      ExtendsItself(Received(s, pins));
    } else {
      var before := pins[..|pins| - 1];
      OneEarlier(s, pins);
      EarlierReceived(s, before, k);
      assert before[..k] == pins[..k];
      ExtendsTransitive(Received(s, pins[..k]), Received(s, before), Received(s, pins));
    }
  }

  lemma ExtendsItself(a: seq<Msg>)
    ensures Extends(a, a)
  {
  }

  /** A book view is the golden book of the first messages of any list that extends those received. */
  lemma ShotIsView(s: Regs, pins: seq<Pins>, host: seq<Msg>, k: nat)
    requires IsReset(s) && StreamFits(s, pins) && Extends(Received(s, pins), host) && k < |pins|
    ensures |Completed(s, pins[..k])| <= |host|
    ensures Shots(s, pins)[k] == GoldenView(host[..|Completed(s, pins[..k])|], |s.book.mem|)
  {
    hide StreamFits, Received, Completed, GoldenView, Clocked, Shown;
    EarlierReceived(s, pins, k);
    ShownIsGoldenPrefix(s, pins[..k]);
    ShotAt(s, pins, k);
    ExtendsTransitive(Received(s, pins[..k]), Received(s, pins), host);
    var a, c := Received(s, pins[..k]), |Completed(s, pins[..k])|;
    assert a[..c] == host[..|a|][..c] == host[..c];
  }

  /** A decision is shown exactly when the golden rule makes one on the book outputs of two cycles earlier
      and none was shown during the cooldown; it is that decision, and the collar reference beside it is
      the mid of those outputs. */
  lemma DecisionOnShot(s: Regs, pins: seq<Pins>)
    requires IsReset(s)
    ensures
      var r, shots := Clocked(s, pins), Shots(s, pins);
      if |pins| < 2 then !r.strat.valid
      else
        var n := |pins| - 2;
        var d := M.Rule(M.PrevValid(shots, n), shots[n]);
        && (r.strat.valid <==> d.Some? && M.Quiet(shots, |pins| - 1))
        && (r.strat.valid ==> r.strat.out == d.value)
        && r.mid2 == K.MidBits(shots[n])
        && shots[n].bidPrice < TWO32 && shots[n].askPrice < TWO32
  {
    BlocksRun(s, pins);
    ShotsInRange(s, pins);
    M.PulseIsGolden(Shots(s, pins));
    if |pins| >= 2 {
      MidAligned(s, pins);
    }
  }

  /** The golden book two cycles before the end of a run. */
  function EarlierView(s: Regs, pins: seq<Pins>): B.Snapshot
    requires WellFormed(s) && |pins| >= 2 && |Completed(s, pins[..|pins| - 2])| <= |Received(s, pins)|
  {
    GoldenView(Received(s, pins)[..|Completed(s, pins[..|pins| - 2])|], |s.book.mem|)
  }

  lemma ShotIsGolden(s: Regs, pins: seq<Pins>)
    requires IsReset(s) && StreamFits(s, pins) && |pins| >= 2
    ensures |Completed(s, pins[..|pins| - 2])| <= |Received(s, pins)|
    ensures Shots(s, pins)[|pins| - 2] == EarlierView(s, pins)
  {
    ExtendsItself(Received(s, pins));
    ShotIsView(s, pins, Received(s, pins), |pins| - 2);
  }

  /** What the gate is offered, and what the registers before it hold, are 32-bit words. */
  ghost predicate OffersWords(r: Regs) {
    && K.WordSizedOffer(GateOffer(r, Pins(false, 0, false, false)))
    && r.mid1 < TWO32 && r.strat.bidPrice < TWO32 && r.strat.askPrice < TWO32
  }

  lemma OffersWordsStep(r: Regs, i: Pins)
    requires WellFormed(r) && OffersWords(r) && M.WordSized(Shown(r))
    ensures OffersWords(Next(r, i))
  {
    hide P.Next, R.Next, K.Gate, K.NextPosition;
  }

  lemma {:induction false} OffersInRange(s: Regs, pins: seq<Pins>)
    requires IsReset(s) && s.mid1 < TWO32 && s.mid2 < TWO32
    ensures forall k | 0 <= k < |pins| :: K.WordSizedOffer(Offers(s, pins)[k])
    ensures OffersWords(Clocked(s, pins))
  {
    hide Next, Shown;
    if pins != [] {
      var before, i := pins[..|pins| - 1], pins[|pins| - 1];
      OffersInRange(s, before);
      RunInRange(s, before);
      OffersWordsStep(Clocked(s, before), i);
    }
  }

  /** Whether and which decision is shown: the golden rule's on the golden book two cycles old, outside the
      cooldown. */
  ghost predicate DecisionDue(s: Regs, pins: seq<Pins>)
    requires WellFormed(s)
  {
    && |pins| >= 2 && |Completed(s, pins[..|pins| - 2])| <= |Received(s, pins)|
    && M.Rule(M.PrevValid(Shots(s, pins), |pins| - 2), EarlierView(s, pins)).Some?
    && M.Quiet(Shots(s, pins), |pins| - 1)
  }

  /** The decision now shown is the rule's, and the gate's verdict on it is the integer check against the mid
      of the book it was made on. */
  ghost predicate DecisionExplained(s: Regs, pins: seq<Pins>, halt: bool)
    requires WellFormed(s)
  {
    && |pins| >= 2 && |Completed(s, pins[..|pins| - 2])| <= |Received(s, pins)|
    && (var r, view := Clocked(s, pins), EarlierView(s, pins);
        var v := K.Gate(r.position, K.Offer(true, r.strat.out, r.mid2, halt));
        && M.Rule(M.PrevValid(Shots(s, pins), |pins| - 2), view) == Some(r.strat.out)
        && v == K.Check(r.position, r.strat.out, K.MidBits(view), halt)
        && v.reason != K.TooLarge
        && (v.reason == K.PriceBand ==> view.bidPrice + view.askPrice >= TWO32))
  }

  /** An output beat is the order the gate accepted two cycles earlier, and every accepted order
      becomes a beat. */
  lemma BeatIsAcceptedOrder(s: Regs, pins: seq<Pins>)
    requires IsReset(s)
    ensures
      var r := Clocked(s, pins);
      if |pins| < 2 then !r.beatValid
      else
        var n := |pins| - 2;
        var o := Offers(s, pins)[n];
        && r.beatValid == K.Gate(K.RtlPosition(Offers(s, pins)[..n]), o).accepted
        && r.beat == o.order
  {
    hide P.Next, R.Next, M.Next, K.Gate, K.NextPosition, K.MidBits, Shown;
    if |pins| >= 2 {
      var n := |pins| - 2;
      var once, twice := pins[..n + 1], pins[..n];
      assert once[..n] == twice && pins[..|pins| - 1] == once;
      BlocksRun(s, twice);
      assert Offers(s, pins)[..n] == Offers(s, twice) && Offers(s, pins)[n] == Offers(s, once)[n];
    } else if |pins| == 1 {
      assert pins[..0] == [];
    }
  }

  /** MAIN RESULT, end to end. From reset and for any stream of messages the parser can take, the strategy
      shows a decision exactly when the golden rule makes one on the golden book of the messages received
      (save the last few) two cycles before, outside the cooldown; it is that decision, and the risk gate's
      verdict on it is the integer check against that book's own mid: never TooLarge, and PriceBand only
      when the mid lost its carry. The position register is the sum of the accepted signed sizes and within
      its limit in every cycle. */
  lemma EndToEnd(s: Regs, pins: seq<Pins>, halt: bool)
    requires IsReset(s) && StreamFits(s, pins) && s.mid1 < TWO32 && s.mid2 < TWO32
    ensures Abs(Clocked(s, pins).position) <= K.MAX_POSITION
    ensures Clocked(s, pins).position == K.Total(K.AcceptedSizes(Offers(s, pins)))
    ensures Clocked(s, pins).strat.valid <==> DecisionDue(s, pins)
    ensures Clocked(s, pins).strat.valid ==> DecisionExplained(s, pins, halt)
  {
    hide Next, GoldenView, Received, Completed, Shots, M.Rule, M.Quiet, K.Gate, K.Check, K.RtlPosition, K.AcceptedSizes;
    var r := Clocked(s, pins);
    BlocksRun(s, pins);
    OffersInRange(s, pins);
    K.PositionRun(Offers(s, pins));
    DecisionOnShot(s, pins);
    if |pins| >= 2 {
      ShotIsGolden(s, pins);
    }
    if r.strat.valid {
      var shot := Shots(s, pins)[|pins| - 2];
      K.GateIsCheck(r.position, K.Offer(true, r.strat.out, r.mid2, halt));
      K.ImbalanceOrderVerdict(M.PrevValid(Shots(s, pins), |pins| - 2), shot, r.position, halt);
    }
  }
}
