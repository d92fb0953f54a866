/** How soon the datapath catches up: a bound, in cycles, on how long a received message can stay
    unapplied once the input goes quiet. */
module Liveness {
  import opened Bits
  import P = ParserRtl
  import R = BookRtl
  import opened Top

  /** Cycles the book needs at most for the message in flight. */
  function BookWork(b: R.Regs): nat {
    match b.phase
    case Idle => 0
    case Lookup => |b.mem| + 3
    case Rescan => if b.scanAddr <= |b.mem| + 1 then |b.mem| + 2 - b.scanAddr else 0
  }

  predicate ScanInTable(b: R.Regs) { b.phase.Rescan? ==> b.scanAddr <= |b.mem| + 1 }

  lemma BookWorks(b: R.Regs, n: nat, i: R.Port)
    requires R.WellFormed(b) && ScanInTable(b)
    ensures ScanInTable(R.Next(b, n, i))
    ensures BookWork(R.Next(b, n, i)) <=
      if !b.phase.Idle? then BookWork(b) - 1 else if i.valid then |b.mem| + 3 else 0
  {
    if b.phase.Rescan? && b.scanAddr <= |b.mem| {
      SmallMod(b.scanAddr + 1, 2 * |b.mem|);
    }
  }

  /** Cycles until the book is idle and the parser holds nothing, if no byte comes in. */
  function Work(s: Regs): nat {
    BookWork(s.book) + if s.parser.mValid then |s.book.mem| + 4 else 0
  }

  /** One byte in may add one message; otherwise every cycle with work left does some of it. */
  lemma WorkStep(s: Regs, i: Pins)
    requires WellFormed(s) && ScanInTable(s.book)
    ensures ScanInTable(Next(s, i).book)
    ensures Work(Next(s, i)) <=
      Max(0, Work(s) - 1) + if P.Receives(s.parser, ParserPort(s, i)) then |s.book.mem| + 4 else 0
  {
    hide R.Next;
    BookWorks(s.book, LEVELS, BookPort(s));
  }

  /** The most work there can be: a message in the book and one behind it. */
  lemma WorkBound(s: Regs)
    ensures Work(s) <= 2 * |s.book.mem| + 7
  {
  }

  lemma {:induction false} ScanStaysInTable(s: Regs, pins: seq<Pins>)
    requires IsReset(s)
    ensures ScanInTable(Clocked(s, pins).book)
  {
    if pins != [] {
      ScanStaysInTable(s, pins[..|pins| - 1]);
      WorkStep(Clocked(s, pins[..|pins| - 1]), pins[|pins| - 1]);
    }
  }

  ghost predicate Quiet(pins: seq<Pins>) { forall k | 0 <= k < |pins| :: !pins[k].tvalid }

  /** A quiet cycle does work and receives nothing. */
  lemma QuietCycle(s: Regs, pins: seq<Pins>, i: Pins)
    requires IsReset(s) && !i.tvalid
    ensures Work(Clocked(s, pins + [i])) <= Max(0, Work(Clocked(s, pins)) - 1)
    ensures P.Framed(s.parser, ParserPorts(s, pins + [i])) == P.Framed(s.parser, ParserPorts(s, pins))
  {
    hide Next, P.Next, Work, P.Clocked;
    assert (pins + [i])[..|pins|] == pins;
    ScanStaysInTable(s, pins);
    WorkStep(Clocked(s, pins), i);
    assert ParserPorts(s, pins + [i])[..|pins|] == ParserPorts(s, pins);
  }

  lemma {:induction false} QuietRun(s: Regs, pins: seq<Pins>, quiet: seq<Pins>)
    requires IsReset(s) && Quiet(quiet)
    ensures Work(Clocked(s, pins + quiet)) <= Max(0, Work(Clocked(s, pins)) - |quiet|)
    ensures P.Framed(s.parser, ParserPorts(s, pins + quiet)) == P.Framed(s.parser, ParserPorts(s, pins))
  {
    hide Clocked, Work, P.Framed, ParserPorts;
    if quiet == [] {
      assert pins + quiet == pins;
    } else {
      var before, last := quiet[..|quiet| - 1], quiet[|quiet| - 1];
      QuietRun(s, pins, before);
      QuietCycle(s, pins + before, last);
      assert pins + before + [last] == pins + quiet;
    }
  }

  /** Idle with nothing held, the book has completed all there was. */
  lemma CaughtUp(s: Regs, pins: seq<Pins>)
    requires IsReset(s) && StreamFits(s, pins) && Work(Clocked(s, pins)) == 0
    ensures |Completed(s, pins)| == |Received(s, pins)|
    ensures Shown(Clocked(s, pins)) == GoldenView(Received(s, pins), |s.book.mem|)
  {
    hide P.Next, R.Next, Next, GoldenView, Shown;
    ScanStaysInTable(s, pins);
    BlocksRun(s, pins);
    P.ParserIsGolden(s.parser, ParserPorts(s, pins));
    HandedOver(s, pins);
    ShownIsGoldenPrefix(s, pins);
    assert Received(s, pins)[..|Received(s, pins)|] == Received(s, pins);
  }

  /** MAIN RESULT. From reset and after any stream of messages the parser can take, 2 * depth + 7 cycles
      without a byte are enough: whatever the book was doing, it then displays the golden book of every
      message received, and stays there while the input is quiet. */
  lemma QuietSettles(s: Regs, pins: seq<Pins>, quiet: seq<Pins>)
    requires IsReset(s) && StreamFits(s, pins) && Quiet(quiet) && |quiet| >= 2 * |s.book.mem| + 7
    ensures Clocked(s, pins + quiet).book.phase.Idle? && !Clocked(s, pins + quiet).parser.mValid
    ensures Shown(Clocked(s, pins + quiet)) == GoldenView(Received(s, pins), |s.book.mem|)
  {
    hide Next, P.Framed, GoldenView, Shown, ParserPorts;
    WorkBound(Clocked(s, pins));
    QuietRun(s, pins, quiet);
    ScanStaysInTable(s, pins + quiet);
    CaughtUp(s, pins + quiet);
  }
}
