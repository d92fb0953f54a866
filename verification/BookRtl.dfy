/** The clocked order book: registered-read table, IDLE/LOOKUP/RESCAN control, and the proof that
    it refines the untimed book of module Book in every cycle. */
module BookRtl {
  import opened Bits
  import opened Messages
  import opened Depth
  import B = Book

  datatype Phase = Idle | Lookup | Rescan

  /** The message port of one cycle. */
  datatype Port = Port(valid: bool, code: Byte, ref: Quad, newRef: Quad, side: Side, shares: Word, price: Word)

  /** All registers. The caches are given by their populated levels. */
  datatype Regs = Regs(
    phase: Phase,
    bid: seq<Level>, ask: seq<Level>,
    scanBid: seq<Level>, scanAsk: seq<Level>,
    scanAddr: nat, procIdx: nat, procEn: bool,
    valid: seq<bool>, mem: seq<Entry>, rd: Entry,
    mCode: Byte, mRef: Quad, mNewRef: Quad, mShares: Word, mPrice: Word, mIdx: nat, mNewIdx: nat)

  /** Sizes are 32-bit registers. */
  function Wrap(levels: seq<Level>): (r: seq<Level>)
    ensures |r| == |levels|
  {
    seq(|levels|, i requires 0 <= i < |levels| => WrapLevel(levels[i]))
  }

  function WrapLevel(l: Level): Level { Level(l.price, l.size % TWO32) }

  function InsertWrapped(levels: seq<Level>, n: nat, side: Side, p: nat, s: nat): seq<Level> {
    Wrap(B.Insert(levels, n, side, p, s))
  }

  predicate WellFormed(s: Regs) {
    && |s.mem| >= 2 && |s.valid| == |s.mem|
    && s.mIdx < |s.mem| && s.mNewIdx < |s.mem| && s.procIdx < |s.mem|
  }

  predicate IsReduceCode(code: nat) { code == 0x58 || code == 0x45 || code == 0x43 }

  predicate IsEditCode(code: nat) { IsReduceCode(code) || code == 0x44 || code == 0x55 }

  /** The displayed-level check of the LOOKUP state. */
  predicate Displayed(s: Regs, n: nat) {
    var levels := if s.rd.side.Ask? then s.ask else s.bid;
    |levels| != n || levels == [] || !Better(s.rd.side, levels[|levels| - 1].price, s.rd.price)
  }

  function NextIdle(s: Regs, n: nat, i: Port): Regs
    requires WellFormed(s)
  {
    var d := |s.mem|;
    var read := s.(rd := s.mem[i.ref % d]);
    if !i.valid then read
    else
      var latched := read.(mCode := i.code, mRef := i.ref, mNewRef := i.newRef, mShares := i.shares,
                           mPrice := i.price, mIdx := i.ref % d, mNewIdx := i.newRef % d);
      if i.code == 0x41 || i.code == 0x46 then
        var stored := latched.(mem := s.mem[i.ref % d := Entry(i.ref, i.side, i.price, i.shares)],
                               valid := s.valid[i.ref % d := true]);
        if i.side.Bid? then stored.(bid := InsertWrapped(s.bid, n, Bid, i.price, i.shares))
        else stored.(ask := InsertWrapped(s.ask, n, Ask, i.price, i.shares))
      else if IsEditCode(i.code) then latched.(phase := Lookup)
      else latched
  }

  /** Valid bits and memory after a matching LOOKUP. */
  function EditState(s: Regs): Regs
    requires WellFormed(s)
  {
    if IsReduceCode(s.mCode) then
      if s.rd.shares > s.mShares
      then s.(mem := s.mem[s.mIdx := s.rd.(shares := s.rd.shares - s.mShares)])
      else s.(valid := s.valid[s.mIdx := false])
    else if s.mCode == 0x44 then s.(valid := s.valid[s.mIdx := false])
    else if s.mCode == 0x55 then
      s.(mem := s.mem[s.mNewIdx := Entry(s.mNewRef, s.rd.side, s.mPrice, s.mShares)],
         valid := s.valid[s.mIdx := false][s.mNewIdx := true])
    else s
  }

  function NextLookup(s: Regs, n: nat): Regs
    requires WellFormed(s)
  {
    if !(s.valid[s.mIdx] && s.rd.ref == s.mRef) then s.(phase := Idle, rd := s.mem[s.mIdx])
    else if s.mCode == 0x55 || Displayed(s, n)
    then
      EditState(s).(phase := Rescan, scanAddr := 0, procEn := false, scanBid := [], scanAsk := [],
                    rd := s.mem[s.mIdx])
    else EditState(s).(phase := Idle, rd := s.mem[s.mIdx])
  }

  /** The scan cache after folding in the entry read last cycle, if it counts. */
  function Folded(levels: seq<Level>, n: nat, side: Side, take: bool, e: Entry): seq<Level> {
    if take && e.side == side then InsertWrapped(levels, n, side, e.price, e.shares) else levels
  }

  /** One RESCAN cycle: issue the read for scanAddr, fold in the entry read last cycle. */
  function NextRescan(s: Regs, n: nat): Regs
    requires WellFormed(s)
  {
    var d := |s.mem|;
    var take := s.procEn && s.valid[s.procIdx];
    var folded := s.(rd := s.mem[s.scanAddr % d],
                     scanBid := Folded(s.scanBid, n, Bid, take, s.rd),
                     scanAsk := Folded(s.scanAsk, n, Ask, take, s.rd));
    if s.scanAddr <= d
    then folded.(procIdx := s.scanAddr % d, procEn := s.scanAddr < d, scanAddr := (s.scanAddr + 1) % (2 * d))
    else folded.(bid := s.scanBid, ask := s.scanAsk, procEn := false, phase := Idle)
  }

  function Next(s: Regs, n: nat, i: Port): (r: Regs)
    requires WellFormed(s)
    ensures WellFormed(r) && |r.mem| == |s.mem|
  {
    match s.phase
    case Idle => NextIdle(s, n, i)
    case Lookup => NextLookup(s, n)
    case Rescan => NextRescan(s, n)
  }

  // ---- refinement -----------------------------------------------------------------------

  function MsgOf(i: Port, kind: Kind): Msg {
    Msg(kind, 0, i.ref, i.side, i.shares, i.price, i.newRef)
  }

  /** Valid bits and valid entries of the registers are those of the golden table. */
  ghost predicate SameTable(s: Regs, table: seq<Slot>) {
    && |table| == |s.mem| && |s.valid| == |s.mem|
    && (forall i | 0 <= i < |table| :: s.valid[i] == table[i].Some?)
    && (forall i | 0 <= i < |table| && table[i].Some? :: s.mem[i] == table[i].value)
  }

  /** The latched message is m. */
  ghost predicate Latched(s: Regs, m: Msg)
    requires s.mem != []
  {
    && IsEdit(m.kind) && s.mCode == Code(m.kind)
    && s.mRef == m.ref && s.mNewRef == m.newRef && s.mShares == m.shares && s.mPrice == m.price
    && s.mIdx == m.ref % |s.mem| && s.mNewIdx == m.newRef % |s.mem|
  }

  /** How far a RESCAN has come through the table. */
  ghost predicate ScanAt(s: Regs, n: nat, table: seq<Slot>)
    requires WellFormed(s) && |table| == |s.mem|
  {
    var done := if s.scanAddr == 0 then 0 else s.scanAddr - 1;
    && s.scanAddr <= |s.mem| + 1
    && (s.procEn <==> 1 <= s.scanAddr <= |s.mem|)
    && (s.procEn ==> s.procIdx == s.scanAddr - 1 && s.rd == s.mem[s.procIdx])
    && s.scanBid == Wrap(B.Rebuild(table[..done], n, Bid))
    && s.scanAsk == Wrap(B.Rebuild(table[..done], n, Ask))
  }

  /** `g` is the golden book before the message in flight, `m` that message when there is one. */
  ghost predicate Refines(s: Regs, n: nat, g: B.Book, m: Option<Msg>) {
    && WellFormed(s) && |g.table| == |s.mem|
    && s.bid == Wrap(g.bid) && s.ask == Wrap(g.ask)
    && (s.phase.Idle? <==> m.None?)
    && match s.phase
       case Idle => SameTable(s, g.table)
       case Lookup => SameTable(s, g.table) && Latched(s, m.value) && s.rd == s.mem[s.mIdx]
       case Rescan =>
         && B.NeedsRescan(g, n, m.value)
         && SameTable(s, B.Edited(g.table, m.value))
         && ScanAt(s, n, B.Edited(g.table, m.value))
  }

  lemma FindPriceWrapped(levels: seq<Level>, side: Side, p: nat)
    ensures B.FindPrice(Wrap(levels), p) == B.FindPrice(levels, p)
    ensures B.InsertionPoint(Wrap(levels), side, p) == B.InsertionPoint(levels, side, p)
  {
    var w := Wrap(levels);
    assert forall i | 0 <= i < |levels| :: w[i].price == levels[i].price;
  }

  lemma WrapSplices(levels: seq<Level>, i: nat, x: Level, n: nat)
    requires i <= |levels|
    ensures Wrap(B.Take(B.Splice(levels, i, x), n)) == Wrap(B.Take(B.Splice(Wrap(levels), i, x), n))
  {
    var wide, wide' := B.Splice(levels, i, x), B.Splice(Wrap(levels), i, x);
    forall j | 0 <= j < |wide| ensures Wrap(wide)[j] == Wrap(wide')[j] {
      if j < i {
        assert wide[j] == levels[j] && wide'[j] == Wrap(levels)[j];
      } else if j > i {
        assert wide[j] == levels[j - 1] && wide'[j] == Wrap(levels)[j - 1];
      }
    }
    assert forall j | 0 <= j < |wide| && j < n ::
      Wrap(B.Take(wide, n))[j] == Wrap(wide)[j] && Wrap(B.Take(wide', n))[j] == Wrap(wide')[j];
  }

  lemma WrapUpdate(levels: seq<Level>, k: nat, s: nat)
    requires k < |levels|
    ensures Wrap(levels[k := Level(levels[k].price, levels[k].size + s)])
         == Wrap(Wrap(levels)[k := Level(levels[k].price, Wrap(levels)[k].size + s)])
  {
    var p := levels[k].price;
    var a, b := levels[k := Level(p, levels[k].size + s)], Wrap(levels)[k := Level(p, Wrap(levels)[k].size + s)];
    forall j | 0 <= j < |levels| ensures Wrap(a)[j] == Wrap(b)[j] {
      if j != k {
        assert a[j] == levels[j] && b[j] == WrapLevel(levels[j]);
      }
    }
  }

  /** Wrapping may be done once at the end or after every insertion. */
  lemma InsertOnWrapped(levels: seq<Level>, n: nat, side: Side, p: nat, s: nat)
    ensures InsertWrapped(Wrap(levels), n, side, p, s) == InsertWrapped(levels, n, side, p, s)
  {
    hide B.Splice, B.Take;
    FindPriceWrapped(levels, side, p);
    var k, i := B.FindPrice(levels, p), B.InsertionPoint(levels, side, p);
    if k < |levels| {
      WrapUpdate(levels, k, s);
    } else if i < n {
      WrapSplices(levels, i, Level(p, s), n);
    } else {
      forall j | 0 <= j < |levels| ensures Wrap(Wrap(levels))[j] == Wrap(levels)[j] {}
    }
  }

  /** The table write of an accepted Add. */
  lemma StoreEntry(s: Regs, r: Regs, table: seq<Slot>, k: nat, e: Entry)
    requires SameTable(s, table) && k < |table|
    requires r.mem == s.mem[k := e] && r.valid == s.valid[k := true]
    ensures SameTable(r, table[k := Some(e)])
  {
  }

  lemma IdleAdd(s: Regs, n: nat, g: B.Book, i: Port, kind: Kind)
    requires Refines(s, n, g, None) && s.phase.Idle?
    requires i.valid && KindOf(i.code) == Some(kind) && IsAdd(kind)
    ensures Refines(Next(s, n, i), n, B.Apply(g, n, MsgOf(i, kind)), None)
  {
    var e := Entry(i.ref, i.side, i.price, i.shares);
    StoreEntry(s, Next(s, n, i), g.table, i.ref % |s.mem|, e);
    if i.side.Bid? {
      InsertOnWrapped(g.bid, n, Bid, i.price, i.shares);
    } else {
      InsertOnWrapped(g.ask, n, Ask, i.price, i.shares);
    }
  }

  lemma IdleOther(s: Regs, n: nat, g: B.Book, i: Port)
    requires Refines(s, n, g, None) && s.phase.Idle?
    requires !(i.valid && (i.code == 0x41 || i.code == 0x46))
    ensures
      if i.valid && IsEditCode(i.code)
      then Refines(Next(s, n, i), n, g, Some(MsgOf(i, KindOf(i.code).value)))
      else Refines(Next(s, n, i), n, g, None)
  {
    var r := Next(s, n, i);
    assert SameTable(r, g.table);
  }

  lemma IdleStep(s: Regs, n: nat, g: B.Book, i: Port)
    requires Refines(s, n, g, None) && s.phase.Idle?
    ensures
      var kind := KindOf(i.code);
      if !i.valid || kind.None? then Refines(Next(s, n, i), n, g, None)
      else if IsEdit(kind.value) then Refines(Next(s, n, i), n, g, Some(MsgOf(i, kind.value)))
      else Refines(Next(s, n, i), n, B.Apply(g, n, MsgOf(i, kind.value)), None)
  {
    var kind := KindOf(i.code);
    if i.valid && kind.Some? && IsAdd(kind.value) {
      IdleAdd(s, n, g, i, kind.value);
    } else {
      IdleOther(s, n, g, i);
    }
  }

  /** The displayed check of the registers is that of the golden book. */
  lemma SameCheck(s: Regs, n: nat, g: B.Book, e: Entry)
    requires s.bid == Wrap(g.bid) && s.ask == Wrap(g.ask) && s.rd == e
    ensures Displayed(s, n) == B.AffectsDisplayed(g, n, e)
  {
    var levels := g.Levels(e.side);
    assert forall k | 0 <= k < |levels| :: Wrap(levels)[k].price == levels[k].price;
  }

  /** The edit LOOKUP writes back is the golden edit, Replace onto its own slot included. */
  lemma SameEdit(s: Regs, g: B.Book, m: Msg)
    requires WellFormed(s) && |g.table| == |s.mem| && SameTable(s, g.table)
    requires Latched(s, m) && s.rd == s.mem[s.mIdx] && B.Matches(g.table, m)
    ensures SameTable(EditState(s), B.Edited(g.table, m))
  {
    var table', r := B.Edited(g.table, m), EditState(s);
    var e := g.table[s.mIdx].value;
    assert s.rd == e;
    if m.kind.Replace? {
      assert r.valid == s.valid[s.mIdx := false][s.mNewIdx := true];
      assert table' == g.table[s.mIdx := None][s.mNewIdx := Some(Entry(m.newRef, e.side, m.price, m.shares))];
    } else if IsReduce(m.kind) && e.shares > m.shares {
      assert r.valid == s.valid && r.mem == s.mem[s.mIdx := e.(shares := e.shares - m.shares)];
    } else {
      assert r.valid == s.valid[s.mIdx := false] && r.mem == s.mem && table' == g.table[s.mIdx := None];
    }
  }

  /** The match test of LOOKUP is the golden one, on the golden entry. */
  lemma MatchSeen(s: Regs, g: B.Book, m: Msg)
    requires WellFormed(s) && |g.table| == |s.mem| && SameTable(s, g.table)
    requires Latched(s, m) && s.rd == s.mem[s.mIdx]
    ensures B.Matches(g.table, m) <==> s.valid[s.mIdx] && s.rd.ref == s.mRef
    ensures B.Matches(g.table, m) ==> g.table[s.mIdx].Some? && g.table[s.mIdx].value == s.rd
  {
  }

  /** Right after LOOKUP the scan is at its start. */
  lemma ScanStarts(s: Regs, n: nat, table: seq<Slot>)
    requires WellFormed(s) && |table| == |s.mem|
    requires s.scanAddr == 0 && !s.procEn && s.scanBid == [] && s.scanAsk == []
    ensures ScanAt(s, n, table)
  {
  }

  lemma LookupStep(s: Regs, n: nat, g: B.Book, m: Msg, i: Port)
    requires Refines(s, n, g, Some(m)) && s.phase.Lookup?
    ensures
      if B.NeedsRescan(g, n, m)
      then Next(s, n, i).phase.Rescan? && Next(s, n, i).scanAddr == 0 && Refines(Next(s, n, i), n, g, Some(m))
      else Refines(Next(s, n, i), n, B.Apply(g, n, m), None)
  {
    hide ScanAt, B.Edited;
    MatchSeen(s, g, m);
    if B.Matches(g.table, m) {
      SameCheck(s, n, g, g.table[s.mIdx].value);
      SameEdit(s, g, m);
      if Next(s, n, i).phase.Rescan? {
        ScanStarts(Next(s, n, i), n, B.Edited(g.table, m));
      }
    }
  }

  /** Folding the entry just read extends the rebuilt prefix by one slot. */
  lemma FoldStep(levels: seq<Level>, n: nat, slots: seq<Slot>, k: nat, side: Side)
    requires k < |slots| && levels == Wrap(B.Rebuild(slots[..k], n, side))
    ensures Wrap(B.Rebuild(slots[..k + 1], n, side)) ==
      if slots[k].Some? && slots[k].value.side == side
      then InsertWrapped(levels, n, side, slots[k].value.price, slots[k].value.shares) else levels
  {
    assert slots[..k + 1][..k] == slots[..k];
    if slots[k].Some? {
      InsertOnWrapped(B.Rebuild(slots[..k], n, side), n, side, slots[k].value.price, slots[k].value.shares);
    }
  }

  /** The addressing of one RESCAN cycle: what is requested now is what is folded in next. */
  lemma ScanAddressing(s: Regs, n: nat)
    requires WellFormed(s) && s.scanAddr <= |s.mem|
    ensures
      var r, d := NextRescan(s, n), |s.mem|;
      && r.scanAddr == s.scanAddr + 1 && r.mem == s.mem && r.valid == s.valid
      && (r.procEn <==> s.scanAddr < d)
      && (r.procEn ==> r.procIdx == s.scanAddr && r.rd == s.mem[s.scanAddr])
  {
    var d := |s.mem|;
    SmallMod(s.scanAddr + 1, 2 * d);
    if s.scanAddr < d { SmallMod(s.scanAddr, d); }
  }

  /** The scan pairs each address with the entry stored there and folds it in once. */
  lemma ScanStep(s: Regs, n: nat, table: seq<Slot>)
    requires WellFormed(s) && SameTable(s, table) && ScanAt(s, n, table) && s.scanAddr <= |s.mem|
    ensures SameTable(NextRescan(s, n), table) && ScanAt(NextRescan(s, n), n, table)
    ensures NextRescan(s, n).scanAddr == s.scanAddr + 1
  {
    ScanAddressing(s, n);
    if s.procEn {
      var k := s.scanAddr - 1;
      assert s.valid[k] == table[k].Some? && (s.valid[k] ==> s.rd == table[k].value);
      FoldStep(s.scanBid, n, table, k, Bid);
      FoldStep(s.scanAsk, n, table, k, Ask);
    } else {
      assert s.scanAddr == 0;
    }
  }

  lemma RescanMoves(s: Regs, n: nat, g: B.Book, m: Msg, i: Port)
    requires Refines(s, n, g, Some(m)) && s.phase.Rescan? && s.scanAddr <= |s.mem|
    ensures Next(s, n, i).phase.Rescan? && Next(s, n, i).scanAddr == s.scanAddr + 1
    ensures Refines(Next(s, n, i), n, g, Some(m))
  {
    ScanStep(s, n, B.Edited(g.table, m));
  }

  /** When the address has run past the table the last entry is already folded in. */
  lemma ScanCommits(s: Regs, n: nat, table: seq<Slot>)
    requires WellFormed(s) && SameTable(s, table) && ScanAt(s, n, table) && s.scanAddr == |s.mem| + 1
    ensures
      var r := NextRescan(s, n);
      && r.phase.Idle? && WellFormed(r) && |r.mem| == |table| && SameTable(r, table)
      && r.bid == Wrap(B.Rebuild(table, n, Bid)) && r.ask == Wrap(B.Rebuild(table, n, Ask))
  {
    assert table[..|s.mem|] == table;
  }

  lemma RescanCommits(s: Regs, n: nat, g: B.Book, m: Msg, i: Port)
    requires Refines(s, n, g, Some(m)) && s.phase.Rescan? && s.scanAddr == |s.mem| + 1
    ensures Refines(Next(s, n, i), n, B.Apply(g, n, m), None)
  {
    ScanCommits(s, n, B.Edited(g.table, m));
    assert B.Apply(g, n, m) == B.Rescanned(B.Edited(g.table, m), n);
  }

  /** One clock outside IDLE: the message in flight stays, or completes on the golden book. */
  lemma BusyStep(s: Regs, n: nat, g: B.Book, m: Msg, i: Port)
    requires Refines(s, n, g, Some(m)) && !s.phase.Idle?
    ensures
      if Next(s, n, i).phase.Idle? then Refines(Next(s, n, i), n, B.Apply(g, n, m), None)
      else Refines(Next(s, n, i), n, g, Some(m))
  {
    hide Next, B.Apply, B.NeedsRescan, SameTable;
    if s.phase.Lookup? {
      LookupStep(s, n, g, m, i);
    } else if s.scanAddr <= |s.mem| {
      RescanMoves(s, n, g, m, i);
    } else {
      RescanCommits(s, n, g, m, i);
    }
  }

  // ---- whole runs ----------------------------------------------------------------------

  /** The registers after a run of clock cycles, whatever the message port does in each. */
  function Clocked(s: Regs, n: nat, ports: seq<Port>): (r: Regs)
    requires WellFormed(s)
    ensures WellFormed(r) && |r.mem| == |s.mem|
  {
    if ports == [] then s else Next(Clocked(s, n, ports[..|ports| - 1]), n, ports[|ports| - 1])
  }

  /** The supported messages taken while msg_ready was high. */
  function Accepted(s: Regs, n: nat, ports: seq<Port>): seq<Msg>
    requires WellFormed(s)
  {
    if ports == [] then []
    else
      var before, i := ports[..|ports| - 1], ports[|ports| - 1];
      var earlier := Accepted(s, n, before);
      if Clocked(s, n, before).phase.Idle? && i.valid && KindOf(i.code).Some?
      then earlier + [MsgOf(i, KindOf(i.code).value)] else earlier
  }

  /** Registers after reset: the memory contents are arbitrary. */
  ghost predicate IsReset(s: Regs) {
    WellFormed(s) && s.phase.Idle? && s.bid == [] && s.ask == [] && forall i | 0 <= i < |s.valid| :: !s.valid[i]
  }

  /** Accepted messages without the one still in flight. */
  function Completed(s: Regs, n: nat, ports: seq<Port>): seq<Msg>
    requires WellFormed(s)
  {
    var all := Accepted(s, n, ports);
    if Clocked(s, n, ports).phase.Idle? || all == [] then all else all[..|all| - 1]
  }

  function InFlight(s: Regs, n: nat, ports: seq<Port>): Option<Msg>
    requires WellFormed(s)
  {
    var all := Accepted(s, n, ports);
    if Clocked(s, n, ports).phase.Idle? || all == [] then None else Some(all[|all| - 1])
  }

  /** One clock in IDLE: what was accepted and what completed. */
  lemma RunIdle(s: Regs, n: nat, ports: seq<Port>)
    requires WellFormed(s) && ports != []
    requires
      var before := ports[..|ports| - 1];
      && Clocked(s, n, before).phase.Idle?
      && Refines(Clocked(s, n, before), n, B.Run(|s.mem|, n, Accepted(s, n, before)), None)
    ensures Refines(Clocked(s, n, ports), n, B.Run(|s.mem|, n, Completed(s, n, ports)), InFlight(s, n, ports))
    ensures !Clocked(s, n, ports).phase.Idle? ==> Accepted(s, n, ports) != []
  {
    var before, i := ports[..|ports| - 1], ports[|ports| - 1];
    var earlier, all := Accepted(s, n, before), Accepted(s, n, ports);
    var g, kind := B.Run(|s.mem|, n, earlier), KindOf(i.code);
    IdleStep(Clocked(s, n, before), n, g, i);
    if !i.valid || kind.None? {
      assert all == earlier && InFlight(s, n, ports) == None;
    } else {
      assert all == earlier + [MsgOf(i, kind.value)] && all[..|all| - 1] == earlier;
      if IsEdit(kind.value) {
        assert Completed(s, n, ports) == earlier && InFlight(s, n, ports) == Some(MsgOf(i, kind.value));
      } else {
        assert Completed(s, n, ports) == all && InFlight(s, n, ports) == None;
      }
    }
  }

  /** One clock outside IDLE: nothing is accepted, the message in flight may complete. */
  lemma RunBusy(s: Regs, n: nat, ports: seq<Port>)
    requires WellFormed(s) && ports != []
    requires
      var before := ports[..|ports| - 1];
      && !Clocked(s, n, before).phase.Idle? && Accepted(s, n, before) != []
      && Refines(Clocked(s, n, before), n, B.Run(|s.mem|, n, Completed(s, n, before)), InFlight(s, n, before))
    ensures Refines(Clocked(s, n, ports), n, B.Run(|s.mem|, n, Completed(s, n, ports)), InFlight(s, n, ports))
    ensures !Clocked(s, n, ports).phase.Idle? ==> Accepted(s, n, ports) != []
  {
    hide Next, Refines, B.Apply;
    var before, i := ports[..|ports| - 1], ports[|ports| - 1];
    var m := InFlight(s, n, before).value;
    BusyStep(Clocked(s, n, before), n, B.Run(|s.mem|, n, Completed(s, n, before)), m, i);
    assert Accepted(s, n, ports) == Accepted(s, n, before) == Completed(s, n, before) + [m];
    if Clocked(s, n, ports).phase.Idle? {
      assert Completed(s, n, ports)[..|Completed(s, n, before)|] == Completed(s, n, before);
    }
  }

  lemma {:induction false} RunRefines(s: Regs, n: nat, ports: seq<Port>)
    requires IsReset(s)
    ensures Refines(Clocked(s, n, ports), n, B.Run(|s.mem|, n, Completed(s, n, ports)), InFlight(s, n, ports))
    ensures !Clocked(s, n, ports).phase.Idle? ==> Accepted(s, n, ports) != []
  {
    if ports != [] {
      RunRefines(s, n, ports[..|ports| - 1]);
      if Clocked(s, n, ports[..|ports| - 1]).phase.Idle? {
        RunIdle(s, n, ports);
      } else {
        RunBusy(s, n, ports);
      }
    }
  }

  /** MAIN RESULT. From reset, under any pattern of messages and gaps: the displayed book is in
      every cycle the golden book of the completed messages (sizes modulo 2^32), so it only ever
      moves from the golden book before a message to the one after it; and whenever the FSM is
      idle, the valid bits and valid entries are those of the golden table. */
  lemma RtlRefinesGolden(s: Regs, n: nat, ports: seq<Port>)
    requires IsReset(s)
    ensures
      var r, g := Clocked(s, n, ports), B.Run(|s.mem|, n, Completed(s, n, ports));
      && r.bid == Wrap(g.bid) && r.ask == Wrap(g.ask)
      && (r.phase.Idle? ==> Completed(s, n, ports) == Accepted(s, n, ports) && SameTable(r, g.table))
  {
    RunRefines(s, n, ports);
  }

  /** Cycles from the acceptance of m until msg_ready is high again, not counting the cycle of
      acceptance itself. */
  function BusyCycles(g: B.Book, n: nat, m: Msg): nat
    requires g.table != []
  {
    if !IsEdit(m.kind) then 0 else if !B.NeedsRescan(g, n, m) then 1 else |g.table| + 3
  }

  /** RESCAN takes exactly depth + 2 cycles from its start, independent of the message port. */
  lemma {:induction false} RescanLasts(s: Regs, n: nat, g: B.Book, m: Msg, ports: seq<Port>)
    requires Refines(s, n, g, Some(m)) && s.phase.Rescan? && s.scanAddr == 0
    requires |ports| <= |s.mem| + 2
    ensures
      var r := Clocked(s, n, ports);
      if |ports| < |s.mem| + 2 then r.phase.Rescan? && r.scanAddr == |ports| && Refines(r, n, g, Some(m))
      else Refines(r, n, B.Apply(g, n, m), None)
  {
    if ports != [] {
      var before, i := ports[..|ports| - 1], ports[|ports| - 1];
      RescanLasts(s, n, g, m, before);
      var r := Clocked(s, n, before);
      if r.scanAddr <= |r.mem| {
        RescanMoves(r, n, g, m, i);
      } else {
        RescanCommits(r, n, g, m, i);
      }
    }
  }

  lemma {:induction false} ClockedConcat(s: Regs, n: nat, a: seq<Port>, b: seq<Port>)
    requires WellFormed(s)
    ensures Clocked(s, n, a + b) == Clocked(Clocked(s, n, a), n, b)
  {
    if b == [] {
      assert a + b == a;
    } else {
      assert (a + b)[..|a + b| - 1] == a + b[..|b| - 1];
      ClockedConcat(s, n, a, b[..|b| - 1]);
    }
  }

  lemma OneClock(s: Regs, n: nat, i: Port)
    requires WellFormed(s)
    ensures Clocked(s, n, [i]) == Next(s, n, i)
  {
    assert [i][..0] == [];
  }

  /** From LOOKUP on: the cycle of the lookup, then the rescan if there is one. */
  lemma LookupReturns(s: Regs, n: nat, g: B.Book, m: Msg, later: seq<Port>)
    requires Refines(s, n, g, Some(m)) && s.phase.Lookup? && later != []
    requires |later| <= if B.NeedsRescan(g, n, m) then |g.table| + 3 else 1
    ensures
      var r := Clocked(s, n, later);
      if B.NeedsRescan(g, n, m) && |later| < |g.table| + 3 then !r.phase.Idle?
      else r.phase.Idle? && Refines(r, n, B.Apply(g, n, m), None)
  {
    hide Next, B.Apply, B.NeedsRescan;
    assert later == [later[0]] + later[1..];
    OneClock(s, n, later[0]);
    ClockedConcat(s, n, [later[0]], later[1..]);
    LookupStep(s, n, g, m, later[0]);
    if B.NeedsRescan(g, n, m) {
      RescanLasts(Next(s, n, later[0]), n, g, m, later[1..]);
    } else {
      assert later[1..] == [];
    }
  }

  lemma NoRescanFromIdle(s: Regs, n: nat, i: Port)
    requires WellFormed(s) && s.phase.Idle?
    ensures !Next(s, n, i).phase.Rescan?
  {
  }

  /** A message accepted in IDLE holds msg_ready low for exactly BusyCycles cycles, after which its
      effect is the golden one. */
  lemma ReadyReturns(s: Regs, n: nat, g: B.Book, i: Port, later: seq<Port>)
    requires Refines(s, n, g, None) && i.valid && KindOf(i.code).Some?
    requires |later| <= BusyCycles(g, n, MsgOf(i, KindOf(i.code).value))
    ensures
      var m := MsgOf(i, KindOf(i.code).value);
      var r := Clocked(s, n, [i] + later);
      if |later| < BusyCycles(g, n, m) then !r.phase.Idle?
      else r.phase.Idle? && Refines(r, n, B.Apply(g, n, m), None)
  {
    hide Next, B.Apply, B.NeedsRescan, SameTable, ScanAt;
    var m := MsgOf(i, KindOf(i.code).value);
    OneClock(s, n, i);
    ClockedConcat(s, n, [i], later);
    IdleStep(s, n, g, i);
    NoRescanFromIdle(s, n, i);
    if later != [] {
      LookupReturns(Next(s, n, i), n, g, m, later);
    }
  }
}
