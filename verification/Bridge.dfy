/** The host bridge: an ingress ring FIFO filled by bus writes, an egress capture buffer, and the bus
    state machines; what a host may rely on. */
module Bridge {
  import opened Bits
  import opened Messages

  const IF_DEPTH: nat := 64
  const DEC_CAP: nat := 128
  const INGRESS: nat := 0x200
  const STATUS: nat := 0x204
  const COUNT: nat := 0x2FC
  const DEC_BASE: nat := 0x400
  const BAD_READ: Word := 0xDEAD_BEEF

  /** One ingress word: {tlast, byte}. */
  datatype Item = Item(last: bool, data: Byte)

  /** One decision beat. */
  datatype Beat = Beat(sell: bool, price: Word, size: Word)

  // ---- the ring FIFO ---------------------------------------------------------------------------

  /** Ring address k places after rd. */
  function Ring(rd: nat, k: nat): nat
    requires rd < IF_DEPTH && k <= IF_DEPTH
  {
    if rd + k < IF_DEPTH then rd + k else rd + k - IF_DEPTH
  }

  datatype Fifo = Fifo(mem: seq<Item>, rd: nat, wr: nat, cnt: nat) {
    predicate Valid() {
      |mem| == IF_DEPTH && rd < IF_DEPTH && wr < IF_DEPTH && cnt <= IF_DEPTH && wr == Ring(rd, cnt)
    }

    predicate Full() { cnt == IF_DEPTH }
    predicate Empty() { cnt == 0 }

    /** What is queued, oldest first. */
    function Contents(): (r: seq<Item>)
      requires Valid()
      ensures |r| == cnt
    {
      seq(cnt, k requires 0 <= k < cnt => mem[Ring(rd, k)])
    }
  }

  /** Pushes and pops of one cycle; a push onto a full FIFO is dropped. */
  function FifoNext(f: Fifo, push: bool, item: Item, ready: bool): Fifo
    requires f.Valid()
  {
    var pushes := push && !f.Full();
    var pops := !f.Empty() && ready;
    Fifo(if pushes then f.mem[f.wr := item] else f.mem,
         if pops then Ring(f.rd, 1) else f.rd,
         if pushes then Ring(f.wr, 1) else f.wr,
         if pushes && !pops then f.cnt + 1 else if pops && !pushes then f.cnt - 1 else f.cnt)
  }

  /** After one step a place of the ring holds what it held, or the pushed item. */
  lemma FifoStepAt(f: Fifo, push: bool, item: Item, ready: bool, k: nat)
    requires f.Valid()
    requires var pops := !f.Empty() && ready; k < FifoNext(f, push, item, ready).cnt + Flag(pops) && (pops ==> k > 0)
    ensures
      var f', pops := FifoNext(f, push, item, ready), !f.Empty() && ready;
      f'.mem[Ring(f'.rd, k - Flag(pops))] == if k < f.cnt then f.mem[Ring(f.rd, k)] else item
  {
  }

  lemma FifoCount(f: Fifo, push: bool, item: Item, ready: bool)
    requires f.Valid()
    ensures
      var f' := FifoNext(f, push, item, ready);
      var pushes, pops := push && !f.Full(), !f.Empty() && ready;
      f'.Valid() && f'.cnt == f.cnt + Flag(pushes) - Flag(pops)
  {
  }

  /** Stepping the ring by one keeps it a queue. */
  lemma FifoStep(f: Fifo, push: bool, item: Item, ready: bool)
    requires f.Valid()
    ensures
      var f' := FifoNext(f, push, item, ready);
      var pushes, pops := push && !f.Full(), !f.Empty() && ready;
      && f'.Valid()
      && f.Contents() + (if pushes then [item] else []) == (if pops then [f.mem[f.rd]] else []) + f'.Contents()
  {
    FifoCount(f, push, item, ready);
    hide FifoNext, Ring;
    var f' := FifoNext(f, push, item, ready);
    var pushes, pops := push && !f.Full(), !f.Empty() && ready;
    var whole := f.Contents() + (if pushes then [item] else []);
    var out := (if pops then [f.mem[f.rd]] else []) + f'.Contents();
    assert f'.Valid() && |whole| == |out|;
    forall k | 0 <= k < |whole| ensures whole[k] == out[k] {
      if !pops || k > 0 {
        FifoStepAt(f, push, item, ready, k);
        assert out[k] == f'.mem[Ring(f'.rd, k - Flag(pops))];
      }
    }
  }

  // ---- the egress capture ------------------------------------------------------------------------

  datatype Egress = Egress(buf: seq<Beat>, cnt: nat, overflow: bool) {
    predicate Valid() { |buf| == DEC_CAP && cnt <= DEC_CAP }
  }

  function EgressNext(e: Egress, beat: Option<Beat>): Egress
    requires e.Valid()
  {
    if beat.None? then e
    else if e.cnt < DEC_CAP then Egress(e.buf[e.cnt := beat.value], e.cnt + 1, e.overflow)
    else e.(overflow := true)
  }

  // ---- the bus ---------------------------------------------------------------------------------

  datatype Phase = Idle | Forward | Respond

  /** Write path: FSM, response valid, forwarded handshakes and the push register. */
  datatype WriteSide = WriteSide(phase: Phase, bvalid: bool, awOut: bool, wOut: bool, addrOut: nat, dataOut: Word,
                                 bReady: bool, push: bool, item: Item)

  datatype ReadSide = ReadSide(phase: Phase, rvalid: bool, rdata: Word, arOut: bool, addrOut: nat, rReady: bool)

  /** Bus, stream and core pins of one cycle. */
  datatype Pins = Pins(
    awvalid: bool, awaddr: Word, wvalid: bool, wdata: Word, bready: bool,
    arvalid: bool, araddr: Word, rready: bool,
    streamReady: bool, beat: Option<Beat>,
    cAwready: bool, cWready: bool, cBvalid: bool, cArready: bool, cRvalid: bool, cRdata: Word)

  predicate IsLow(a: Word) { a < INGRESS }

  function ItemOf(data: Word): Item { Item((data / 0x100) % 2 == 1, data % 0x100) }

  /** An accepted write to the ingress register: any upper address whose low nine bits are zero. */
  predicate IngressWrite(w: WriteSide, i: Pins) {
    w.phase.Idle? && i.awvalid && i.wvalid && !IsLow(i.awaddr) && i.awaddr % 0x200 == 0
  }

  function WriteNext(w: WriteSide, i: Pins): WriteSide {
    var quiet := w.(push := false);
    match w.phase
    case Idle =>
      if !(i.awvalid && i.wvalid) then quiet
      else if IsLow(i.awaddr) then
        quiet.(phase := Forward, awOut := true, wOut := true, addrOut := i.awaddr, dataOut := i.wdata, bReady := true)
      else if IngressWrite(w, i) then quiet.(phase := Respond, bvalid := true, push := true, item := ItemOf(i.wdata))
      else quiet.(phase := Respond, bvalid := true)
    case Forward =>
      var sent := quiet.(awOut := w.awOut && !i.cAwready, wOut := w.wOut && !i.cWready);
      if i.cBvalid then sent.(phase := Respond, bvalid := true, bReady := false) else sent
    case Respond =>
      if w.bvalid && i.bready then quiet.(phase := Idle, bvalid := false) else quiet
  }

  function Flag(b: bool): nat { if b then 1 else 0 }

  function StatusWord(f: Fifo, e: Egress): Word {
    (e.cnt % 0x100) * 0x100 + Flag(e.overflow) * 4 + Flag(f.Empty()) * 2 + Flag(f.Full())
  }

  /** A local register read. */
  function LocalRead(a: Word, f: Fifo, e: Egress): Word
    requires e.Valid()
  {
    if a % 0x1000 == STATUS then StatusWord(f, e)
    else if a % 0x1000 == COUNT then e.cnt
    else if DEC_BASE <= a < DEC_BASE + 16 * DEC_CAP then
      var d := e.buf[((a - DEC_BASE) / 16) % DEC_CAP];
      if (a / 4) % 4 == 0 then Flag(d.sell)
      else if (a / 4) % 4 == 1 then d.price
      else if (a / 4) % 4 == 2 then d.size
      else BAD_READ
    else BAD_READ
  }

  function ReadNext(r: ReadSide, i: Pins, f: Fifo, e: Egress): ReadSide
    requires e.Valid()
  {
    match r.phase
    case Idle =>
      if !i.arvalid then r
      else if IsLow(i.araddr) then r.(phase := Forward, arOut := true, addrOut := i.araddr, rReady := true)
      else r.(phase := Respond, rvalid := true, rdata := LocalRead(i.araddr, f, e))
    case Forward =>
      var sent := r.(arOut := r.arOut && !i.cArready);
      if i.cRvalid then sent.(phase := Respond, rvalid := true, rdata := i.cRdata, rReady := false) else sent
    case Respond =>
      if r.rvalid && i.rready then r.(phase := Idle, rvalid := false) else r
  }

  datatype Regs = Regs(fifo: Fifo, egress: Egress, write: WriteSide, read: ReadSide) {
    ghost predicate Valid() {
      && fifo.Valid() && egress.Valid()
      && (write.push ==> write.phase.Respond?)
      && (write.bvalid <==> write.phase.Respond?) && (read.rvalid <==> read.phase.Respond?)
    }
  }

  function Next(s: Regs, i: Pins): Regs
    requires s.fifo.Valid() && s.egress.Valid()
  {
    Regs(FifoNext(s.fifo, s.write.push, s.write.item, i.streamReady), EgressNext(s.egress, i.beat),
         WriteNext(s.write, i), ReadNext(s.read, i, s.fifo, s.egress))
  }

  lemma NextValid(s: Regs, i: Pins)
    requires s.Valid()
    ensures Next(s, i).Valid()
  {
    FifoStep(s.fifo, s.write.push, s.write.item, i.streamReady);
  }

  ghost predicate IsReset(s: Regs) {
    && s.Valid() && s.fifo.rd == s.fifo.wr == s.fifo.cnt == 0
    && s.egress.cnt == 0 && !s.egress.overflow
    && s.write.phase.Idle? && !s.write.push && s.read.phase.Idle?
  }

  // ---- runs ---------------------------------------------------------------------------------------

  /** The state after these cycles. */
  ghost function Clocked(s: Regs, pins: seq<Pins>): (r: Regs)
    requires s.Valid()
    ensures r.Valid()
  {
    if pins == [] then s
    else
      var r := Clocked(s, pins[..|pins| - 1]);
      NextValid(r, pins[|pins| - 1]);
      Next(r, pins[|pins| - 1])
  }

  /** Items the host has written to the ingress register. */
  ghost function Requested(s: Regs, pins: seq<Pins>): seq<Item>
    requires s.Valid()
  {
    if pins == [] then []
    else
      var before, i := pins[..|pins| - 1], pins[|pins| - 1];
      Requested(s, before) + (if IngressWrite(Clocked(s, before).write, i) then [ItemOf(i.wdata)] else [])
  }

  /** Items that entered the FIFO. */
  ghost function Pushed(s: Regs, pins: seq<Pins>): seq<Item>
    requires s.Valid()
  {
    if pins == [] then []
    else
      var before := pins[..|pins| - 1];
      var r := Clocked(s, before);
      Pushed(s, before) + (if r.write.push && !r.fifo.Full() then [r.write.item] else [])
  }

  /** Items handed to the parser stream. */
  ghost function Streamed(s: Regs, pins: seq<Pins>): seq<Item>
    requires s.Valid()
  {
    if pins == [] then []
    else
      var before, i := pins[..|pins| - 1], pins[|pins| - 1];
      var r := Clocked(s, before);
      Streamed(s, before) + (if !r.fifo.Empty() && i.streamReady then [r.fifo.mem[r.fifo.rd]] else [])
  }

  /** MAIN RESULT. In every reachable state the items handed on, followed by those queued, are exactly
      the accepted pushes, in order. */
  lemma {:induction false} FifoOrder(s: Regs, pins: seq<Pins>)
    requires IsReset(s)
    ensures Pushed(s, pins) == Streamed(s, pins) + Clocked(s, pins).fifo.Contents()
  {
    if pins != [] {
      var before, i := pins[..|pins| - 1], pins[|pins| - 1];
      FifoOrder(s, before);
      var r := Clocked(s, before);
      FifoStep(r.fifo, r.write.push, r.write.item, i.streamReady);
      var pushed := if r.write.push && !r.fifo.Full() then [r.write.item] else [];
      var popped := if !r.fifo.Empty() && i.streamReady then [r.fifo.mem[r.fifo.rd]] else [];
      var queued, queued' := r.fifo.Contents(), Clocked(s, pins).fifo.Contents();
      Requeue(Streamed(s, before), queued, pushed, popped, queued');
    }
  }

  lemma Requeue(streamed: seq<Item>, queued: seq<Item>, pushed: seq<Item>, popped: seq<Item>, queued': seq<Item>)
    requires queued + pushed == popped + queued'
    ensures (streamed + queued) + pushed == (streamed + popped) + queued'
  {
    assert (streamed + queued) + pushed == streamed + (queued + pushed);
    assert (streamed + popped) + queued' == streamed + (popped + queued');
  }

  // ---- what a bus read answers ------------------------------------------------------------------------

  /** A read the bridge has taken and not answered: its address, and the cycle that took it. */
  datatype Read = Read(addr: Word, at: nat)

  /** Reads are taken while arready is high and answered when rvalid meets rready. */
  ghost function Pending(s: Regs, pins: seq<Pins>): Option<Read>
    requires s.Valid()
  {
    if pins == [] then None
    else
      var before, i := pins[..|pins| - 1], pins[|pins| - 1];
      var r := Clocked(s, before).read;
      if r.phase.Idle? && i.arvalid then Some(Read(i.araddr, |before|))
      else if r.rvalid && i.rready then None
      else Pending(s, before)
  }

  /** The answer of a forwarded read, first given after cycle k. */
  ghost predicate AnsweredAt(pins: seq<Pins>, at: nat, k: nat, word: Word) {
    && at < k < |pins| && pins[k].cRvalid && pins[k].cRdata == word
    && forall j | at < j < k :: !pins[j].cRvalid
  }

  ghost predicate Forwarded(pins: seq<Pins>, at: nat, word: Word) { exists k: nat :: AnsweredAt(pins, at, k, word) }

  /** What the read side holds while a read is on its way. */
  ghost predicate ReadHolds(s: Regs, pins: seq<Pins>, p: Option<Read>)
    requires s.Valid()
  {
    var r := Clocked(s, pins).read;
    match p
    case None => r.phase.Idle? && !r.rvalid
    case Some(Read(addr, at)) =>
      && !r.phase.Idle? && at < |pins| && pins[at].arvalid && pins[at].araddr == addr
      && (addr >= 0x200 ==>
        r.rvalid && r.rdata == LocalRead(addr, Clocked(s, pins[..at]).fifo, Clocked(s, pins[..at]).egress))
      && (addr < 0x200 && !r.rvalid ==>
        r.phase.Forward? && r.addrOut == addr && forall j | at < j < |pins| :: !pins[j].cRvalid)
      && (addr < 0x200 && r.rvalid ==> Forwarded(pins, at, r.rdata))
  }

  lemma ForwardedStays(pins: seq<Pins>, i: Pins, at: nat, word: Word)
    requires Forwarded(pins, at, word)
    ensures Forwarded(pins + [i], at, word)
  {
    var k: nat :| AnsweredAt(pins, at, k, word);
    assert AnsweredAt(pins + [i], at, k, word);
  }

  lemma ForwardedNow(pins: seq<Pins>, i: Pins, at: nat)
    requires at < |pins| && i.cRvalid && forall j | at < j < |pins| :: !pins[j].cRvalid
    ensures Forwarded(pins + [i], at, i.cRdata)
  {
    assert AnsweredAt(pins + [i], at, |pins|, i.cRdata);
  }

  lemma ClockedSnoc(s: Regs, before: seq<Pins>, i: Pins)
    requires s.Valid()
    ensures Clocked(s, before + [i]) == Next(Clocked(s, before), i)
    ensures
      var r := Clocked(s, before).read;
      Pending(s, before + [i]) ==
      if r.phase.Idle? && i.arvalid then Some(Read(i.araddr, |before|))
      else if r.rvalid && i.rready then None else Pending(s, before)
  {
    assert (before + [i])[..|before|] == before;
  }

  /** A read is taken. */
  lemma ReadTaken(s: Regs, before: seq<Pins>, i: Pins)
    requires s.Valid() && Clocked(s, before).read.phase.Idle? && i.arvalid
    ensures ReadHolds(s, before + [i], Some(Read(i.araddr, |before|)))
  {
    hide LocalRead, Forwarded, FifoNext, EgressNext, WriteNext, Clocked, Pending;
    ClockedSnoc(s, before, i);
    assert (before + [i])[..|before|] == before;
  }

  /** A read taken earlier is still on its way. */
  lemma ReadWaits(s: Regs, before: seq<Pins>, i: Pins, p: Read)
    requires s.Valid() && ReadHolds(s, before, Some(p))
    requires !(Clocked(s, before).read.rvalid && i.rready)
    ensures ReadHolds(s, before + [i], Some(p))
  {
    hide LocalRead, Forwarded, FifoNext, EgressNext, WriteNext, Clocked, Pending;
    ClockedSnoc(s, before, i);
    var pins, r := before + [i], Clocked(s, before).read;
    assert pins[..p.at] == before[..p.at] && pins[p.at] == before[p.at];
    if p.addr < 0x200 {
      if r.rvalid {
        ForwardedStays(before, i, p.at, r.rdata);
      } else if i.cRvalid {
        ForwardedNow(before, i, p.at);
      } else {
        assert forall k | p.at < k < |pins| :: pins[k] == if k < |before| then before[k] else i;
      }
    }
  }

  /** MAIN RESULT. After any bus traffic, a read taken and not yet answered is held as it was asked. A local one is
      ready with exactly the register map's word at its address, as the registers were in the cycle that took
      it; a forwarded one presents its address until the inner bus answers, and then has that answer. */
  lemma {:induction false} ReadsAnswer(s: Regs, pins: seq<Pins>)
    requires IsReset(s)
    ensures ReadHolds(s, pins, Pending(s, pins))
  {
    if pins != [] {
      var before, i := pins[..|pins| - 1], pins[|pins| - 1];
      ReadsAnswer(s, before);
      hide FifoNext, EgressNext, WriteNext, LocalRead, Forwarded, Clocked, Pending;
      var p, r := Pending(s, before), Clocked(s, before).read;
      ClockedSnoc(s, before, i);
      assert pins == before + [i];
      if p.None? {
        if i.arvalid { ReadTaken(s, before, i); }
      } else if !(r.rvalid && i.rready) {
        ReadWaits(s, before, i, p.value);
      }
    }
  }

  /** A local read is answered with the map at its address. */
  lemma LocalAnswer(s: Regs, pins: seq<Pins>, p: Read)
    requires IsReset(s) && Pending(s, pins) == Some(p) && p.addr >= 0x200
    ensures p.at < |pins| && Clocked(s, pins).read.rvalid
    ensures
      var r := Clocked(s, pins[..p.at]);
      Clocked(s, pins).read.rdata == LocalRead(p.addr, r.fifo, r.egress)
  {
    ReadsAnswer(s, pins);
  }

  lemma StatusShowsFull(f: Fifo, e: Egress)
    requires e.Valid()
    ensures LocalRead(STATUS, f, e) % 2 == 0 <==> !f.Full()
  {
    assert StatusWord(f, e) == 2 * ((e.cnt % 0x100) * 0x80 + Flag(e.overflow) * 2 + Flag(f.Empty())) + Flag(f.Full());
  }

  /** From cycle `at` on, with the write side at rest there, no ingress write has been taken. */
  ghost predicate NoWriteSince(s: Regs, pins: seq<Pins>, at: nat)
    requires s.Valid()
  {
    && at <= |pins| && Clocked(s, pins[..at]).write.phase.Idle?
    && forall k | at <= k < |pins| :: !IngressWrite(Clocked(s, pins[..k]).write, pins[k])
  }

  /** The host takes the answer "room" to a status read it made after its last ingress write was answered. */
  ghost predicate RoomAnswer(s: Regs, before: seq<Pins>, i: Pins)
    requires s.Valid()
  {
    var r, p := Clocked(s, before).read, Pending(s, before);
    && r.rvalid && i.rready && p.Some? && p.value.addr == STATUS
    && r.rdata % 2 == 0 && NoWriteSince(s, before, p.value.at)
  }

  /** Since its last ingress write the host has received such an answer. */
  ghost predicate SawRoom(s: Regs, pins: seq<Pins>)
    requires s.Valid()
  {
    if pins == [] then false
    else
      var before, i := pins[..|pins| - 1], pins[|pins| - 1];
      if IngressWrite(Clocked(s, before).write, i) then false
      else if RoomAnswer(s, before, i) then true
      else SawRoom(s, before)
  }

  /** Without a write the FIFO only drains. */
  lemma DrainStep(r: Regs, i: Pins)
    requires r.Valid() && !IngressWrite(r.write, i)
    ensures !Next(r, i).write.push && (!r.write.push && !r.fifo.Full() ==> !Next(r, i).fifo.Full())
  {
    hide ReadNext, EgressNext;
  }

  lemma {:induction false} RoomStays(s: Regs, pins: seq<Pins>, at: nat)
    requires s.Valid() && NoWriteSince(s, pins, at) && !Clocked(s, pins[..at]).fifo.Full()
    ensures !Clocked(s, pins).fifo.Full() && !Clocked(s, pins).write.push
  {
    hide Next, IngressWrite;
    if at == |pins| {
      assert pins[..at] == pins;
    } else {
      var before := pins[..|pins| - 1];
      assert before[..at] == pins[..at] && forall k | at <= k < |before| :: before[..k] == pins[..k];
      RoomStays(s, before, at);
      DrainStep(Clocked(s, before), pins[|before|]);
    }
  }

  /** The answer the host saw tells it there is room now. */
  lemma RoomIsTrue(s: Regs, before: seq<Pins>, i: Pins)
    requires IsReset(s) && RoomAnswer(s, before, i)
    ensures !Clocked(s, before).fifo.Full() && !Clocked(s, before).write.push
  {
    hide LocalRead, Clocked, Pending;
    var p := Pending(s, before).value;
    LocalAnswer(s, before, p);
    var r := Clocked(s, before[..p.at]);
    StatusShowsFull(r.fifo, r.egress);
    RoomStays(s, before, p.at);
  }

  /** The host writes the ingress register only after such a read. */
  ghost predicate Polite(s: Regs, pins: seq<Pins>)
    requires s.Valid()
  {
    forall k | 0 <= k < |pins| && IngressWrite(Clocked(s, pins[..k]).write, pins[k]) :: SawRoom(s, pins[..k])
  }

  /** MAIN RESULT. A host that after each write response, and before the next write, has received a status word
      without the full bit loses nothing: all it has written has entered the FIFO, but for a last item on its
      way. */
  lemma {:induction false} NothingLost(s: Regs, pins: seq<Pins>)
    requires IsReset(s) && Polite(s, pins)
    ensures
      var r := Clocked(s, pins);
      && Requested(s, pins) == Pushed(s, pins) + (if r.write.push then [r.write.item] else [])
      && (r.write.push ==> !r.fifo.Full())
      && (SawRoom(s, pins) ==> !r.write.push && !r.fifo.Full())
  {
    if pins != [] {
      hide RoomAnswer, FifoNext, ReadNext, EgressNext, WriteNext, IngressWrite;
      var before, i := pins[..|pins| - 1], pins[|pins| - 1];
      assert forall k | 0 <= k < |before| :: before[..k] == pins[..k];
      NothingLost(s, before);
      var r := Clocked(s, before);
      assert IngressWrite(r.write, i) ==> SawRoom(s, before);
      if RoomAnswer(s, before, i) { RoomIsTrue(s, before, i); }
      WriteKeeps(r, i, SawRoom(s, before) || RoomAnswer(s, before, i));
    }
  }

  /** So what such a host wrote is, in its order and once each, what the parser has been handed, then what
      is queued, then the item on its way. */
  lemma WritesArriveInOrder(s: Regs, pins: seq<Pins>)
    requires IsReset(s) && Polite(s, pins)
    ensures
      var r := Clocked(s, pins);
      Requested(s, pins) == Streamed(s, pins) + r.fifo.Contents() + (if r.write.push then [r.write.item] else [])
  {
    NothingLost(s, pins);
    FifoOrder(s, pins);
  }

  /** The bookkeeping of one cycle of a polite host. */
  lemma WriteKeeps(r: Regs, i: Pins, room: bool)
    requires r.Valid() && (r.write.push ==> !r.fifo.Full()) && (room ==> !r.write.push && !r.fifo.Full())
    requires IngressWrite(r.write, i) ==> room
    ensures
      var r' := Next(r, i);
      && r'.write.push == IngressWrite(r.write, i) && (r'.write.push ==> r'.write.item == ItemOf(i.wdata))
      && (r'.write.push ==> !r'.fifo.Full())
      && (!r'.write.push && room ==> !r'.fifo.Full())
  {
  }

  /** An item written as the host writes it: the byte, and bit 8 on the last one. */
  lemma HostItem(w: WriteSide, i: Pins, data: Byte, last: bool)
    requires w.phase.Idle? && i.awvalid && i.wvalid && i.awaddr == 0x200
    requires i.wdata == if last then data + 0x100 else data
    ensures IngressWrite(w, i) && ItemOf(i.wdata) == Item(last, data)
  {
  }

  /** The status word bit by bit: full, empty, overflow, and the low eight bits of the decision count. */
  lemma StatusBits(f: Fifo, e: Egress)
    requires f.Valid() && e.Valid()
    ensures
      var w := LocalRead(0x204, f, e);
      && (w % 2 == 1 <==> f.cnt == 64) && (w / 2 % 2 == 1 <==> f.cnt == 0) && (w / 4 % 2 == 1 <==> e.overflow)
      && w / 8 % 32 == 0 && w / 0x100 == e.cnt % 0x100
    ensures LocalRead(0x2FC, f, e) == e.cnt
  {
    StatusFields(e.cnt % 0x100, Flag(e.overflow), Flag(f.cnt == 0), Flag(f.cnt == 64));
  }

  lemma StatusFields(cnt: nat, overflow: nat, empty: nat, full: nat)
    requires overflow <= 1 && empty <= 1 && full <= 1
    ensures
      var w := cnt * 0x100 + overflow * 4 + empty * 2 + full;
      w % 2 == full && w / 2 % 2 == empty && w / 4 % 2 == overflow && w / 8 % 32 == 0 && w / 0x100 == cnt
  {
    LowBit(cnt * 0x80 + overflow * 2 + empty, full);
    LowBit(cnt * 0x40 + overflow, empty);
    LowBit(cnt * 0x20, overflow);
    Shifts(cnt * 0x100 + overflow * 4 + empty * 2 + full);
    TopByte(cnt);
  }

  lemma LowBit(x: nat, b: nat)
    requires b <= 1
    ensures (2 * x + b) % 2 == b && (2 * x + b) / 2 == x
  {
  }

  lemma Shifts(w: nat)
    ensures w / 4 == w / 2 / 2 && w / 8 == w / 2 / 2 / 2 && w / 0x100 == w / 8 / 0x20
  {
  }

  lemma TopByte(cnt: nat)
    ensures cnt * 0x20 % 0x20 == 0 && cnt * 0x20 / 0x20 == cnt
  {
  }

  // ---- writes ---------------------------------------------------------------------------------------

  /** A write the bridge has taken and not answered. */
  datatype Write = Write(addr: Word, data: Word)

  ghost function PendingWrite(s: Regs, pins: seq<Pins>): Option<Write>
    requires s.Valid()
  {
    if pins == [] then None
    else
      var before, i := pins[..|pins| - 1], pins[|pins| - 1];
      var w := Clocked(s, before).write;
      NextWrite(w, PendingWrite(s, before), i)
  }

  ghost predicate WriteHolds(w: WriteSide, p: Option<Write>) {
    match p
    case None => w.phase.Idle? && !w.bvalid && !w.push
    case Some(Write(addr, data)) =>
      && (w.bvalid <==> w.phase.Respond?) && (addr >= 0x200 ==> w.bvalid)
      && (!w.bvalid ==> w.phase.Forward? && w.addrOut == addr && w.dataOut == data)
      && (w.push ==> addr >= 0x200 && addr % 0x200 == 0 && w.item == ItemOf(data))
  }

  function NextWrite(w: WriteSide, p: Option<Write>, i: Pins): Option<Write> {
    if w.phase.Idle? && i.awvalid && i.wvalid then Some(Write(i.awaddr, i.wdata))
    else if w.bvalid && i.bready then None else p
  }

  lemma WriteSnoc(s: Regs, pins: seq<Pins>)
    requires s.Valid() && pins != []
    ensures
      var before, i := pins[..|pins| - 1], pins[|pins| - 1];
      && Clocked(s, pins).write == WriteNext(Clocked(s, before).write, i)
      && PendingWrite(s, pins) == NextWrite(Clocked(s, before).write, PendingWrite(s, before), i)
  {
    hide FifoNext, ReadNext, EgressNext, WriteNext;
  }

  lemma WriteStep(w: WriteSide, p: Option<Write>, i: Pins)
    requires WriteHolds(w, p)
    ensures WriteHolds(WriteNext(w, i), NextWrite(w, p, i))
  {
  }

  /** After any bus traffic a write taken and not answered is held as it was made: a local one is ready to be
      answered, a forwarded one presents its address and data until the inner bus answers, and only one to
      the ingress register pushes, what it carries. */
  lemma {:induction false} WritesHeld(s: Regs, pins: seq<Pins>)
    requires IsReset(s)
    ensures WriteHolds(Clocked(s, pins).write, PendingWrite(s, pins))
  {
    hide FifoNext, ReadNext, EgressNext, ItemOf;
    if pins != [] {
      var before, i := pins[..|pins| - 1], pins[|pins| - 1];
      WritesHeld(s, before);
      hide Clocked, PendingWrite;
      WriteStep(Clocked(s, before).write, PendingWrite(s, before), i);
      WriteSnoc(s, pins);
    }
  }

  // ---- egress -------------------------------------------------------------------------------------

  /** All decision beats so far. */
  function Beats(pins: seq<Pins>): seq<Beat> {
    if pins == [] then []
    else
      var i := pins[|pins| - 1];
      Beats(pins[..|pins| - 1]) + (if i.beat.Some? then [i.beat.value] else [])
  }

  /** MAIN RESULT. The capture buffer holds exactly the first DEC_CAP beats, and the overflow bit is set
      exactly when there were more. */
  lemma {:induction false} EgressHoldsFirst(s: Regs, pins: seq<Pins>)
    requires IsReset(s)
    ensures
      var e, beats := Clocked(s, pins).egress, Beats(pins);
      && e.cnt == Min(DEC_CAP, |beats|) && e.buf[..e.cnt] == beats[..e.cnt]
      && (e.overflow <==> |beats| > DEC_CAP)
  {
    if pins != [] {
      EgressHoldsFirst(s, pins[..|pins| - 1]);
      var before := Clocked(s, pins[..|pins| - 1]).egress;
      var e := Clocked(s, pins).egress;
      if e.cnt > before.cnt {
        assert e.buf[..e.cnt] == before.buf[..before.cnt] + [e.buf[before.cnt]];
      }
    }
  }

  /** MAIN RESULT. A host read of word j of a decision captured when the read was taken is answered with that
      decision's action, price or size. */
  lemma ReadBack(s: Regs, pins: seq<Pins>, p: Read, k: nat, j: nat)
    requires IsReset(s) && Pending(s, pins) == Some(p) && p.at < |pins| && j < 3
    requires p.addr == DEC_BASE + 16 * k + 4 * j && k < Clocked(s, pins[..p.at]).egress.cnt
    ensures k < |Beats(pins)| && k < DEC_CAP
    ensures
      var r, d := Clocked(s, pins).read, Beats(pins)[k];
      r.rvalid && r.rdata == if j == 0 then Flag(d.sell) else if j == 1 then d.price else d.size
  {
    hide LocalRead, Pending;
    LocalAnswer(s, pins, p);
    var past := pins[..p.at];
    var e := Clocked(s, past).egress;
    EgressHoldsFirst(s, past);
    assert e.buf[k] == e.buf[..e.cnt][k] == Beats(past)[..e.cnt][k];
    BeatsPrefix(pins, p.at);
    ReadWord(k, j, Clocked(s, past).fifo, e);
  }

  lemma {:induction false} BeatsPrefix(pins: seq<Pins>, n: nat)
    requires n <= |pins|
    ensures |Beats(pins[..n])| <= |Beats(pins)| && Beats(pins)[..|Beats(pins[..n])|] == Beats(pins[..n])
  {
    if n == |pins| {
      assert pins[..n] == pins;
    } else {
      BeatsPrefix(pins[..|pins| - 1], n);
      assert pins[..|pins| - 1][..n] == pins[..n];
    }
  }

  lemma ReadWord(k: nat, j: nat, f: Fifo, e: Egress)
    requires k < DEC_CAP && j < 3 && e.Valid()
    ensures
      var a, d := DEC_BASE + 16 * k + 4 * j, e.buf[k];
      LocalRead(a, f, e) == if j == 0 then Flag(d.sell) else if j == 1 then d.price else d.size
  {
    Decode(k, j);
  }

  lemma Decode(k: nat, j: nat)
    requires k < DEC_CAP && j < 4
    ensures
      var a := DEC_BASE + 16 * k + 4 * j;
      && DEC_BASE <= a < DEC_BASE + 16 * DEC_CAP && ((a - DEC_BASE) / 16) % DEC_CAP == k && (a / 4) % 4 == j
      && a % 0x1000 != STATUS && a % 0x1000 != COUNT
  {
  }
}
