/** The whole device: the host bridge and the datapath wired together, and what a host that writes bytes and
    reads decisions back may rely on. */
module Core {
  import opened Bits
  import opened Messages
  import B = Book
  import R = BookRtl
  import P = ParserRtl
  import M = Imbalance
  import K = Risk
  import F = Bridge
  import opened Top
  import opened Trader
  import L = Liveness

  /** The outside of one cycle: the bus and latency-counter pins, and the kill switch. What `bus` says of the
      two inner streams is ignored: the wiring drives them. */
  datatype Cycle = Cycle(bus: F.Pins, halt: bool)

  datatype Device = Device(bridge: F.Regs, top: Regs)

  ghost predicate Valid(s: Device) { s.bridge.Valid() && WellFormed(s.top) }

  /** The output beat, as 32-bit words on the stream. */
  function BeatOf(d: M.Decision): F.Beat { F.Beat(d.sell, Low32(d.price), Low32(d.size)) }

  function BusPins(s: Device, c: Cycle): F.Pins {
    c.bus.(streamReady := P.Ready(s.top.parser, s.top.book.phase.Idle?),
           beat := if s.top.beatValid then Some(BeatOf(s.top.beat)) else None)
  }

  /** The stream into the parser: the head of the ingress FIFO. */
  function StreamPins(s: Device, c: Cycle): Pins
    requires s.bridge.fifo.Valid()
  {
    var f := s.bridge.fifo;
    Pins(!f.Empty(), f.mem[f.rd].data, f.mem[f.rd].last, c.halt)
  }

  function Step(s: Device, c: Cycle): Device
    requires s.bridge.fifo.Valid() && s.bridge.egress.Valid() && WellFormed(s.top)
  {
    Device(F.Next(s.bridge, BusPins(s, c)), Next(s.top, StreamPins(s, c)))
  }

  ghost function After(s: Device, cycles: seq<Cycle>): (r: Device)
    requires Valid(s)
    ensures Valid(r) && |r.top.book.mem| == |s.top.book.mem|
  {
    if cycles == [] then s
    else
      var r, c := After(s, cycles[..|cycles| - 1]), cycles[|cycles| - 1];
      F.NextValid(r.bridge, BusPins(r, c));
      Step(r, c)
  }

  ghost predicate IsPoweredUp(s: Device) {
    F.IsReset(s.bridge) && IsReset(s.top) && s.top.mid1 == 0 && s.top.mid2 == 0
  }

  // ---- each half runs on what the other half drives --------------------------------------------------

  ghost function BusRun(s: Device, cycles: seq<Cycle>): (r: seq<F.Pins>)
    requires Valid(s)
    ensures |r| == |cycles|
  {
    if cycles == [] then []
    else
      var before := cycles[..|cycles| - 1];
      BusRun(s, before) + [BusPins(After(s, before), cycles[|cycles| - 1])]
  }

  ghost function StreamRun(s: Device, cycles: seq<Cycle>): (r: seq<Pins>)
    requires Valid(s)
    ensures |r| == |cycles|
  {
    if cycles == [] then []
    else
      var before := cycles[..|cycles| - 1];
      StreamRun(s, before) + [StreamPins(After(s, before), cycles[|cycles| - 1])]
  }

  lemma {:induction false} HalvesRun(s: Device, cycles: seq<Cycle>)
    requires Valid(s)
    ensures After(s, cycles).bridge == F.Clocked(s.bridge, BusRun(s, cycles))
    ensures After(s, cycles).top == Clocked(s.top, StreamRun(s, cycles))
  {
    hide F.Next, Next, BusPins, StreamPins;
    if cycles != [] {
      var before := cycles[..|cycles| - 1];
      HalvesRun(s, before);
      assert BusRun(s, cycles)[..|before|] == BusRun(s, before);
      assert StreamRun(s, cycles)[..|before|] == StreamRun(s, before);
    }
  }

  lemma {:induction false} RunPrefix(s: Device, cycles: seq<Cycle>, k: nat)
    requires Valid(s) && k <= |cycles|
    ensures StreamRun(s, cycles)[..k] == StreamRun(s, cycles[..k])
  {
    hide StreamPins, After;
    if k < |cycles| {
      var before := cycles[..|cycles| - 1];
      RunPrefix(s, before, k);
      assert before[..k] == cycles[..k];
      assert StreamRun(s, cycles)[..|before|] == StreamRun(s, before);
      assert StreamRun(s, cycles)[..k] == StreamRun(s, cycles)[..|before|][..k];
    } else {
      assert cycles[..k] == cycles;
      assert StreamRun(s, cycles)[..k] == StreamRun(s, cycles);
    }
  }

  // ---- bytes ------------------------------------------------------------------------------------------

  /** Ingress words, split into messages where the last-byte flag is set. */
  function Split(items: seq<F.Item>): P.Framing {
    if items == [] then P.Framing([], [])
    else
      var f, i := Split(items[..|items| - 1]), items[|items| - 1];
      if i.last then P.Framing(f.done + [f.tail + [i.data]], []) else P.Framing(f.done, f.tail + [i.data])
  }

  lemma SplitSnoc(items: seq<F.Item>, i: F.Item)
    ensures
      var f := Split(items);
      Split(items + [i]) ==
        if i.last then P.Framing(f.done + [f.tail + [i.data]], []) else P.Framing(f.done, f.tail + [i.data])
  {
    assert (items + [i])[..|items|] == items;
  }

  /** The parser receives what the bridge hands on. */
  lemma {:induction false} StreamedIsFramed(s: Device, cycles: seq<Cycle>)
    requires Valid(s)
    ensures P.Framed(s.top.parser, ParserPorts(s.top, StreamRun(s, cycles))) ==
            Split(F.Streamed(s.bridge, BusRun(s, cycles)))
  {
    hide F.Next, Next, P.Next, Split, F.Clocked, Clocked, P.Clocked;
    if cycles == [] {
      EmptySplit();
    } else {
      var before, c := cycles[..|cycles| - 1], cycles[|cycles| - 1];
      StreamedIsFramed(s, before);
      HalvesRun(s, before);
      var stream, bus := StreamRun(s, before), BusRun(s, before);
      BlocksRun(s.top, stream);
      assert StreamRun(s, cycles)[..|before|] == stream && BusRun(s, cycles)[..|before|] == bus;
      assert ParserPorts(s.top, StreamRun(s, cycles))[..|before|] == ParserPorts(s.top, stream);
      var f := After(s, before).bridge.fifo;
      SplitSnoc(F.Streamed(s.bridge, bus), f.mem[f.rd]);
      assert F.Streamed(s.bridge, bus) + [] == F.Streamed(s.bridge, bus);
    }
  }

  lemma EmptySplit()
    ensures Split([]) == P.Framing([], [])
  {
  }

  /** More bytes only add messages. */
  lemma {:induction false} SplitExtends(a: seq<F.Item>, b: seq<F.Item>)
    requires P.AllFit(Split(a + b))
    ensures P.AllFit(Split(a)) && Extends(P.Golden(Split(a).done), P.Golden(Split(a + b).done))
  {
    hide Split;
    if b == [] {
      assert a + b == a;
    } else {
      var most, i := a + b[..|b| - 1], b[|b| - 1];
      assert a + b == most + [i];
      SplitSnoc(most, i);
      P.FitsBefore(Split(most), i.data);
      SplitExtends(a, b[..|b| - 1]);
      P.GoldenSnoc(Split(most).done, Split(most).tail + [i.data]);
    }
  }

  /** What the host has written to the ingress register. */
  ghost function Written(s: Device, cycles: seq<Cycle>): P.Framing
    requires Valid(s)
  {
    Split(F.Requested(s.bridge, BusRun(s, cycles)))
  }

  /** The golden messages among it. */
  ghost function HostMessages(s: Device, cycles: seq<Cycle>): seq<Msg>
    requires Valid(s)
  {
    P.Golden(Written(s, cycles).done)
  }

  /** A host that writes messages the parser can take, and only when it has seen room. */
  ghost predicate GoodHost(s: Device, cycles: seq<Cycle>)
    requires Valid(s)
  {
    F.Polite(s.bridge, BusRun(s, cycles)) && P.AllFit(Written(s, cycles))
  }

  /** The datapath has received a first part of the host's messages. */
  lemma ReceivedFromHost(s: Device, cycles: seq<Cycle>)
    requires IsPoweredUp(s) && GoodHost(s, cycles)
    ensures StreamFits(s.top, StreamRun(s, cycles))
    ensures Extends(Received(s.top, StreamRun(s, cycles)), HostMessages(s, cycles))
  {
    hide F.Requested, F.Streamed, F.Polite, Split, P.Framed, F.Clocked;
    var bus := BusRun(s, cycles);
    F.WritesArriveInOrder(s.bridge, bus);
    var w := F.Clocked(s.bridge, bus).write;
    var rest := F.Clocked(s.bridge, bus).fifo.Contents() + if w.push then [w.item] else [];
    assert F.Requested(s.bridge, bus) == F.Streamed(s.bridge, bus) + rest;
    StreamedIsFramed(s, cycles);
    SplitExtends(F.Streamed(s.bridge, bus), rest);
  }

  // ---- which messages the books show ------------------------------------------------------------------

  /** How many messages the book had completed at the start of each cycle. */
  function Schedule(s: Regs, pins: seq<Pins>): (r: seq<nat>)
    requires WellFormed(s)
    ensures |r| == |pins|
  {
    seq(|pins|, k requires 0 <= k < |pins| => |Completed(s, pins[..k])|)
  }

  /** The golden books after these numbers of messages. */
  function GoldenViews(host: seq<Msg>, schedule: seq<nat>, depth: nat): (r: seq<B.Snapshot>)
    requires depth > 0 && forall k | 0 <= k < |schedule| :: schedule[k] <= |host|
    ensures |r| == |schedule|
  {
    seq(|schedule|, k requires 0 <= k < |schedule| => GoldenView(host[..schedule[k]], depth))
  }

  /** Every book view is the golden book of the first messages of the host, as many as were completed. */
  lemma ShotsAreViews(s: Regs, pins: seq<Pins>, host: seq<Msg>)
    requires IsReset(s) && StreamFits(s, pins) && Extends(Received(s, pins), host)
    ensures forall k | 0 <= k < |pins| :: Schedule(s, pins)[k] <= |host|
    ensures Shots(s, pins) == GoldenViews(host, Schedule(s, pins), |s.book.mem|)
  {
    hide Completed, Shots, GoldenView, Received;
    forall k | 0 <= k < |pins|
      ensures Schedule(s, pins)[k] <= |host|
      ensures Shots(s, pins)[k] == GoldenView(host[..Schedule(s, pins)[k]], |s.book.mem|)
    {
      ShotIsView(s, pins, host, k);
    }
  }

  // ---- decisions --------------------------------------------------------------------------------------

  function AsBeats(orders: seq<M.Decision>): (r: seq<F.Beat>)
    ensures |r| == |orders|
  {
    seq(|orders|, k requires 0 <= k < |orders| => BeatOf(orders[k]))
  }

  lemma {:induction false} OffersPrefix(s: Regs, pins: seq<Pins>, k: nat)
    requires WellFormed(s) && k <= |pins|
    ensures Offers(s, pins)[..k] == Offers(s, pins[..k])
  {
    hide GateOffer, Clocked;
    if k < |pins| {
      var before := pins[..|pins| - 1];
      OffersPrefix(s, before, k);
      assert before[..k] == pins[..k];
      assert Offers(s, pins)[..|before|] == Offers(s, before);
      assert Offers(s, pins)[..k] == Offers(s, pins)[..|before|][..k];
    } else {
      assert pins[..k] == pins && Offers(s, pins)[..k] == Offers(s, pins);
    }
  }

  lemma AsBeatsConcat(a: seq<M.Decision>, b: seq<M.Decision>)
    ensures AsBeats(a + b) == AsBeats(a) + AsBeats(b)
  {
  }

  lemma OneBeat(o: M.Decision)
    ensures AsBeats([o]) == [BeatOf(o)]
  {
  }

  /** A cycle is two behind the offers its beat comes from. */
  function Behind(n: nat): nat { if n < 2 then 0 else n - 2 }

  /** The beat of the cycle after these pins is the order of the last offer but one, if it was accepted. */
  lemma BeatIsTaken(s: Regs, pins: seq<Pins>)
    requires IsReset(s)
    ensures
      var r, n := Clocked(s, pins), |pins|;
      AsBeats(Taken(Offers(s, pins[..Behind(n + 1)]))) ==
      AsBeats(Taken(Offers(s, pins[..Behind(n)]))) + if r.beatValid then [BeatOf(r.beat)] else []
  {
    hide Next, Clocked, K.Gate, K.RtlPosition, GateOffer, BeatOf, AsBeats, Offers, Taken;
    var n := |pins|;
    BeatIsAcceptedOrder(s, pins);
    if n >= 2 {
      OffersPrefix(s, pins, n - 2);
      OffersPrefix(s, pins, n - 1);
      var earlier, o := Offers(s, pins[..n - 2]), Offers(s, pins)[n - 2];
      assert Offers(s, pins[..n - 1]) == earlier + [o];
      TakenSnoc(earlier, o);
      AsBeatsConcat(Taken(earlier), [o.order]);
      OneBeat(o.order);
      assert Taken(earlier) + [] == Taken(earlier);
    } else {
      assert pins[..Behind(n)] == pins[..Behind(n + 1)] == [];
    }
  }

  lemma {:induction false} BeatsAreTaken(s: Device, cycles: seq<Cycle>)
    requires Valid(s) && IsReset(s.top)
    ensures
      F.Beats(BusRun(s, cycles)) == AsBeats(Taken(Offers(s.top, StreamRun(s, cycles)[..Behind(|cycles|)])))
  {
    hide Taken, BeatOf, Next, F.Next;
    if cycles == [] {
      assert StreamRun(s, cycles)[..0] == [] && Offers(s.top, []) == [];
      NothingYet();
    } else {
      hide Offers, AsBeats;
      var before := cycles[..|cycles| - 1];
      var n := |before|;
      BeatsAreTaken(s, before);
      HalvesRun(s, before);
      BeatIsTaken(s.top, StreamRun(s, before));
      assert BusRun(s, cycles)[..n] == BusRun(s, before);
      assert StreamRun(s, cycles)[..Behind(n + 1)] == StreamRun(s, before)[..Behind(n + 1)];
    }
  }

  lemma {:induction false} TakenWordSized(offers: seq<K.Offer>)
    requires forall k | 0 <= k < |offers| :: K.WordSizedOffer(offers[k])
    ensures forall k | 0 <= k < |Taken(offers)| :: Taken(offers)[k].price < TWO32 && Taken(offers)[k].size < TWO32
  {
    if offers != [] {
      TakenWordSized(offers[..|offers| - 1]);
    }
  }

  /** The orders the golden pipeline makes, until two cycles ago, of the golden books of the host's messages. */
  ghost function GoldenOrders(s: Device, cycles: seq<Cycle>): seq<M.Decision>
    requires IsPoweredUp(s) && GoodHost(s, cycles)
  {
    ScheduleFits(s, cycles);
    var pins := StreamRun(s, cycles)[..Behind(|cycles|)];
    Orders(GoldenViews(HostMessages(s, cycles), Schedule(s.top, pins), |s.top.book.mem|), Halts(pins))
  }

  lemma ScheduleFits(s: Device, cycles: seq<Cycle>)
    requires IsPoweredUp(s) && GoodHost(s, cycles)
    ensures
      var pins, host := StreamRun(s, cycles)[..Behind(|cycles|)], HostMessages(s, cycles);
      && (forall k | 0 <= k < |pins| :: Schedule(s.top, pins)[k] <= |host|)
      && Shots(s.top, pins) == GoldenViews(host, Schedule(s.top, pins), |s.top.book.mem|)
  {
    hide GoodHost, Received, HostMessages, Schedule, GoldenViews, Shots, StreamFits;
    var pins, all := StreamRun(s, cycles)[..Behind(|cycles|)], StreamRun(s, cycles);
    ReceivedFromHost(s, cycles);
    EarlierReceived(s.top, all, |pins|);
    ExtendsTransitive(Received(s.top, pins), Received(s.top, all), HostMessages(s, cycles));
    ShotsAreViews(s.top, pins, HostMessages(s, cycles));
  }

  lemma TakenAreGolden(s: Device, cycles: seq<Cycle>)
    requires IsPoweredUp(s) && GoodHost(s, cycles)
    ensures Taken(Offers(s.top, StreamRun(s, cycles)[..Behind(|cycles|)])) == GoldenOrders(s, cycles)
    ensures forall k | 0 <= k < |GoldenOrders(s, cycles)| ::
              GoldenOrders(s, cycles)[k].price < TWO32 && GoldenOrders(s, cycles)[k].size < TWO32
  {
    hide GoodHost, Schedule, GoldenViews, Shots, Offers, Taken, Orders;
    var pins := StreamRun(s, cycles)[..Behind(|cycles|)];
    ScheduleFits(s, cycles);
    TakenAreOrders(s.top, pins);
    OffersInRange(s.top, pins);
    TakenWordSized(Offers(s.top, pins));
  }

  /** MAIN RESULT. Whatever the bus does, for a host that writes messages the parser can take and only when it
      has seen room: the capture buffer holds the first 128 orders that the golden rule, its cooldown and the
      integer risk check make of the golden books of the host's own messages, and the overflow bit says
      whether there were more. */
  lemma CapturesGoldenOrders(s: Device, cycles: seq<Cycle>)
    requires IsPoweredUp(s) && GoodHost(s, cycles)
    ensures
      var e, orders := After(s, cycles).bridge.egress, GoldenOrders(s, cycles);
      && e.cnt == Min(F.DEC_CAP, |orders|) && (e.overflow <==> |orders| > F.DEC_CAP)
      && F.Beats(BusRun(s, cycles)) == AsBeats(orders) && e.buf[..e.cnt] == AsBeats(orders)[..e.cnt]
  {
    hide GoodHost, GoldenOrders, F.Beats, Offers, Taken, AsBeats;
    HalvesRun(s, cycles);
    BeatsAreTaken(s, cycles);
    TakenAreGolden(s, cycles);
    F.EgressHoldsFirst(s.bridge, BusRun(s, cycles));
  }

  lemma BeatAt(orders: seq<M.Decision>, k: nat)
    requires k < |orders| && orders[k].price < TWO32 && orders[k].size < TWO32
    ensures AsBeats(orders)[k] == F.Beat(orders[k].sell, orders[k].price, orders[k].size)
  {
  }

  lemma PoweredUpBridge(s: Device)
    requires IsPoweredUp(s)
    ensures Valid(s) && s.bridge.Valid() && F.IsReset(s.bridge)
  {
  }

  /** MAIN RESULT. The answer the host gets on the bus when it reads word j of an order captured by the time the read
      was taken is the action, price or size of the golden order. */
  lemma HostReadsGoldenOrder(s: Device, cycles: seq<Cycle>, p: F.Read, k: nat, j: nat)
    requires IsPoweredUp(s) && GoodHost(s, cycles) && j < 3
    requires F.Pending(s.bridge, BusRun(s, cycles)) == Some(p) && p.at < |cycles|
    requires p.addr == 0x400 + 16 * k + 4 * j && k < After(s, cycles[..p.at]).bridge.egress.cnt
    ensures k < |GoldenOrders(s, cycles)|
    ensures
      var r, o := After(s, cycles).bridge.read, GoldenOrders(s, cycles)[k];
      r.rvalid && r.rdata == if j == 0 then (if o.sell then 1 else 0) else if j == 1 then o.price else o.size
  {
    PoweredUpBridge(s);
    hide *;
    var bus := BusRun(s, cycles);
    HalvesRun(s, cycles);
    HalvesRun(s, cycles[..p.at]);
    BusPrefix(s, cycles, p.at);
    DecisionBase();
    F.ReadBack(s.bridge, bus, p, k, j);
    TakenAreGolden(s, cycles);
    CapturesGoldenOrders(s, cycles);
    BeatAt(GoldenOrders(s, cycles), k);
    FlagIs(GoldenOrders(s, cycles)[k].sell);
  }

  lemma DecisionBase()
    ensures F.DEC_BASE == 0x400
  {
  }

  lemma FlagIs(b: bool)
    ensures F.Flag(b) == if b then 1 else 0
  {
  }

  lemma {:induction false} BusPrefix(s: Device, cycles: seq<Cycle>, k: nat)
    requires Valid(s) && k <= |cycles|
    ensures BusRun(s, cycles)[..k] == BusRun(s, cycles[..k])
  {
    hide BusPins, After;
    if k < |cycles| {
      var before := cycles[..|cycles| - 1];
      BusPrefix(s, before, k);
      assert before[..k] == cycles[..k];
      assert BusRun(s, cycles)[..|before|] == BusRun(s, before);
      assert BusRun(s, cycles)[..k] == BusRun(s, cycles)[..|before|][..k];
    } else {
      assert cycles[..k] == cycles;
      assert BusRun(s, cycles)[..k] == BusRun(s, cycles);
    }
  }

  // ---- how far the datapath is behind the host ---------------------------------------------------------

  /** Messages are completed in turn, at most one a cycle. */
  lemma CompletedStep(s: R.Regs, n: nat, ports: seq<R.Port>)
    requires R.IsReset(s) && ports != []
    ensures
      var k, k' := |R.Completed(s, n, ports[..|ports| - 1])|, |R.Completed(s, n, ports)|;
      k <= k' <= k + 1
  {
    hide R.Next, R.Refines, B.Run, R.MsgOf;
    var before, i := ports[..|ports| - 1], ports[|ports| - 1];
    R.RunRefines(s, n, before);
    R.RunRefines(s, n, ports);
    if R.Clocked(s, n, before).phase.Idle? && !R.Clocked(s, n, ports).phase.Idle? {
      BusyOnlyWhenTaken(R.Clocked(s, n, before), n, i);
    }
  }

  lemma BusyOnlyWhenTaken(r: R.Regs, n: nat, i: R.Port)
    requires R.WellFormed(r) && r.phase.Idle? && !R.Next(r, n, i).phase.Idle?
    ensures i.valid && KindOf(i.code).Some?
  {
  }

  lemma ScheduleStep(s: Regs, pins: seq<Pins>, k: nat)
    requires IsReset(s) && k + 1 < |pins|
    ensures Schedule(s, pins)[k] <= Schedule(s, pins)[k + 1] <= Schedule(s, pins)[k] + 1
  {
    hide R.Completed;
    var ports := BookPorts(s, pins[..k + 1]);
    assert pins[..k + 1][..k] == pins[..k] && ports[..k] == BookPorts(s, pins[..k]);
    CompletedStep(s.book, LEVELS, ports);
  }

  /** Cycles until all that is queued has been applied, if the host writes no more: each queued byte may
      complete a message that keeps the book busy. */
  ghost function Load(s: Device): nat {
    L.Work(s.top) + s.bridge.fifo.cnt * (|s.top.book.mem| + 5) + if s.bridge.write.push then |s.top.book.mem| + 6 else 0
  }

  predicate NoIngress(c: Cycle) {
    !(c.bus.awvalid && c.bus.wvalid && !F.IsLow(c.bus.awaddr) && c.bus.awaddr % 0x200 == 0)
  }

  /** The books of one cycle: what is queued, what is pending, and the datapath's own work. */
  lemma QueueLoad(cnt: nat, cnt': nat, push: bool, pushes: bool, pops: bool, work: nat, work': nat, d: nat)
    requires cnt' == cnt + F.Flag(pushes) - F.Flag(pops) && (pushes ==> push)
    requires work' <= Max(0, work - 1) + if pops then d + 4 else 0
    requires !pops && work == 0 ==> cnt == 0
    ensures work' + cnt' * (d + 5) <= Max(0, work + cnt * (d + 5) + (if push then d + 6 else 0) - 1)
  {
    assert cnt' * (d + 5) == cnt * (d + 5) + F.Flag(pushes) * (d + 5) - F.Flag(pops) * (d + 5);
    assert cnt * (d + 5) >= 0;
  }

  /** Without a write, a cycle with anything queued or pending brings its end closer. */
  lemma LoadStep(s: Device, c: Cycle)
    requires Valid(s) && L.ScanInTable(s.top.book) && NoIngress(c)
    ensures Load(Step(s, c)) <= Max(0, Load(s) - 1) && L.ScanInTable(Step(s, c).top.book)
  {
    hide F.FifoNext, Next, L.Work, F.ReadNext, F.EgressNext;
    var f, w, bus := s.bridge.fifo, s.bridge.write, BusPins(s, c);
    L.WorkStep(s.top, StreamPins(s, c));
    ReadyWhenDone(s.top);
    F.FifoCount(f, w.push, w.item, bus.streamReady);
    QueueLoad(f.cnt, Step(s, c).bridge.fifo.cnt, w.push, w.push && !f.Full(), !f.Empty() && bus.streamReady,
              L.Work(s.top), L.Work(Step(s, c).top), |s.top.book.mem|);
  }

  lemma ReadyWhenDone(s: Regs)
    ensures L.Work(s) == 0 ==> P.Ready(s.parser, s.book.phase.Idle?)
  {
  }

  lemma AtMost(k: nat, n: nat, d: nat)
    requires k <= n
    ensures k * d <= n * d
  {
    assert n * d - k * d == (n - k) * d;
  }

  lemma LoadBound(s: Device)
    requires Valid(s)
    ensures Load(s) <= 67 * |s.top.book.mem| + 333
  {
    L.WorkBound(s.top);
    AtMost(s.bridge.fifo.cnt, F.IF_DEPTH, |s.top.book.mem| + 5);
    hide L.Work;
  }

  lemma ScanStays(s: Device, cycles: seq<Cycle>)
    requires IsPoweredUp(s)
    ensures L.ScanInTable(After(s, cycles).top.book)
  {
    HalvesRun(s, cycles);
    L.ScanStaysInTable(s.top, StreamRun(s, cycles));
  }

  lemma {:induction false} LoadRun(s: Device, cycles: seq<Cycle>, quiet: seq<Cycle>)
    requires IsPoweredUp(s) && forall k | 0 <= k < |quiet| :: NoIngress(quiet[k])
    ensures Load(After(s, cycles + quiet)) <= Max(0, Load(After(s, cycles)) - |quiet|)
  {
    hide Step, Load, NoIngress;
    if quiet == [] {
      assert cycles + quiet == cycles;
    } else {
      var before, c := quiet[..|quiet| - 1], quiet[|quiet| - 1];
      LoadRun(s, cycles, before);
      ScanStays(s, cycles + before);
      LoadStep(After(s, cycles + before), c);
      assert (cycles + quiet)[..|cycles + quiet| - 1] == cycles + before;
    }
  }

  /** With nothing left to do, the datapath has applied all the host's messages. */
  lemma NothingLeft(s: Device, cycles: seq<Cycle>)
    requires IsPoweredUp(s) && GoodHost(s, cycles) && Load(After(s, cycles)) == 0
    ensures Received(s.top, StreamRun(s, cycles)) == HostMessages(s, cycles)
    ensures Shown(After(s, cycles).top) == GoldenView(HostMessages(s, cycles), |s.top.book.mem|)
    ensures |Completed(s.top, StreamRun(s, cycles))| == |HostMessages(s, cycles)|
  {
    hide P.AllFit, Split, F.Requested, F.Streamed, F.Polite, Shown, GoldenView, Completed, ParserPorts;
    var bus := BusRun(s, cycles);
    HalvesRun(s, cycles);
    F.WritesArriveInOrder(s.bridge, bus);
    NothingQueued(After(s, cycles));
    assert F.Requested(s.bridge, bus) == F.Streamed(s.bridge, bus);
    StreamedIsFramed(s, cycles);
    ReceivedFromHost(s, cycles);
    L.CaughtUp(s.top, StreamRun(s, cycles));
  }

  lemma NothingQueued(r: Device)
    requires Valid(r) && Load(r) == 0
    ensures L.Work(r.top) == 0 && r.bridge.fifo.Contents() == [] && !r.bridge.write.push
  {
    hide L.Work;
    AtMost(if r.bridge.fifo.cnt > 0 then 1 else 0, r.bridge.fifo.cnt, |r.top.book.mem| + 5);
  }

  /** MAIN RESULT. When a host of that kind has written nothing for 67 * depth + 333 cycles, whatever else it
      does on the bus and however full the FIFO was, every message it wrote has been applied: the displayed
      book is the golden book of all of them. */
  lemma DeviceSettles(s: Device, cycles: seq<Cycle>, quiet: seq<Cycle>)
    requires IsPoweredUp(s) && GoodHost(s, cycles + quiet)
    requires |quiet| >= 67 * |s.top.book.mem| + 333 && forall k | 0 <= k < |quiet| :: NoIngress(quiet[k])
    ensures
      var all := cycles + quiet;
      && Shown(After(s, all).top) == GoldenView(HostMessages(s, all), |s.top.book.mem|)
      && |Completed(s.top, StreamRun(s, all))| == |HostMessages(s, all)|
  {
    hide GoodHost, Load, NoIngress, Shown, GoldenView, Completed, After, StreamRun, HostMessages, Received;
    LoadBound(After(s, cycles));
    LoadRun(s, cycles, quiet);
    NothingLeft(s, cycles + quiet);
  }
}
