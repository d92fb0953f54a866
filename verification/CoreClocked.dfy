/** The device as an assembly of its clocked halves. */
module CoreClocked {
  import opened Messages
  import opened Depth
  import F = Bridge
  import FC = BridgeClocked
  import T = Top
  import TC = TopClocked
  import BC = BookClocked
  import opened Core

  lemma ResetIsValid(s: Device)
    requires F.IsReset(s.bridge) && T.IsReset(s.top)
    ensures Valid(s)
  {
  }

  class ClTickToTrade {
    const bridge: FC.ClTickToTradeCore
    const core: TC.TickToTradeTop

    ghost predicate HalvesValid()
      reads this, bridge, bridge.fifoMem, bridge.captured, core, core.parser, core.book, core.book.entries
    {
      bridge.Valid() && core.Valid()
    }

    ghost function State(): (s: Device)
      requires HalvesValid()
      reads this, bridge, bridge.fifoMem, bridge.captured
      reads core, core.parser, core.book, core.book.entries, core.strategy, core.gate
      ensures Valid(s)
    {
      Device(bridge.State(), core.State())
    }

    constructor (fifo: array<F.Item>, buf: array<F.Beat>, mem: array<Entry>, rd: Entry)
      requires fifo.Length == F.IF_DEPTH && buf.Length == F.DEC_CAP
      requires mem.Length >= 2 && BC.FieldsFit(rd) && forall i | 0 <= i < mem.Length :: BC.FieldsFit(mem[i])
      ensures HalvesValid() && IsPoweredUp(State())
    {
      hide F.IsReset, T.IsReset, F.Regs.Valid, T.WellFormed;
      var b := new FC.ClTickToTradeCore(fifo, buf);
      var t := new TC.TickToTradeTop(mem, rd);
      bridge, core := b, t;
      new;
      ResetIsValid(State());
    }

    /** One clock edge of both halves, each seeing the other's outputs of the cycle before. */
    method Clock(c: Cycle)
      requires HalvesValid()
      modifies bridge, bridge.fifoMem, bridge.captured
      modifies core, core.parser, core.book, core.book.entries, core.strategy, core.gate
      ensures HalvesValid() && State() == Step(old(State()), c)
    {
      hide F.Next, T.Next, T.WellFormed;
      var ready := !(core.parser.mValid && !core.book.phase.Idle?);
      var beat := if core.beatValid then Some(BeatOf(core.beat)) else None;
      var more, head := bridge.fifoCnt != 0, bridge.fifoMem[bridge.fifoRd];
      core.Clock(T.Pins(more, head.data, head.last, c.halt));
      bridge.Clock(c.bus.(streamReady := ready, beat := beat));
    }
  }
}
