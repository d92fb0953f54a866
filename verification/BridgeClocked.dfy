/** The bridge as a clocked object: the two memories and the registers of the four clocked blocks.
    Within a cycle every block reads the values registered before the edge, so Clock runs the blocks in
    an order in which none reads what an earlier one wrote. */
module BridgeClocked {
  import opened Bits
  import opened Messages
  import opened Bridge

  class ClTickToTradeCore {
    const fifoMem: array<Item>
    var fifoRd: nat
    var fifoWr: nat
    var fifoCnt: nat
    const captured: array<Beat>
    var decCnt: nat
    var decOverflow: bool
    var writePhase: Phase
    var bvalid: bool
    var awOut: bool
    var wOut: bool
    var writeAddr: nat
    var writeData: Word
    var bOut: bool
    var push: bool
    var pushItem: Item
    var readPhase: Phase
    var rvalid: bool
    var rdata: Word
    var arOut: bool
    var readAddr: nat
    var rOut: bool

    ghost function FifoRegs(): Fifo
      reads this`fifoRd, this`fifoWr, this`fifoCnt, fifoMem
    {
      Fifo(fifoMem[..], fifoRd, fifoWr, fifoCnt)
    }

    ghost function EgressRegs(): Egress
      reads this`decCnt, this`decOverflow, captured
    {
      Egress(captured[..], decCnt, decOverflow)
    }

    ghost function WriteRegs(): WriteSide
      reads this`writePhase, this`bvalid, this`awOut, this`wOut, this`writeAddr, this`writeData, this`bOut
      reads this`push, this`pushItem
    {
      WriteSide(writePhase, bvalid, awOut, wOut, writeAddr, writeData, bOut, push, pushItem)
    }

    ghost function ReadRegs(): ReadSide
      reads this`readPhase, this`rvalid, this`rdata, this`arOut, this`readAddr, this`rOut
    {
      ReadSide(readPhase, rvalid, rdata, arOut, readAddr, rOut)
    }

    ghost function State(): Regs
      reads this, fifoMem, captured
    {
      Regs(FifoRegs(), EgressRegs(), WriteRegs(), ReadRegs())
    }

    ghost predicate Valid()
      reads this, fifoMem, captured
    {
      State().Valid()
    }

    /** Reset clears every register; the two memories keep whatever they held. */
    constructor (mem: array<Item>, buf: array<Beat>)
      requires mem.Length == IF_DEPTH && buf.Length == DEC_CAP
      ensures fifoMem == mem && captured == buf && IsReset(State())
    {
      fifoMem, fifoRd, fifoWr, fifoCnt := mem, 0, 0, 0;
      captured, decCnt, decOverflow := buf, 0, false;
      writePhase, bvalid, awOut, wOut, writeAddr, writeData, bOut := Idle, false, false, false, 0, 0, false;
      push, pushItem := false, Item(false, 0);
      readPhase, rvalid, rdata, arOut, readAddr, rOut := Idle, false, 0, false, 0, false;
    }

    method Clock(i: Pins)
      requires Valid()
      modifies this, fifoMem, captured
      ensures State() == Next(old(State()), i) && Valid()
    {
      NextValid(State(), i);
      Edge(i);
    }

    /** The four clocked blocks. */
    method Edge(i: Pins)
      requires FifoRegs().Valid() && EgressRegs().Valid()
      modifies this, fifoMem, captured
      ensures FifoRegs() == FifoNext(old(FifoRegs()), old(push), old(pushItem), i.streamReady)
      ensures EgressRegs() == EgressNext(old(EgressRegs()), i.beat)
      ensures WriteRegs() == WriteNext(old(WriteRegs()), i)
      ensures ReadRegs() == ReadNext(old(ReadRegs()), i, old(FifoRegs()), old(EgressRegs()))
    {
      ClockRead(i);
      assert WriteRegs() == old(WriteRegs());
      ClockMemories(i);
      ClockWrite(i);
    }

    method ClockMemories(i: Pins)
      requires FifoRegs().Valid() && EgressRegs().Valid()
      modifies `fifoRd, `fifoWr, `fifoCnt, fifoMem, `decCnt, `decOverflow, captured
      ensures FifoRegs() == FifoNext(old(FifoRegs()), push, pushItem, i.streamReady)
      ensures EgressRegs() == EgressNext(old(EgressRegs()), i.beat)
    {
      ClockFifo(i.streamReady);
      ClockEgress(i.beat);
    }

    /** The ring FIFO: write at fifoWr unless full, read from fifoRd when the parser takes the byte. */
    method ClockFifo(ready: bool)
      requires FifoRegs().Valid()
      modifies `fifoRd, `fifoWr, `fifoCnt, fifoMem
      ensures FifoRegs() == FifoNext(old(FifoRegs()), push, pushItem, ready)
    {
      var pushes, pops := push && fifoCnt != IF_DEPTH, fifoCnt != 0 && ready;
      if pushes {
        fifoMem[fifoWr] := pushItem;
        fifoWr := if fifoWr + 1 == IF_DEPTH then 0 else fifoWr + 1;
      }
      if pops {
        fifoRd := if fifoRd + 1 == IF_DEPTH then 0 else fifoRd + 1;
      }
      if pushes && !pops {
        fifoCnt := fifoCnt + 1;
      } else if pops && !pushes {
        fifoCnt := fifoCnt - 1;
      }
    }

    method ClockEgress(beat: Option<Beat>)
      requires EgressRegs().Valid()
      modifies `decCnt, `decOverflow, captured
      ensures EgressRegs() == EgressNext(old(EgressRegs()), beat)
    {
      if beat.Some? {
        if decCnt < DEC_CAP {
          captured[decCnt] := beat.value;
          decCnt := decCnt + 1;
        } else {
          decOverflow := true;
        }
      }
    }

    method ClockWrite(i: Pins)
      modifies `writePhase, `bvalid, `awOut, `wOut, `writeAddr, `writeData, `bOut, `push, `pushItem
      ensures WriteRegs() == WriteNext(old(WriteRegs()), i)
    {
      push := false;
      match writePhase {
        case Idle =>
          if i.awvalid && i.wvalid {
            if i.awaddr < INGRESS {
              writeAddr, writeData := i.awaddr, i.wdata;
              awOut, wOut, bOut := true, true, true;
              writePhase := Forward;
            } else {
              if i.awaddr % 0x200 == 0 {
                push, pushItem := true, ItemOf(i.wdata);
              }
              bvalid, writePhase := true, Respond;
            }
          }
        case Forward =>
          awOut, wOut := awOut && !i.cAwready, wOut && !i.cWready;
          if i.cBvalid {
            bOut, bvalid, writePhase := false, true, Respond;
          }
        case Respond =>
          if bvalid && i.bready {
            bvalid, writePhase := false, Idle;
          }
      }
    }

    method ClockRead(i: Pins)
      requires EgressRegs().Valid()
      modifies `readPhase, `rvalid, `rdata, `arOut, `readAddr, `rOut
      ensures ReadRegs() == ReadNext(old(ReadRegs()), i, FifoRegs(), EgressRegs())
    {
      match readPhase {
        case Idle =>
          if i.arvalid {
            if i.araddr < INGRESS {
              readAddr, arOut, rOut, readPhase := i.araddr, true, true, Forward;
            } else {
              var word := ReadLocal(i.araddr);
              rdata, rvalid, readPhase := word, true, Respond;
            }
          }
        case Forward =>
          arOut := arOut && !i.cArready;
          if i.cRvalid {
            rdata, rOut, rvalid, readPhase := i.cRdata, false, true, Respond;
          }
        case Respond =>
          if rvalid && i.rready {
            rvalid, readPhase := false, Idle;
          }
      }
    }

    /** The local register map. */
    method ReadLocal(a: Word) returns (word: Word)
      requires EgressRegs().Valid()
      ensures word == LocalRead(a, FifoRegs(), EgressRegs())
    {
      if a % 0x1000 == STATUS {
        word := (decCnt % 0x100) * 0x100 + Flag(decOverflow) * 4 + Flag(fifoCnt == 0) * 2 + Flag(fifoCnt == IF_DEPTH);
      } else if a % 0x1000 == COUNT {
        word := decCnt;
      } else if DEC_BASE <= a < DEC_BASE + 16 * DEC_CAP {
        var d := captured[((a - DEC_BASE) / 16) % DEC_CAP];
        match (a / 4) % 4 {
          case 0 => word := Flag(d.sell);
          case 1 => word := d.price;
          case 2 => word := d.size;
          case _ => word := BAD_READ;
        }
      } else {
        word := BAD_READ;
      }
    }
  }
}
