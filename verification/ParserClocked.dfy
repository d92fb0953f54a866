/** The byte-serial parser as the clocked object it is. */
module ParserClocked {
  import opened Bits
  import opened Messages
  import opened Itch
  import opened ParserRtl

  /** The output word is made of the shift registers alone. */
  lemma SameOutput(s: Regs)
    requires WellFormed(s)
    ensures Output(s.(byteCnt := 0, mValid := true)) == Output(s)
  {
  }

  class ItchParser {
    var byteCnt: nat
    var msgType: Byte
    var locSr: Bytes
    var tsSr: Bytes
    var refSr: Bytes
    var newRefSr: Bytes
    var shSr: Bytes
    var prSr: Bytes
    var sideR: Side
    var mValid: bool
    var out: Decoded
    var unsupported: bool

    ghost predicate Valid()
      reads this
    {
      WellFormed(State())
    }

    ghost function State(): Regs
      reads this
    {
      Regs(byteCnt, msgType, locSr, tsSr, refSr, newRefSr, shSr, prSr, sideR, mValid, out, unsupported)
    }

    constructor ()
      ensures Valid() && byteCnt == 0 && !mValid
    {
      byteCnt, msgType, sideR, mValid, unsupported := 0, 0, Bid, false, false;
      locSr := [0, 0];
      tsSr, refSr, newRefSr := seq(6, _ => 0), seq(8, _ => 0), seq(8, _ => 0);
      shSr, prSr := seq(4, _ => 0), seq(4, _ => 0);
      out := Decoded(0, 0, 0, 0, 0, Bid, 0, 0);
    }

    /** One clock edge. */
    method Clock(i: Port)
      requires Valid()
      modifies this
      ensures Valid() && State() == Next(old(State()), i)
    {
      hide Captured, Output;
      var rx := i.tvalid && !(mValid && !i.mReady);
      unsupported := false;
      if mValid && i.mReady {
        mValid := false;
      }
      if rx {
        Receive(i.tdata, i.tlast);
      }
    }

    /** A byte comes in. */
    method Receive(b: Byte, last: bool)
      requires Valid()
      modifies this
      ensures Valid()
      ensures
        var s := old(State());
        var n := Captured(s, b).(code := if s.byteCnt == 0 then b else s.code);
        State() ==
          if !last then n.(byteCnt := (s.byteCnt + 1) % 64)
          else if IsSupported(s.code) then n.(byteCnt := 0, mValid := true, out := Output(n.(code := s.code)))
          else n.(byteCnt := 0, unsupported := true)
    {
      hide Captured, Output;
      ghost var n := Captured(State(), b).(code := if byteCnt == 0 then b else msgType);
      var code := msgType;
      ShiftIn(b);
      if byteCnt == 0 {
        msgType := b;
      }
      if last {
        byteCnt := 0;
        if IsSupported(code) {
          mValid := true;
          SameOutput(n.(code := code));
          Publish(code);
        } else {
          unsupported := true;
        }
      } else {
        byteCnt := (byteCnt + 1) % 64;
      }
    }

    /** Advance the shift registers with the current byte included. */
    method ShiftIn(b: Byte)
      requires Valid()
      modifies `locSr, `tsSr, `refSr, `newRefSr, `shSr, `prSr, `sideR
      ensures Valid() && State() == Captured(old(State()), b)
    {
      var c := byteCnt;
      if 1 <= c <= 2 {
        locSr := locSr[1..] + [b];
      } else if 5 <= c <= 10 {
        tsSr := tsSr[1..] + [b];
      } else if 11 <= c <= 18 {
        refSr := refSr[1..] + [b];
      } else if c < 19 {
        // type and tracking bytes
      } else if IsAddFields(msgType) {
        if c == 19 {
          sideR := if b == SELL then Ask else Bid;
        } else if 20 <= c <= 23 {
          shSr := shSr[1..] + [b];
        } else if 32 <= c <= 35 {
          prSr := prSr[1..] + [b];
        }
      } else if IsReplace(msgType) {
        if 19 <= c <= 26 {
          newRefSr := newRefSr[1..] + [b];
        } else if 27 <= c <= 30 {
          shSr := shSr[1..] + [b];
        } else if 31 <= c <= 34 {
          prSr := prSr[1..] + [b];
        }
      } else {
        if 19 <= c <= 22 {
          shSr := shSr[1..] + [b];
        } else if IsExecPrice(msgType) && 32 <= c <= 35 {
          prSr := prSr[1..] + [b];
        }
      }
    }

    /** Capture the outputs of a message of type `code`. */
    method Publish(code: Byte)
      requires Valid()
      modifies `out
      ensures Valid() && State() == old(State()).(out := Output(old(State()).(code := code)))
    {
      var ref := Value64(refSr);
      out := Decoded(code, Value(locSr), Value(tsSr), ref, if IsReplace(code) then Value64(newRefSr) else ref,
                     if IsAddFields(code) then sideR else Bid, Value32(shSr),
                     if IsAddFields(code) || IsExecPrice(code) || IsReplace(code) then Value32(prSr) else 0);
    }
  }
}
