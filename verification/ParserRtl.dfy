/** The byte-serial ITCH parser: shift registers fed one byte per cycle, an output held until it is
    taken, and the proof that under any gaps and stalls it yields what the golden parser yields. */
module ParserRtl {
  import opened Bits
  import opened Messages
  import opened Itch

  /** The pins of one cycle. */
  datatype Port = Port(tvalid: bool, tdata: Byte, tlast: bool, mReady: bool)

  /** The decoded-message outputs. */
  datatype Decoded = Decoded(code: Byte, locate: nat, timestamp: nat, ref: Quad, newRef: Quad, side: Side,
                             shares: Word, price: Word)

  /** Shift registers are kept as the bytes they are the concatenation of, oldest first. */
  datatype Regs = Regs(byteCnt: nat, code: Byte, loc: Bytes, ts: Bytes, ref: Bytes, newRef: Bytes, shares: Bytes,
                       price: Bytes, side: Side, mValid: bool, out: Decoded, unsupported: bool)

  predicate WellFormed(s: Regs) {
    && |s.loc| == 2 && |s.ts| == 6 && |s.ref| == 8 && |s.newRef| == 8 && |s.shares| == 4 && |s.price| == 4
    && s.byteCnt < 64
  }

  predicate IsAddFields(code: Byte) { code == 0x41 || code == 0x46 || code == 0x50 }
  predicate IsReplace(code: Byte) { code == 0x55 }
  predicate IsExecPrice(code: Byte) { code == 0x43 }
  predicate IsSupported(code: Byte) {
    IsAddFields(code) || IsReplace(code) || IsExecPrice(code) || code == 0x58 || code == 0x44 || code == 0x45
  }

  predicate Ready(s: Regs, mReady: bool) { !(s.mValid && !mReady) }

  predicate Receives(s: Regs, i: Port) { i.tvalid && Ready(s, i.mReady) }

  /** A register that takes in bytes lo..hi of the message. */
  function Capture(reg: Bytes, b: Byte, cnt: nat, lo: nat, hi: nat): (r: Bytes)
    requires reg != []
    ensures |r| == |reg|
  {
    if lo <= cnt < hi then Push(reg, b) else reg
  }

  /** The combinational next values, the current byte included. Field offsets past the common header
      depend on the registered type byte. */
  function Captured(s: Regs, b: Byte): (r: Regs)
    requires WellFormed(s)
    ensures WellFormed(r)
  {
    var c := s.byteCnt;
    var header := s.(loc := Capture(s.loc, b, c, 1, 3), ts := Capture(s.ts, b, c, 5, 11),
                     ref := Capture(s.ref, b, c, 11, 19));
    if c < 19 then header
    else if IsAddFields(s.code) then
      header.(side := if c == 19 then (if b == SELL then Ask else Bid) else s.side,
              shares := Capture(s.shares, b, c, 20, 24), price := Capture(s.price, b, c, 32, 36))
    else if IsReplace(s.code) then
      header.(newRef := Capture(s.newRef, b, c, 19, 27),
              shares := Capture(s.shares, b, c, 27, 31), price := Capture(s.price, b, c, 31, 35))
    else if IsExecPrice(s.code) then
      header.(shares := Capture(s.shares, b, c, 19, 23), price := Capture(s.price, b, c, 32, 36))
    else header.(shares := Capture(s.shares, b, c, 19, 23))
  }

  /** The word captured into the outputs on tlast. */
  function Output(s: Regs): Decoded
    requires WellFormed(s)
  {
    var ref := Value64(s.ref);
    Decoded(s.code, Value(s.loc), Value(s.ts), ref, if IsReplace(s.code) then Value64(s.newRef) else ref,
            if IsAddFields(s.code) then s.side else Bid, Value32(s.shares),
            if IsAddFields(s.code) || IsExecPrice(s.code) || IsReplace(s.code) then Value32(s.price) else 0)
  }

  function Next(s: Regs, i: Port): (r: Regs)
    requires WellFormed(s)
    ensures WellFormed(r)
  {
    var taken := s.(mValid := s.mValid && !i.mReady, unsupported := false);
    if !Receives(s, i) then taken
    else
      var n := Captured(taken, i.tdata).(code := if s.byteCnt == 0 then i.tdata else s.code);
      if !i.tlast then n.(byteCnt := (s.byteCnt + 1) % 64)
      else if IsSupported(s.code) then n.(byteCnt := 0, mValid := true, out := Output(n.(code := s.code)))
      else n.(byteCnt := 0, unsupported := true)
  }

  // ---- whole runs ---------------------------------------------------------------------------

  function Clocked(s: Regs, ports: seq<Port>): (r: Regs)
    requires WellFormed(s)
    ensures WellFormed(r)
  {
    if ports == [] then s else Next(Clocked(s, ports[..|ports| - 1]), ports[|ports| - 1])
  }

  /** Bytes transferred on the stream side, split into finished messages and the one under way. */
  datatype Framing = Framing(done: seq<Bytes>, tail: Bytes)

  function Framed(s: Regs, ports: seq<Port>): Framing
    requires WellFormed(s)
  {
    if ports == [] then Framing([], [])
    else
      var before, i := ports[..|ports| - 1], ports[|ports| - 1];
      var f := Framed(s, before);
      if !Receives(Clocked(s, before), i) then f
      else if i.tlast then Framing(f.done + [f.tail + [i.tdata]], [])
      else Framing(f.done, f.tail + [i.tdata])
  }

  /** Outputs handed over: cycles in which m_valid and m_ready are both high. */
  function Delivered(s: Regs, ports: seq<Port>): seq<Decoded>
    requires WellFormed(s)
  {
    if ports == [] then []
    else
      var before, i := ports[..|ports| - 1], ports[|ports| - 1];
      var r := Clocked(s, before);
      if r.mValid && i.mReady then Delivered(s, before) + [r.out] else Delivered(s, before)
  }

  /** Delivered outputs and the one still held. */
  function Emitted(s: Regs, ports: seq<Port>): seq<Decoded>
    requires WellFormed(s)
  {
    var r := Clocked(s, ports);
    if r.mValid then Delivered(s, ports) + [r.out] else Delivered(s, ports)
  }

  /** Bytes a message of the given kind must have for all of its fields. */
  function FullLength(kind: Kind): nat {
    match kind
    case Add | AddMpid | Trade | ExecPrice => 36
    case Replace => 35
    case Cancel | Execute => 23
    case Delete => 19
  }

  /** The messages the byte counter can tell apart: 2 to 64 bytes, supported ones complete. */
  predicate Fits(raw: Bytes) {
    2 <= |raw| <= 64 && (KindOf(raw[0]).Some? ==> |raw| >= FullLength(KindOf(raw[0]).value))
  }

  /** All golden fields, except that a Delete leaves the stale share register in `shares`. */
  predicate Same(d: Decoded, m: Msg) {
    && d.code == Code(m.kind) && d.timestamp == m.timestamp && d.ref == m.ref && d.newRef == m.newRef
    && d.side == m.side && d.price == m.price && (!m.kind.Delete? ==> d.shares == m.shares)
  }

  /** The locate codes of the messages the golden parser returns, which it does not decode itself. */
  function Locates(frames: seq<Bytes>): (r: seq<nat>)
    ensures |r| == |Golden(frames)|
  {
    if frames == [] then []
    else
      var raw := frames[|frames| - 1];
      Locates(frames[..|frames| - 1]) + (if ParseMessage(raw).Parsed? then [Field(raw, 1, 3)] else [])
  }

  /** What the golden parser makes of a list of messages, the unsupported ones dropped. */
  function Golden(frames: seq<Bytes>): seq<Msg> {
    if frames == [] then []
    else
      var o := ParseMessage(frames[|frames| - 1]);
      Golden(frames[..|frames| - 1]) + (if o.Parsed? then [o.msg] else [])
  }

  // ---- the registers hold the message received so far -------------------------------------------

  /** How many of bytes lo..hi the first `n` bytes of a message contain. */
  function Seen(n: nat, lo: nat, hi: nat): (j: nat)
    requires lo <= hi
    ensures j <= hi - lo && (j > 0 ==> lo + j <= n)
  {
    if n <= lo then 0 else if n <= hi then n - lo else hi - lo
  }

  /** The youngest bytes of `reg` are what message `cur` has shown of its bytes lo..hi. */
  ghost predicate Holds(reg: Bytes, cur: Bytes, lo: nat, hi: nat)
    requires lo < hi && |reg| == hi - lo
  {
    var j := Seen(|cur|, lo, hi);
    j > 0 ==> reg[|reg| - j..] == cur[lo..lo + j]
  }

  lemma TailShifts(reg: Bytes, b: Byte, j: nat)
    requires j < |reg|
    ensures (reg[1..] + [b])[|reg| - (j + 1)..] == reg[|reg| - j..] + [b]
  {
  }

  lemma SliceGrows(cur: Bytes, b: Byte, lo: nat, hi: nat)
    requires lo <= hi <= |cur|
    ensures (cur + [b])[lo..hi] == cur[lo..hi]
    ensures hi == |cur| ==> (cur + [b])[lo..hi + 1] == cur[lo..hi] + [b]
  {
  }

  lemma CaptureIn(reg: Bytes, cur: Bytes, b: Byte, lo: nat, hi: nat)
    requires lo <= |cur| < hi && |reg| == hi - lo && Holds(reg, cur, lo, hi)
    ensures Holds(Push(reg, b), cur + [b], lo, hi)
  {
    TailShifts(reg, b, |cur| - lo);
    SliceGrows(cur, b, lo, |cur|);
  }

  lemma CaptureOut(reg: Bytes, cur: Bytes, b: Byte, lo: nat, hi: nat)
    requires lo < hi && !(lo <= |cur| < hi) && |reg| == hi - lo && Holds(reg, cur, lo, hi)
    ensures Holds(reg, cur + [b], lo, hi)
  {
    if hi <= |cur| { SliceGrows(cur, b, lo, hi); }
  }

  lemma CaptureHolds(reg: Bytes, cur: Bytes, b: Byte, lo: nat, hi: nat)
    requires lo < hi && |reg| == hi - lo && Holds(reg, cur, lo, hi)
    ensures Holds(Capture(reg, b, |cur|, lo, hi), cur + [b], lo, hi)
  {
    hide Holds;
    if lo <= |cur| < hi {
      CaptureIn(reg, cur, b, lo, hi);
    } else {
      CaptureOut(reg, cur, b, lo, hi);
    }
  }

  lemma HoldsAll(reg: Bytes, raw: Bytes, lo: nat, hi: nat)
    requires lo < hi <= |raw| && |reg| == hi - lo && Holds(reg, raw, lo, hi)
    ensures Value(reg) == Field(raw, lo, hi)
  {
    assert reg[0..] == reg == raw[lo..hi];
    if |raw| == hi { assert raw[lo..] == raw[lo..hi]; }
  }

  /** The type-dependent fields. */
  ghost predicate BodyHolds(s: Regs, cur: Bytes, code: Byte)
    requires WellFormed(s)
  {
    if IsAddFields(code) then
      && (|cur| > 19 ==> s.side == if cur[19] == SELL then Ask else Bid)
      && Holds(s.shares, cur, 20, 24) && Holds(s.price, cur, 32, 36)
    else if IsReplace(code) then
      Holds(s.newRef, cur, 19, 27) && Holds(s.shares, cur, 27, 31) && Holds(s.price, cur, 31, 35)
    else if IsExecPrice(code) then Holds(s.shares, cur, 19, 23) && Holds(s.price, cur, 32, 36)
    else Holds(s.shares, cur, 19, 23)
  }

  /** All captured fields agree with the message received so far. */
  ghost predicate FieldsHold(s: Regs, cur: Bytes)
    requires WellFormed(s)
  {
    && Holds(s.loc, cur, 1, 3) && Holds(s.ts, cur, 5, 11) && Holds(s.ref, cur, 11, 19)
    && (cur != [] ==> s.code == cur[0])
    && BodyHolds(s, cur, s.code)
  }

  /** Before byte 19 no type-dependent register has been claimed, whatever the type turns out to be. */
  lemma EarlyBody(s: Regs, cur: Bytes, code: Byte)
    requires WellFormed(s) && |cur| <= 19
    ensures BodyHolds(s, cur, code)
  {
  }

  /** Before a message nothing has been claimed. */
  lemma NothingHeld(s: Regs)
    requires WellFormed(s)
    ensures FieldsHold(s, [])
  {
    EarlyBody(s, [], s.code);
  }

  lemma CaptureStep(s: Regs, cur: Bytes, b: Byte)
    requires WellFormed(s) && FieldsHold(s, cur) && s.byteCnt == |cur|
    ensures
      var n := Captured(s, b).(code := if s.byteCnt == 0 then b else s.code);
      FieldsHold(n, cur + [b])
  {
    hide Holds, Capture;
    var n := Captured(s, b).(code := if s.byteCnt == 0 then b else s.code);
    CaptureHolds(s.loc, cur, b, 1, 3);
    CaptureHolds(s.ts, cur, b, 5, 11);
    CaptureHolds(s.ref, cur, b, 11, 19);
    if |cur| < 19 {
      EarlyBody(n, cur + [b], n.code);
    } else if IsAddFields(s.code) {
      CaptureHolds(s.shares, cur, b, 20, 24);
      CaptureHolds(s.price, cur, b, 32, 36);
    } else if IsReplace(s.code) {
      CaptureHolds(s.newRef, cur, b, 19, 27);
      CaptureHolds(s.shares, cur, b, 27, 31);
      CaptureHolds(s.price, cur, b, 31, 35);
    } else if IsExecPrice(s.code) {
      CaptureHolds(s.shares, cur, b, 19, 23);
      CaptureHolds(s.price, cur, b, 32, 36);
    } else {
      CaptureHolds(s.shares, cur, b, 19, 23);
    }
  }

  /** A completely received message is output with its golden fields. */
  lemma OutputIsGolden(s: Regs, raw: Bytes)
    requires WellFormed(s) && FieldsHold(s, raw) && Fits(raw) && IsSupported(s.code)
    ensures ParseMessage(raw).Parsed? && Same(Output(s), ParseMessage(raw).msg) && Output(s).locate == Field(raw, 1, 3)
  {
    hide Holds, Value, Slice;
    HoldsAll(s.loc, raw, 1, 3);
    HoldsAll(s.ts, raw, 5, 11);
    HoldsAll(s.ref, raw, 11, 19);
    if IsAddFields(s.code) {
      HoldsAll(s.shares, raw, 20, 24);
      HoldsAll(s.price, raw, 32, 36);
    } else if IsReplace(s.code) {
      HoldsAll(s.newRef, raw, 19, 27);
      HoldsAll(s.shares, raw, 27, 31);
      HoldsAll(s.price, raw, 31, 35);
    } else if IsExecPrice(s.code) {
      HoldsAll(s.shares, raw, 19, 23);
      HoldsAll(s.price, raw, 32, 36);
    } else if s.code != 0x44 {
      HoldsAll(s.shares, raw, 19, 23);
    }
  }

  ghost predicate AllFit(f: Framing) {
    |f.tail| < 64 && forall k | 0 <= k < |f.done| :: Fits(f.done[k])
  }

  ghost predicate SameAll(out: seq<Decoded>, msgs: seq<Msg>) {
    |out| == |msgs| && forall k | 0 <= k < |out| :: Same(out[k], msgs[k])
  }

  ghost predicate SameLocates(out: seq<Decoded>, locates: seq<nat>) {
    |out| == |locates| && forall k | 0 <= k < |out| :: out[k].locate == locates[k]
  }

  /** What the last cycle adds to the framing and to the outputs handed over. */
  lemma LastCycle(s: Regs, ports: seq<Port>)
    requires WellFormed(s) && ports != []
    ensures
      var before, i := ports[..|ports| - 1], ports[|ports| - 1];
      var r, f, f' := Clocked(s, before), Framed(s, before), Framed(s, ports);
      && Delivered(s, ports) == (if i.mReady || !r.mValid then Emitted(s, before) else Delivered(s, before))
      && f' == (if !Receives(r, i) then f
                else if i.tlast then Framing(f.done + [f.tail + [i.tdata]], [])
                else Framing(f.done, f.tail + [i.tdata]))
  {
  }

  lemma FitsBefore(f: Framing, b: Byte)
    ensures AllFit(Framing(f.done, f.tail + [b])) ==> AllFit(f)
    ensures AllFit(Framing(f.done + [f.tail + [b]], [])) ==> AllFit(f) && Fits(f.tail + [b])
  {
    var done' := f.done + [f.tail + [b]];
    assert done'[|f.done|] == f.tail + [b];
    assert forall k | 0 <= k < |f.done| :: done'[k] == f.done[k];
  }

  /** Registers in step with the bytes, outputs in step with the messages. */
  ghost predicate InStep(r: Regs, f: Framing, emitted: seq<Decoded>)
    requires WellFormed(r)
  {
    && r.byteCnt == |f.tail| && FieldsHold(r, f.tail)
    && SameAll(emitted, Golden(f.done)) && SameLocates(emitted, Locates(f.done))
  }

  /** A cycle that receives a byte which does not end a message. */
  lemma MiddleByte(r: Regs, f: Framing, emitted: seq<Decoded>, i: Port)
    requires WellFormed(r) && InStep(r, f, emitted) && Receives(r, i) && !i.tlast && |f.tail| < 63
    ensures InStep(Next(r, i), Framing(f.done, f.tail + [i.tdata]), emitted) && !Next(r, i).mValid
  {
    CaptureStep(r.(mValid := false, unsupported := false), f.tail, i.tdata);
  }

  lemma GoldenSnoc(frames: seq<Bytes>, raw: Bytes)
    ensures
      var o := ParseMessage(raw);
      && Golden(frames + [raw]) == Golden(frames) + (if o.Parsed? then [o.msg] else [])
      && Locates(frames + [raw]) == Locates(frames) + (if o.Parsed? then [Field(raw, 1, 3)] else [])
  {
    assert (frames + [raw])[..|frames|] == frames;
  }

  lemma SkippedIff(raw: Bytes)
    requires Fits(raw)
    ensures ParseMessage(raw).Skipped? <==> !IsSupported(raw[0])
  {
  }

  /** What the cycle that receives the last byte of a message does to the registers. */
  lemma LastEdge(r: Regs, tail: Bytes, i: Port)
    requires WellFormed(r) && r.byteCnt == |tail| && FieldsHold(r, tail)
    requires Receives(r, i) && i.tlast && Fits(tail + [i.tdata])
    ensures
      var raw, r' := tail + [i.tdata], Next(r, i);
      && r'.byteCnt == 0 && FieldsHold(r', [])
      && r'.mValid == IsSupported(raw[0]) && r'.unsupported == !IsSupported(raw[0])
      && (r'.mValid ==> ParseMessage(raw).Parsed? && Same(r'.out, ParseMessage(raw).msg))
      && (r'.mValid ==> r'.out.locate == Field(raw, 1, 3))
  {
    assert tail != [] && tail[0] == r.code;
    var raw, taken := tail + [i.tdata], r.(mValid := false, unsupported := false);
    var n := Captured(taken, i.tdata).(code := if r.byteCnt == 0 then i.tdata else r.code);
    hide FieldsHold, Captured, Output, ParseMessage, Same, Field;
    CaptureStep(taken, tail, i.tdata);
    NothingHeld(Next(r, i));
    if IsSupported(r.code) {
      OutputIsGolden(n, raw);
    }
  }

  /** The cycle that receives the last byte of a message. */
  lemma LastByte(r: Regs, f: Framing, emitted: seq<Decoded>, i: Port)
    requires WellFormed(r) && InStep(r, f, emitted) && Receives(r, i) && i.tlast && Fits(f.tail + [i.tdata])
    ensures
      var r' := Next(r, i);
      && InStep(r', Framing(f.done + [f.tail + [i.tdata]], []), if r'.mValid then emitted + [r'.out] else emitted)
      && (r'.unsupported <==> ParseMessage(f.tail + [i.tdata]).Skipped?)
  {
    hide FieldsHold, Golden, Locates, ParseMessage, Same, Field, Next, Fits;
    var raw := f.tail + [i.tdata];
    LastEdge(r, f.tail, i);
    GoldenSnoc(f.done, raw);
    SkippedIff(raw);
  }

  lemma {:induction false} RunHolds(s: Regs, ports: seq<Port>)
    requires WellFormed(s) && s.byteCnt == 0 && !s.mValid && AllFit(Framed(s, ports))
    ensures InStep(Clocked(s, ports), Framed(s, ports), Emitted(s, ports))
  {
    if ports == [] {
      EarlyBody(s, [], s.code);
    } else {
      var before, i := ports[..|ports| - 1], ports[|ports| - 1];
      var r, f := Clocked(s, before), Framed(s, before);
      LastCycle(s, ports);
      if Receives(r, i) {
        FitsBefore(f, i.tdata);
        RunHolds(s, before);
        if i.tlast {
          LastByte(r, f, Emitted(s, before), i);
        } else {
          MiddleByte(r, f, Emitted(s, before), i);
        }
      } else {
        RunHolds(s, before);
      }
    }
  }

  /** MAIN RESULT. From any register contents between messages, and for any pattern of input gaps and
      output stalls, the messages delivered so far, with the one still held, are in order and exactly
      once the golden messages of the byte stream received so far, each with its own locate code. */
  lemma ParserIsGolden(s: Regs, ports: seq<Port>)
    requires WellFormed(s) && s.byteCnt == 0 && !s.mValid && AllFit(Framed(s, ports))
    ensures SameAll(Emitted(s, ports), Golden(Framed(s, ports).done))
    ensures SameLocates(Emitted(s, ports), Locates(Framed(s, ports).done))
  {
    RunHolds(s, ports);
  }

  /** The unsupported flag is up exactly in the cycle after the last byte of a message the golden parser
      skips. */
  lemma UnsupportedIff(s: Regs, ports: seq<Port>)
    requires WellFormed(s) && s.byteCnt == 0 && !s.mValid && AllFit(Framed(s, ports)) && ports != []
    ensures
      var before, done := Framed(s, ports[..|ports| - 1]).done, Framed(s, ports).done;
      Clocked(s, ports).unsupported <==> |done| > |before| && ParseMessage(done[|done| - 1]).Skipped?
  {
    var before, i := ports[..|ports| - 1], ports[|ports| - 1];
    var r, f := Clocked(s, before), Framed(s, before);
    LastCycle(s, ports);
    if Receives(r, i) {
      FitsBefore(f, i.tdata);
      RunHolds(s, before);
      if i.tlast {
        LastByte(r, f, Emitted(s, before), i);
      }
    }
  }
}
