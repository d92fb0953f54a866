/** What the byte-serial parser makes of frames of any length, those its byte counter cannot tell apart
    included: when it emits a message, and when that is what the golden parser does. */
module ParserFrames {
  import opened Bits
  import opened Messages
  import opened Itch
  import opened ParserRtl

  /** The type byte held while the last byte of a frame comes in: the first byte of its last block of 64, or,
      for a frame of one byte, what the frame before left. */
  function Key(prev: Byte, raw: Bytes): Byte
    requires raw != []
  {
    if |raw| == 1 then prev else raw[(|raw| - 2) / 64 * 64]
  }

  /** What a frame leaves in the type register. */
  function Left(raw: Bytes): Byte
    requires raw != []
  {
    raw[(|raw| - 1) / 64 * 64]
  }

  function LeftBy(first: Byte, frames: seq<Bytes>): Byte {
    if frames == [] || frames[|frames| - 1] == [] then first else Left(frames[|frames| - 1])
  }

  /** The type bytes of the frames that make the parser emit a message. */
  function Keys(first: Byte, frames: seq<Bytes>): seq<Byte> {
    if frames == [] || frames[|frames| - 1] == [] then []
    else
      var before, raw := frames[..|frames| - 1], frames[|frames| - 1];
      var key := Key(LeftBy(first, before), raw);
      Keys(first, before) + if IsSupported(key) then [key] else []
  }

  function Codes(out: seq<Decoded>): (r: seq<nat>)
    ensures |r| == |out|
  {
    seq(|out|, k requires 0 <= k < |out| => out[k].code)
  }

  /** Counter and type register in step with the bytes of the frame under way. */
  ghost predicate Counts(r: Regs, first: Byte, f: Framing) {
    && r.byteCnt == |f.tail| % 64
    && r.code == if f.tail == [] then LeftBy(first, f.done) else Left(f.tail)
  }

  lemma BlockStart(k: nat)
    ensures (k % 64 == 0 ==> k / 64 * 64 == k) && (k % 64 != 0 ==> k / 64 == (k - 1) / 64)
    ensures (k + 1) % 64 == (k % 64 + 1) % 64
  {
  }

  lemma CodeAfterByte(code: Byte, first: Byte, tail: Bytes, b: Byte)
    requires code == if tail == [] then first else Left(tail)
    ensures (if |tail| % 64 == 0 then b else code) == Left(tail + [b])
    ensures code == Key(first, tail + [b])
  {
    BlockStart(|tail|);
  }

  lemma KeysSnoc(first: Byte, frames: seq<Bytes>, raw: Bytes)
    requires raw != []
    ensures
      var key := Key(LeftBy(first, frames), raw);
      Keys(first, frames + [raw]) == Keys(first, frames) + if IsSupported(key) then [key] else []
    ensures LeftBy(first, frames + [raw]) == Left(raw)
  {
    assert (frames + [raw])[..|frames|] == frames;
  }

  /** MAIN RESULT. Frames of any length: the messages emitted so far are those of the frames whose key is a
      supported type, in order and with that type. */
  lemma {:induction false} EmitsByKey(s: Regs, ports: seq<Port>)
    requires WellFormed(s) && s.byteCnt == 0 && !s.mValid
    ensures Counts(Clocked(s, ports), s.code, Framed(s, ports))
    ensures Codes(Emitted(s, ports)) == Keys(s.code, Framed(s, ports).done)
  {
    hide Left, Key, Keys, LeftBy, Captured, Output;
    if ports == [] {
      NoFrames(s.code);
    } else {
      var before, i := ports[..|ports| - 1], ports[|ports| - 1];
      var r, f := Clocked(s, before), Framed(s, before);
      EmitsByKey(s, before);
      LastCycle(s, ports);
      if Receives(r, i) {
        OneByte(r, s.code, f, i);
        KeysSnoc(s.code, f.done, f.tail + [i.tdata]);
      }
    }
  }

  lemma NoFrames(first: Byte)
    ensures Keys(first, []) == [] && LeftBy(first, []) == first
  {
  }

  /** A received byte moves the counter and the type register; the last one of a frame decides by the key. */
  lemma OneByte(r: Regs, first: Byte, f: Framing, i: Port)
    requires WellFormed(r) && Counts(r, first, f) && Receives(r, i)
    ensures
      var raw, r' := f.tail + [i.tdata], Next(r, i);
      if i.tlast then
        var key := Key(LeftBy(first, f.done), raw);
        && r'.byteCnt == 0 && r'.code == Left(raw)
        && (r'.mValid <==> IsSupported(key)) && (r'.mValid ==> r'.out.code == key)
        && (r'.unsupported <==> !IsSupported(key))
      else Counts(r', first, Framing(f.done, raw)) && !r'.mValid && !r'.unsupported
  {
    hide Left, Key, LeftBy;
    CodeAfterByte(r.code, LeftBy(first, f.done), f.tail, i.tdata);
    BlockStart(|f.tail|);
  }

  /** The unsupported flag is up exactly in the cycle after the last byte of a frame whose key is none of the
      supported types. */
  lemma UnsupportedByKey(s: Regs, ports: seq<Port>)
    requires WellFormed(s) && s.byteCnt == 0 && !s.mValid && ports != []
    ensures
      var before, done := Framed(s, ports[..|ports| - 1]).done, Framed(s, ports).done;
      Clocked(s, ports).unsupported <==>
        |done| > |before| && done[|done| - 1] != [] && !IsSupported(Key(LeftBy(s.code, before), done[|done| - 1]))
  {
    hide Left, Key, Keys, LeftBy, Captured, Output;
    var before, i := ports[..|ports| - 1], ports[|ports| - 1];
    EmitsByKey(s, before);
    LastCycle(s, ports);
    if Receives(Clocked(s, before), i) {
      OneByte(Clocked(s, before), s.code, Framed(s, before), i);
    }
  }

  /** When a frame is emitted exactly where the golden parser returns a message: for 2 to 65 bytes unless that
      one raises; for one byte by luck, since the type judged is that of the frame before; beyond 65 bytes when
      its last block of 64 starts like a message as its first one does. */
  lemma EmittedAlikeIff(prev: Byte, raw: Bytes)
    requires raw != []
    ensures (IsSupported(Key(prev, raw)) <==> ParseMessage(raw).Parsed?) <==>
      if |raw| == 1 then IsSupported(prev) <==> IsSupported(raw[0]) && !IsAddFields(raw[0])
      else if |raw| <= 65 then !ParseMessage(raw).Raises?
      else IsSupported(raw[(|raw| - 2) / 64 * 64]) <==> IsSupported(raw[0])
  {
  }

  /** So after a Delete a lone unsupported byte yields a message, and after an unsupported message a lone
      Delete byte yields none. */
  lemma OneByteFrames()
    ensures IsSupported(Key(0x44, [0x20])) && ParseMessage([0x20]).Skipped?
    ensures !IsSupported(Key(0x20, [0x44])) && ParseMessage([0x44]).Parsed?
  {
  }

  function KindCodes(msgs: seq<Msg>): (r: seq<nat>)
    ensures |r| == |msgs|
  {
    seq(|msgs|, k requires 0 <= k < |msgs| => Code(msgs[k].kind))
  }

  /** Frames of 2 to 65 bytes on which the golden parser does not raise, cut short or not. */
  predicate Tellable(raw: Bytes) { 2 <= |raw| <= 65 && !ParseMessage(raw).Raises? }

  lemma {:induction false} KeysAreGolden(first: Byte, frames: seq<Bytes>)
    requires forall k | 0 <= k < |frames| :: Tellable(frames[k])
    ensures Keys(first, frames) == KindCodes(Golden(frames))
  {
    hide Key, Left, LeftBy, ParseMessage;
    if frames != [] {
      var before, raw := frames[..|frames| - 1], frames[|frames| - 1];
      KeysAreGolden(first, before);
      assert frames == before + [raw];
      KeysSnoc(first, before, raw);
      KeyIsGolden(LeftBy(first, before), raw);
    }
  }

  lemma KeyIsGolden(prev: Byte, raw: Bytes)
    requires Tellable(raw)
    ensures IsSupported(Key(prev, raw)) <==> ParseMessage(raw).Parsed?
    ensures ParseMessage(raw).Parsed? ==> Code(ParseMessage(raw).msg.kind) == Key(prev, raw)
  {
  }

  /** So on such frames, truncated ones included, the parser emits as many messages as the golden one, of the
      same types and in the same order; what a cut short message loses is fields. */
  lemma SameTypes(s: Regs, ports: seq<Port>)
    requires WellFormed(s) && s.byteCnt == 0 && !s.mValid
    requires forall k | 0 <= k < |Framed(s, ports).done| :: Tellable(Framed(s, ports).done[k])
    ensures Codes(Emitted(s, ports)) == KindCodes(Golden(Framed(s, ports).done))
  {
    EmitsByKey(s, ports);
    KeysAreGolden(s.code, Framed(s, ports).done);
  }
}
