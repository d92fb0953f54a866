/** The synthetic ITCH encoder, and the round trip through the golden stream parser. */
module Synth {
  import opened Bits
  import opened Messages
  import opened Itch
  import P = ParserRtl

  /** x as n big-endian bytes. */
  function ToBytes(x: nat, n: nat): (r: Bytes)
    ensures |r| == n
  {
    if n == 0 then [] else ToBytes(x / 0x100, n - 1) + [x % 0x100]
  }

  lemma {:induction false} ValueOfBytes(x: nat, n: nat)
    requires x < Pow256(n)
    ensures Value(ToBytes(x, n)) == x
  {
    if n > 0 {
      ValueOfBytes(x / 0x100, n - 1);
      assert ToBytes(x, n)[..n - 1] == ToBytes(x / 0x100, n - 1);
    }
  }

  lemma {:induction false} BytesOfValue(b: Bytes)
    ensures ToBytes(Value(b), |b|) == b
  {
    if b != [] {
      BytesOfValue(b[..|b| - 1]);
    }
  }

  /** The n bytes a text field takes: cut off or padded with blanks. */
  function Padded(s: Bytes, n: nat): (r: Bytes)
    ensures |r| == n
  {
    if |s| >= n then s[..n] else s + seq(n - |s|, _ => 0x20)
  }

  /** Everything a builder writes that the parser ignores. */
  datatype Extras = Extras(locate: nat, symbol: Bytes, mpid: Bytes, matchNo: nat, printable: bool)

  const BUY: Byte := 0x42

  /** Field values that the packing of the builder for this kind accepts; any other makes it raise. */
  predicate FieldsPack(m: Msg, x: Extras) {
    && x.locate < TWO16 && m.ref < TWO64
    && (!m.kind.Delete? ==> m.shares < TWO32)
    && (IsAdd(m.kind) || m.kind.Trade? || m.kind.ExecPrice? || m.kind.Replace? ==> m.price < TWO32)
    && (m.kind.Trade? || m.kind.Execute? || m.kind.ExecPrice? ==> x.matchNo < TWO64)
    && (m.kind.Replace? ==> m.newRef < TWO64)
  }

  predicate Packable(m: Msg, x: Extras) { m.timestamp < TWO48 && FieldsPack(m, x) }

  function Header(m: Msg, x: Extras): (r: Bytes)
    ensures |r| == 19
  {
    [Code(m.kind)] + ToBytes(x.locate, 2) + [0, 0] + ToBytes(m.timestamp, 6) + ToBytes(m.ref, 8)
  }

  function SideByte(side: Side): Byte { if side.Bid? then BUY else SELL }

  /** Side, shares, symbol and price, as Add, Add with MPID and Trade carry them. */
  function OrderFields(m: Msg, x: Extras): (r: Bytes)
    ensures |r| == 17
  {
    [SideByte(m.side)] + ToBytes(m.shares, 4) + Padded(x.symbol, 8) + ToBytes(m.price, 4)
  }

  function Body(m: Msg, x: Extras): Bytes {
    match m.kind
    case Add => OrderFields(m, x)
    case AddMpid => OrderFields(m, x) + Padded(x.mpid, 4)
    case Trade => OrderFields(m, x) + ToBytes(x.matchNo, 8)
    case Cancel => ToBytes(m.shares, 4)
    case Delete => []
    case Execute => ToBytes(m.shares, 4) + ToBytes(x.matchNo, 8)
    case ExecPrice =>
      ToBytes(m.shares, 4) + ToBytes(x.matchNo, 8) + [if x.printable then 1 else 0] + ToBytes(m.price, 4)
    case Replace => ToBytes(m.newRef, 8) + ToBytes(m.shares, 4) + ToBytes(m.price, 4)
  }

  function Payload(m: Msg, x: Extras): Bytes { Header(m, x) + Body(m, x) }

  function Frame(payload: Bytes): Bytes
  {
    ToBytes(|payload|, 2) + payload
  }

  /** A message as its builder can produce it: fields its kind does not carry have the values the
      parser reports for them. */
  predicate Canonical(m: Msg) {
    && (!m.kind.Replace? ==> m.newRef == m.ref)
    && (!IsAdd(m.kind) && !m.kind.Trade? ==> m.side.Bid?)
    && (m.kind.Delete? ==> m.shares == 0)
    && (m.kind.Delete? || m.kind.Cancel? || m.kind.Execute? ==> m.price == 0)
  }

  lemma TimeWidth()
    ensures Pow256(6) == TWO48
  {
    assert Pow256(3) == 0x100_0000;
  }

  // ---- decoding what was encoded -------------------------------------------------------------

  lemma Packing(m: Msg, x: Extras)
    requires Packable(m, x) && Canonical(m)
    ensures Value(ToBytes(m.timestamp, 6)) == m.timestamp && Value(ToBytes(m.ref, 8)) == m.ref
    ensures Value(ToBytes(m.shares, 4)) == m.shares && Value(ToBytes(m.price, 4)) == m.price
    ensures Value(ToBytes(m.newRef, 8)) == m.newRef
  {
    assert Pow256(4) == TWO32 by { assert Pow256(2) == TWO16; }
    assert Pow256(6) == TWO48 by { assert Pow256(4) == TWO32; }
    assert Pow256(8) == TWO64 by { assert Pow256(6) == TWO48; }
    ValueOfBytes(m.timestamp, 6);
    ValueOfBytes(m.ref, 8);
    ValueOfBytes(m.shares, 4);
    ValueOfBytes(m.price, 4);
    ValueOfBytes(m.newRef, 8);
  }

  /** A field that lies inside a known part of the message. */
  lemma FieldOfPart(raw: Bytes, a: Bytes, part: Bytes, c: Bytes)
    requires raw == a + part + c
    ensures Field(raw, |a|, |a| + |part|) == Value(part)
  {
    assert Slice(raw, |a|, |a| + |part|) == part;
  }

  lemma HeaderFields(m: Msg, x: Extras, body: Bytes)
    requires Packable(m, x) && Canonical(m)
    ensures
      var raw := Header(m, x) + body;
      raw[0] == Code(m.kind) && Field(raw, 5, 11) == m.timestamp && Field(raw, 11, 19) == m.ref
  {
    hide ToBytes, Value, FieldsPack, Canonical;
    var raw := Header(m, x) + body;
    var front := [Code(m.kind)] + ToBytes(x.locate, 2) + [0, 0];
    var ts, ref := ToBytes(m.timestamp, 6), ToBytes(m.ref, 8);
    Packing(m, x);
    assert raw == front + ts + (ref + body);
    FieldOfPart(raw, front, ts, ref + body);
    assert raw == (front + ts) + ref + body;
    FieldOfPart(raw, front + ts, ref, body);
  }

  lemma OrderFieldValues(m: Msg, x: Extras, tail: Bytes)
    requires Packable(m, x) && Canonical(m)
    ensures
      var raw := Header(m, x) + (OrderFields(m, x) + tail);
      raw[19] == SideByte(m.side) && Field(raw, 20, 24) == m.shares && Field(raw, 32, 36) == m.price
  {
    hide ToBytes, Value, FieldsPack, Canonical;
    var head, body := Header(m, x), OrderFields(m, x);
    var raw := head + (body + tail);
    var sh, sym, pr := ToBytes(m.shares, 4), Padded(x.symbol, 8), ToBytes(m.price, 4);
    Packing(m, x);
    var a := head + [SideByte(m.side)];
    assert raw == a + sh + (sym + pr + tail);
    FieldOfPart(raw, a, sh, sym + pr + tail);
    assert raw == (a + sh + sym) + pr + tail;
    FieldOfPart(raw, a + sh + sym, pr, tail);
  }

  lemma ReduceFieldValues(m: Msg, x: Extras, tail: Bytes)
    requires Packable(m, x) && Canonical(m)
    ensures Field(Header(m, x) + (ToBytes(m.shares, 4) + tail), 19, 23) == m.shares
  {
    hide ToBytes, Value, FieldsPack, Canonical;
    var raw := Header(m, x) + (ToBytes(m.shares, 4) + tail);
    Packing(m, x);
    assert raw == Header(m, x) + ToBytes(m.shares, 4) + tail;
    FieldOfPart(raw, Header(m, x), ToBytes(m.shares, 4), tail);
  }

  lemma ExecPriceValue(m: Msg, x: Extras)
    requires Packable(m, x) && Canonical(m) && m.kind.ExecPrice?
    ensures Field(Payload(m, x), 32, 36) == m.price && Field(Payload(m, x), 19, 23) == m.shares
  {
    hide ToBytes, Value, FieldsPack, Canonical;
    var mid := ToBytes(x.matchNo, 8) + [if x.printable then 1 else 0];
    var sh, pr := ToBytes(m.shares, 4), ToBytes(m.price, 4);
    Packing(m, x);
    assert Body(m, x) == sh + (mid + pr);
    ReduceFieldValues(m, x, mid + pr);
    assert Payload(m, x) == (Header(m, x) + sh + mid) + pr + [];
    FieldOfPart(Payload(m, x), Header(m, x) + sh + mid, pr, []);
  }

  lemma ReplaceValues(m: Msg, x: Extras)
    requires Packable(m, x) && Canonical(m) && m.kind.Replace?
    ensures
      var raw := Payload(m, x);
      Field(raw, 19, 27) == m.newRef && Field(raw, 27, 31) == m.shares && Field(raw, 31, 35) == m.price
  {
    hide ToBytes, Value, FieldsPack, Canonical;
    var raw, head := Payload(m, x), Header(m, x);
    var nr, sh, pr := ToBytes(m.newRef, 8), ToBytes(m.shares, 4), ToBytes(m.price, 4);
    Packing(m, x);
    assert raw == head + nr + (sh + pr);
    FieldOfPart(raw, head, nr, sh + pr);
    assert raw == (head + nr) + sh + pr;
    FieldOfPart(raw, head + nr, sh, pr);
    assert raw == (head + nr + sh) + pr + [];
    FieldOfPart(raw, head + nr + sh, pr, []);
  }

  /** Decoding an encoded message gives it back. */
  lemma MessageRoundTrip(m: Msg, x: Extras)
    requires Packable(m, x) && Canonical(m)
    ensures ParseMessage(Payload(m, x)) == Parsed(m)
  {
    var raw := Payload(m, x);
    HeaderFields(m, x, Body(m, x));
    match m.kind {
      case Add =>
        assert Body(m, x) == OrderFields(m, x) + [];
        OrderFieldValues(m, x, []);
      case AddMpid => OrderFieldValues(m, x, Padded(x.mpid, 4));
      case Trade => OrderFieldValues(m, x, ToBytes(x.matchNo, 8));
      case Cancel =>
        assert Body(m, x) == ToBytes(m.shares, 4) + [];
        ReduceFieldValues(m, x, []);
      case Execute => ReduceFieldValues(m, x, ToBytes(x.matchNo, 8));
      case ExecPrice => ExecPriceValue(m, x);
      case Replace => ReplaceValues(m, x);
      case Delete =>
    }
  }

  /** Encoded messages are ones the byte-serial parser can take. */
  lemma PayloadFits(m: Msg, x: Extras)
    ensures P.Fits(Payload(m, x))
  {
    assert Payload(m, x)[0] == Code(m.kind);
  }

  // ---- streams ------------------------------------------------------------------------------

  function Concat(frames: seq<Bytes>): Bytes {
    if frames == [] then [] else Frame(frames[0]) + Concat(frames[1..])
  }

  /** The messages of a list of payloads, first to last. */
  function ParseAll(frames: seq<Bytes>): Option<seq<Msg>> {
    if frames == [] then Some([])
    else Continue(ParseMessage(frames[0]), ParseAll(frames[1..]))
  }

  lemma LengthPrefix(payload: Bytes, rest: Bytes)
    requires |payload| < TWO16
    ensures
      var data := Frame(payload) + rest;
      && Value(data[..2]) == |payload| && |data| >= 2 + |payload|
      && data[2..2 + |payload|] == payload && data[2 + |payload|..] == rest
  {
    var data := Frame(payload) + rest;
    assert Pow256(2) == TWO16;
    ValueOfBytes(|payload|, 2);
    assert data[..2] == ToBytes(|payload|, 2);
  }

  /** The stream parser takes a concatenation of frames apart exactly where it was put together. */
  lemma {:induction false} StreamOfFrames(frames: seq<Bytes>)
    requires forall k | 0 <= k < |frames| :: |frames[k]| < TWO16
    ensures ParseStream(Concat(frames)) == ParseAll(frames)
  {
    if frames != [] {
      StreamOfFrames(frames[1..]);
      LengthPrefix(frames[0], Concat(frames[1..]));
    }
  }

  lemma {:induction false} GoldenFromFront(frames: seq<Bytes>)
    requires frames != []
    ensures
      var o := ParseMessage(frames[0]);
      P.Golden(frames) == (if o.Parsed? then [o.msg] else []) + P.Golden(frames[1..])
  {
    var n := |frames| - 1;
    if n == 0 {
      assert frames[..0] == [] && frames[1..] == [];
    } else {
      assert frames[..n][1..] == frames[1..][..n - 1];
      GoldenFromFront(frames[..n]);
    }
  }

  /** For messages the byte-serial parser can take, the framed stream parses to the same messages in
      the same order. */
  lemma FramedStreamIsGolden(frames: seq<Bytes>)
    requires forall k | 0 <= k < |frames| :: P.Fits(frames[k])
    ensures ParseStream(Concat(frames)) == Some(P.Golden(frames))
  {
    StreamOfFrames(frames);
    AllGolden(frames);
  }

  lemma {:induction false} AllGolden(frames: seq<Bytes>)
    requires forall k | 0 <= k < |frames| :: P.Fits(frames[k])
    ensures ParseAll(frames) == Some(P.Golden(frames))
  {
    if frames != [] {
      assert P.Fits(frames[0]);
      assert !ParseMessage(frames[0]).Raises?;
      GoldenFromFront(frames);
      AllGolden(frames[1..]);
      assert [] + P.Golden(frames[1..]) == P.Golden(frames[1..]);
    }
  }

  /** MAIN RESULT. parse_stream of any concatenation of encoded messages of all eight types returns
      exactly those messages, in order. */
  lemma StreamRoundTrip(msgs: seq<Msg>, xs: seq<Extras>)
    requires |xs| == |msgs| && forall k | 0 <= k < |msgs| :: Packable(msgs[k], xs[k]) && Canonical(msgs[k])
    ensures ParseStream(Concat(Payloads(msgs, xs))) == Some(msgs)
  {
    var frames := Payloads(msgs, xs);
    forall k | 0 <= k < |frames| ensures |frames[k]| < TWO16 {
      PayloadFits(msgs[k], xs[k]);
    }
    StreamOfFrames(frames);
    AllRoundTrip(msgs, xs);
  }

  function Payloads(msgs: seq<Msg>, xs: seq<Extras>): (r: seq<Bytes>)
    requires |xs| == |msgs|
    ensures |r| == |msgs|
  {
    seq(|msgs|, k requires 0 <= k < |msgs| => Payload(msgs[k], xs[k]))
  }

  lemma FirstParsed(frames: seq<Bytes>, m: Msg)
    requires frames != [] && ParseMessage(frames[0]) == Parsed(m)
    ensures ParseAll(frames) == Prepend([m], ParseAll(frames[1..]))
  {
  }

  lemma {:induction false} AllRoundTrip(msgs: seq<Msg>, xs: seq<Extras>)
    requires |xs| == |msgs| && forall k | 0 <= k < |msgs| :: Packable(msgs[k], xs[k]) && Canonical(msgs[k])
    ensures ParseAll(Payloads(msgs, xs)) == Some(msgs)
  {
    hide ParseMessage, Packable, Canonical, Payload;
    if msgs != [] {
      var frames, rest := Payloads(msgs, xs), Payloads(msgs[1..], xs[1..]);
      assert Packable(msgs[0], xs[0]);
      MessageRoundTrip(msgs[0], xs[0]);
      forall k | 0 <= k < |msgs[1..]| ensures Packable(msgs[1..][k], xs[1..][k]) && Canonical(msgs[1..][k]) {
        assert Packable(msgs[k + 1], xs[k + 1]);
      }
      AllRoundTrip(msgs[1..], xs[1..]);
      assert frames[1..] == rest;
      FirstParsed(frames, msgs[0]);
      assert [msgs[0]] + msgs[1..] == msgs;
    }
  }

  /** The generator object: a symbol, a locate code and a clock that ticks before every message. */
  class SynthITCH {
    const symbol: Bytes
    const locate: nat
    var ts: int

    constructor (symbol: Bytes, locate: nat)
      ensures this.symbol == symbol && this.locate == locate && ts == 34_200_000_000_000
    {
      this.symbol, this.locate, this.ts := symbol, locate, 34_200_000_000_000;
    }

    method Tick(delta: int) returns (b: Option<Bytes>)
      modifies this
      ensures ts == old(ts) + delta && (b.Some? <==> 0 <= ts < TWO48)
      ensures b.Some? ==> |b.value| == 6 && Value(b.value) == ts
    {
      ts := ts + delta;
      if ts < 0 || ts >= TWO48 {
        return None;
      }
      TimeWidth();
      ValueOfBytes(ts, 6);
      b := Some(ToBytes(ts, 6));
    }

    /** Any of the eight builders, selected by the kind of `m`; the time of `m` is not used. None when
        a field does not fit, as when struct.pack raises. */
    method Build(m: Msg, mpid: Bytes, matchNo: nat, printable: bool, delta: int) returns (frame: Option<Bytes>)
      modifies this
      ensures ts == old(ts) + delta
      ensures
        var x := Extras(locate, symbol, mpid, matchNo, printable);
        if ts >= 0 && Packable(m.(timestamp := ts), x) then frame == Some(Frame(Payload(m.(timestamp := ts), x)))
        else frame == None
    {
      var time := Tick(delta);
      var x := Extras(locate, symbol, mpid, matchNo, printable);
      if time.None? || !FieldsPack(m, x) {
        return None;
      }
      BytesOfValue(time.value);
      var hdr := [Code(m.kind)] + ToBytes(locate, 2) + [0, 0] + time.value;
      var body := Fields(m, x);
      assert hdr + ToBytes(m.ref, 8) == Header(m.(timestamp := ts), x) && Body(m, x) == Body(m.(timestamp := ts), x);
      assert hdr + body == (hdr + ToBytes(m.ref, 8)) + Body(m, x);
      frame := Some(Frame(hdr + body));
    }

    /** What follows the time: the reference, and the fields of the message's kind. */
    method Fields(m: Msg, x: Extras) returns (body: Bytes)
      ensures body == ToBytes(m.ref, 8) + Body(m, x)
    {
      body := ToBytes(m.ref, 8);
      match m.kind {
        case Add | AddMpid | Trade =>
          body := body + [SideByte(m.side)];
          body := body + ToBytes(m.shares, 4);
          body := body + Padded(x.symbol, 8);
          body := body + ToBytes(m.price, 4);
        case Cancel => body := body + ToBytes(m.shares, 4);
        case Delete =>
        case Execute => body := body + ToBytes(m.shares, 4) + ToBytes(x.matchNo, 8);
        case ExecPrice =>
          body := body + ToBytes(m.shares, 4) + ToBytes(x.matchNo, 8);
          body := body + [if x.printable then 1 else 0];
          body := body + ToBytes(m.price, 4);
        case Replace => body := body + ToBytes(m.newRef, 8) + ToBytes(m.shares, 4) + ToBytes(m.price, 4);
      }
      if m.kind.AddMpid? {
        body := body + Padded(x.mpid, 4);
      } else if m.kind.Trade? {
        body := body + ToBytes(x.matchNo, 8);
      }
      assert body == ToBytes(m.ref, 8) + Body(m, x);
    }
  }
}
