/** The golden ITCH parser: big-endian fields sliced out of one message, and the loop over a stream of
    length-prefixed messages. */
module Itch {
  import opened Bits
  import opened Messages

  type Bytes = seq<Byte>

  /** Big-endian value; the empty slice is 0. */
  function Value(s: Bytes): nat {
    if s == [] then 0 else Value(s[..|s| - 1]) * 0x100 + s[|s| - 1]
  }

  function Pow256(n: nat): (r: nat)
    ensures r >= 1
  {
    if n == 0 then 1 else 0x100 * Pow256(n - 1)
  }

  lemma {:induction false} ValueBound(s: Bytes)
    ensures Value(s) < Pow256(|s|)
  {
    if s != [] { ValueBound(s[..|s| - 1]); }
  }

  /** The value of four bytes. */
  function Value32(s: Bytes): (r: Word)
    requires |s| == 4
    ensures r == Value(s)
  {
    ValueBound(s);
    assert Pow256(4) == TWO32 by { assert Pow256(2) == TWO16; }
    Value(s)
  }

  /** The value of eight bytes. */
  function Value64(s: Bytes): (r: Quad)
    requires |s| == 8
    ensures r == Value(s)
  {
    ValueBound(s);
    assert Pow256(8) == TWO64 by { assert Pow256(4) == TWO32 by { assert Pow256(2) == TWO16; } }
    Value(s)
  }

  /** A slice that is cut off at the end of the message. */
  function Slice(raw: Bytes, lo: nat, hi: nat): Bytes
    requires lo <= hi
  {
    if |raw| <= lo then [] else if |raw| <= hi then raw[lo..] else raw[lo..hi]
  }

  function Field(raw: Bytes, lo: nat, hi: nat): nat
    requires lo <= hi
  {
    Value(Slice(raw, lo, hi))
  }

  const SELL: Byte := 0x53

  /** Raises stands for the IndexError on a message too short for its side byte. */
  datatype Outcome = Parsed(msg: Msg) | Skipped | Raises

  function ParseMessage(raw: Bytes): Outcome {
    if raw == [] then Skipped
    else
      var kind := KindOf(raw[0]);
      if kind.None? then Skipped
      else
        var ts, ref := Field(raw, 5, 11), Field(raw, 11, 19);
        match kind.value
        case Add | AddMpid | Trade =>
          if |raw| <= 19 then Raises
          else Parsed(Msg(kind.value, ts, ref, if raw[19] == SELL then Ask else Bid,
                          Field(raw, 20, 24), Field(raw, 32, 36), ref))
        case ExecPrice => Parsed(Msg(ExecPrice, ts, ref, Bid, Field(raw, 19, 23), Field(raw, 32, 36), ref))
        case Replace => Parsed(Msg(Replace, ts, ref, Bid, Field(raw, 27, 31), Field(raw, 31, 35), Field(raw, 19, 27)))
        case Delete => Parsed(Msg(Delete, ts, ref, Bid, 0, 0, ref))
        case Cancel | Execute => Parsed(Msg(kind.value, ts, ref, Bid, Field(raw, 19, 23), 0, ref))
  }

  /** None when some message raises; an incomplete last frame ends the stream quietly. */
  function ParseStream(data: Bytes): Option<seq<Msg>> {
    if |data| < 2 then Some([])
    else
      var length := Value(data[..2]);
      if 2 + length > |data| then Some([])
      else
        Continue(ParseMessage(data[2..2 + length]), ParseStream(data[2 + length..]))
  }

  /** What one message contributes in front of the rest of the stream. */
  function Continue(o: Outcome, rest: Option<seq<Msg>>): Option<seq<Msg>> {
    match o
    case Raises => None
    case Skipped => rest
    case Parsed(m) => Prepend([m], rest)
  }

  function Prepend(msgs: seq<Msg>, rest: Option<seq<Msg>>): Option<seq<Msg>> {
    if rest.None? then None else Some(msgs + rest.value)
  }

  lemma PrependAssociates(a: seq<Msg>, b: seq<Msg>, rest: Option<seq<Msg>>)
    ensures Prepend([], rest) == rest
    ensures Prepend(a, Some([])) == Some(a)
    ensures Prepend(a, Prepend(b, rest)) == Prepend(a + b, rest)
  {
    if rest.Some? {
      assert [] + rest.value == rest.value;
      assert a + (b + rest.value) == a + b + rest.value;
    }
    assert a + [] == a;
  }

  /** What the stream at an offset means in terms of the stream after its first message. */
  lemma StreamAt(data: Bytes, offset: nat)
    requires offset + 2 <= |data|
    ensures
      var length := Value(data[offset..offset + 2]);
      var next := offset + 2 + length;
      ParseStream(data[offset..]) ==
        if next > |data| then Some([]) else Continue(ParseMessage(data[offset + 2..next]), ParseStream(data[next..]))
  {
    var here, length := data[offset..], Value(data[offset..offset + 2]);
    assert here[..2] == data[offset..offset + 2];
    if 2 + length <= |here| {
      assert here[2..2 + length] == data[offset + 2..offset + 2 + length];
      assert here[2 + length..] == data[offset + 2 + length..];
    }
  }

  /** One turn of the stream loop: the next message and the offset behind it, or the end. */
  method TakeMessage(data: Bytes, offset: nat) returns (end: bool, next: nat, o: Outcome)
    requires offset + 2 <= |data|
    ensures end ==> ParseStream(data[offset..]) == Some([])
    ensures !end ==> offset < next <= |data| && ParseStream(data[offset..]) == Continue(o, ParseStream(data[next..]))
  {
    hide ParseMessage, ParseStream, Value;
    StreamAt(data, offset);
    var length := Value(data[offset..offset + 2]);
    end, next, o := true, offset, Skipped;
    if offset + 2 + length <= |data| {
      end, next := false, offset + 2 + length;
      o := ParseMessage(data[offset + 2..next]);
    }
  }

  /** The stream loop with its running offset. */
  method ParseStreamLoop(data: Bytes) returns (r: Option<seq<Msg>>)
    ensures r == ParseStream(data)
  {
    var results: seq<Msg> := [];
    var offset := 0;
    assert data[0..] == data;
    PrependAssociates([], [], ParseStream(data));
    while offset + 2 <= |data|
      invariant offset <= |data|
      invariant ParseStream(data) == Prepend(results, ParseStream(data[offset..]))
      decreases |data| - offset
    {
      var end, next, o := TakeMessage(data, offset);
      if end {
        break;
      }
      offset := next;
      if o.Raises? {
        return None;
      }
      if o.Parsed? {
        PrependAssociates(results, [o.msg], ParseStream(data[offset..]));
        results := results + [o.msg];
      }
    }
    PrependAssociates(results, [], None);
    r := Some(results);
  }
}
