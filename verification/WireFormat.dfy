/** The eight messages byte by byte, with the offsets and codes of NASDAQ TotalView-ITCH 5.0 written out: what the
    golden parser reads where. */
module WireFormat {
  import opened Bits
  import opened Messages
  import opened Itch
  import S = Synth

  /** Four, six and eight bytes from `k` on, most significant first. */
  function Four(raw: Bytes, k: nat): nat
    requires k + 4 <= |raw|
  {
    var a: nat, b: nat, c: nat := raw[k], raw[k + 1], raw[k + 2];
    a * 0x100_0000 + b * 0x1_0000 + c * 0x100 + raw[k + 3]
  }

  function Six(raw: Bytes, k: nat): nat
    requires k + 6 <= |raw|
  {
    var a: nat := raw[k];
    (a * 0x100 + raw[k + 1]) * 0x1_0000_0000 + Four(raw, k + 2)
  }

  function Eight(raw: Bytes, k: nat): nat
    requires k + 8 <= |raw|
  {
    Four(raw, k) * 0x1_0000_0000 + Four(raw, k + 4)
  }

  lemma Snoc(s: Bytes, b: Byte)
    ensures Value(s + [b]) == Value(s) * 0x100 + b
  {
    assert (s + [b])[..|s|] == s;
  }

  lemma SliceSnoc(raw: Bytes, lo: nat, hi: nat)
    requires lo <= hi < |raw|
    ensures Value(raw[lo..hi + 1]) == Value(raw[lo..hi]) * 0x100 + raw[hi]
  {
    assert raw[lo..hi + 1] == raw[lo..hi] + [raw[hi]];
    Snoc(raw[lo..hi], raw[hi]);
  }

  lemma NoBytes(raw: Bytes, k: nat)
    requires k <= |raw|
    ensures Value(raw[k..k]) == 0
  {
  }

  lemma FourMore(raw: Bytes, lo: nat, k: nat)
    requires lo <= k && k + 4 <= |raw|
    ensures Value(raw[lo..k + 4]) == Value(raw[lo..k]) * 0x1_0000_0000 + Four(raw, k)
  {
    hide Value;
    SliceSnoc(raw, lo, k);
    SliceSnoc(raw, lo, k + 1);
    SliceSnoc(raw, lo, k + 2);
    SliceSnoc(raw, lo, k + 3);
  }

  lemma FieldSlice(raw: Bytes, lo: nat, hi: nat)
    requires lo <= hi <= |raw|
    ensures Field(raw, lo, hi) == Value(raw[lo..hi])
  {
    assert Slice(raw, lo, hi) == raw[lo..hi];
  }

  lemma FieldIs(raw: Bytes, k: nat)
    ensures k + 4 <= |raw| ==> Field(raw, k, k + 4) == Four(raw, k)
    ensures k + 6 <= |raw| ==> Field(raw, k, k + 6) == Six(raw, k)
    ensures k + 8 <= |raw| ==> Field(raw, k, k + 8) == Eight(raw, k)
  {
    hide Value, Four, Slice;
    if k <= |raw| { NoBytes(raw, k); }
    if k + 4 <= |raw| {
      FieldSlice(raw, k, k + 4);
      FourMore(raw, k, k);
    }
    if k + 6 <= |raw| {
      FieldSlice(raw, k, k + 6);
      SliceSnoc(raw, k, k);
      SliceSnoc(raw, k, k + 1);
      FourMore(raw, k, k + 2);
    }
    if k + 8 <= |raw| {
      FieldSlice(raw, k, k + 8);
      FourMore(raw, k, k + 4);
    }
  }

  /** MAIN RESULT. What the parser makes of a message of full length, by its first byte: 'A', 'F' and 'P' with their
      side ('S' sells), 'C', 'U', 'X', 'E' and 'D'; nothing of any other. */
  lemma ParsesAs(raw: Bytes)
    requires |raw| >= 36
    ensures
      var ts, ref, o := Six(raw, 5), Eight(raw, 11), ParseMessage(raw);
      && (raw[0] in {0x41, 0x46, 0x50} ==>
            var side := if raw[19] == 0x53 then Ask else Bid;
            o == Parsed(Msg(if raw[0] == 0x41 then Add else if raw[0] == 0x46 then AddMpid else Trade,
                            ts, ref, side, Four(raw, 20), Four(raw, 32), ref)))
      && (raw[0] == 0x43 ==> o == Parsed(Msg(ExecPrice, ts, ref, Bid, Four(raw, 19), Four(raw, 32), ref)))
      && (raw[0] == 0x55 ==> o == Parsed(Msg(Replace, ts, ref, Bid, Four(raw, 27), Four(raw, 31), Eight(raw, 19))))
      && (raw[0] == 0x58 ==> o == Parsed(Msg(Cancel, ts, ref, Bid, Four(raw, 19), 0, ref)))
      && (raw[0] == 0x45 ==> o == Parsed(Msg(Execute, ts, ref, Bid, Four(raw, 19), 0, ref)))
      && (raw[0] == 0x44 ==> o == Parsed(Msg(Delete, ts, ref, Bid, 0, 0, ref)))
      && (raw[0] !in {0x41, 0x43, 0x44, 0x45, 0x46, 0x50, 0x55, 0x58} ==> o == Skipped)
  {
    hide Field, Four, Six, Eight;
    FieldIs(raw, 5);
    FieldIs(raw, 11);
    FieldIs(raw, 19);
    FieldIs(raw, 20);
    FieldIs(raw, 27);
    FieldIs(raw, 31);
    FieldIs(raw, 32);
  }

  /** The same of the shorter messages, at their own length. */
  lemma ParsesShort(raw: Bytes)
    requires |raw| >= 19
    ensures
      var ts, ref, o := Six(raw, 5), Eight(raw, 11), ParseMessage(raw);
      && (raw[0] == 0x44 ==> o == Parsed(Msg(Delete, ts, ref, Bid, 0, 0, ref)))
      && (raw[0] == 0x58 && |raw| >= 23 ==> o == Parsed(Msg(Cancel, ts, ref, Bid, Four(raw, 19), 0, ref)))
      && (raw[0] == 0x45 && |raw| >= 23 ==> o == Parsed(Msg(Execute, ts, ref, Bid, Four(raw, 19), 0, ref)))
      && (raw[0] == 0x55 && |raw| >= 35 ==>
            o == Parsed(Msg(Replace, ts, ref, Bid, Four(raw, 27), Four(raw, 31), Eight(raw, 19))))
  {
    hide Field, Four, Six, Eight;
    FieldIs(raw, 5);
    FieldIs(raw, 11);
    FieldIs(raw, 19);
    FieldIs(raw, 27);
    FieldIs(raw, 31);
  }

  /** The encoder writes 'B' for a bid and 'S' for an ask, and the kind's own letter in front. */
  lemma EncodesSide(m: Msg, x: S.Extras)
    requires S.Packable(m, x) && (m.kind.Add? || m.kind.AddMpid? || m.kind.Trade?)
    ensures
      var raw := S.Payload(m, x);
      && |raw| >= 36 && raw[19] == (if m.side.Bid? then 0x42 else 0x53)
      && raw[0] == if m.kind.Add? then 0x41 else if m.kind.AddMpid? then 0x46 else 0x50
  {
  }
}
