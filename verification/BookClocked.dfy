/** The clocked order book as the register-transfer object it is: a block memory, flip-flops for the
    level caches and the FSM, and one method per clock edge, proved against BookRtl.Next. */
module BookClocked {
  import opened Bits
  import opened Messages
  import opened Depth
  import B = Book
  import opened BookRtl

  /** A packed level cache: fixed lanes and a count of the populated ones. */
  datatype BookSide = BookSide(price: seq<Word>, size: seq<Word>, cnt: nat) {
    ghost predicate Valid(n: nat) { |price| == n && |size| == n && cnt <= n }

    function Levels(): (r: seq<Level>)
      requires cnt <= |price| && cnt <= |size|
      ensures |r| == cnt
    {
      seq(cnt, i requires 0 <= i < cnt => Level(price[i], size[i]))
    }
  }

  function EmptySide(n: nat): BookSide {
    BookSide(seq(n, _ => 0), seq(n, _ => 0), 0)
  }

  method SideInsert(cur: BookSide, n: nat, p: Word, s: Word, side: Side) returns (r: BookSide)
    requires cur.Valid(n)
    ensures r.Valid(n) && r.Levels() == InsertWrapped(cur.Levels(), n, side, p, s)
  {
    r := cur;
    var levels := cur.Levels();
    var matched := false;
    for i := 0 to n
      invariant !matched ==> r == cur && forall j | 0 <= j < i && j < cur.cnt :: levels[j].price != p
      invariant matched ==> r.Valid(n) && r.Levels() == InsertWrapped(levels, n, side, p, s)
    {
      if i < cur.cnt && !matched && cur.price[i] == p {
        assert levels[i].price == p && B.FindPrice(levels, p) == i;
        r := r.(size := r.size[i := Low32(cur.size[i] + s)]);
        matched := true;
        assert r.Levels() == Wrap(levels[i := Level(p, levels[i].size + s)]);
      }
    }
    if !matched {
      assert B.FindPrice(levels, p) == cur.cnt;
      r := InsertNew(cur, n, p, s, side);
    }
  }

  /** A price the lanes do not hold yet. */
  method InsertNew(cur: BookSide, n: nat, p: Word, s: Word, side: Side) returns (r: BookSide)
    requires cur.Valid(n) && B.FindPrice(cur.Levels(), p) == cur.cnt
    ensures r.Valid(n) && r.Levels() == InsertWrapped(cur.Levels(), n, side, p, s)
  {
    r := cur;
    var levels := cur.Levels();
    var found, ins := false, cur.cnt;
    for i := 0 to n
      invariant !found ==> ins == cur.cnt && forall j | 0 <= j < i && j < cur.cnt :: !Better(side, p, levels[j].price)
      invariant found ==> ins == B.InsertionPoint(levels, side, p)
    {
      if !found && i < cur.cnt && Better(side, p, cur.price[i]) {
        assert Better(side, p, levels[i].price);
        ins, found := i, true;
      }
    }
    assert ins == B.InsertionPoint(levels, side, p);
    if ins < n {
      r := PlaceAt(cur, n, ins, p, s);
    } else {
      assert Wrap(levels) == levels;
    }
  }

  /** Write the new level where lanes `ins`.. have made room. */
  method PlaceAt(cur: BookSide, n: nat, ins: nat, p: Word, s: Word) returns (r: BookSide)
    requires cur.Valid(n) && ins <= cur.cnt && ins < n
    ensures r.Valid(n) && r.Levels() == Wrap(B.Take(B.Splice(cur.Levels(), ins, Level(p, s)), n))
  {
    hide B.Splice, B.Take;
    var levels := cur.Levels();
    var price, size := OpenGap(cur.price, cur.size, ins);
    r := BookSide(price[ins := p], size[ins := s], if cur.cnt < n then cur.cnt + 1 else cur.cnt);
    B.Spliced(levels, ins, Level(p, s), n, r.Levels());
    assert forall j | 0 <= j < r.cnt :: r.Levels()[j] == WrapLevel(r.Levels()[j]);
  }

  /** Shift lanes `ins`.. one place down; the last one falls off. */
  method OpenGap(prices: seq<Word>, sizes: seq<Word>, ins: nat) returns (price: seq<Word>, size: seq<Word>)
    requires ins < |prices| == |sizes|
    ensures |price| == |size| == |prices|
    ensures forall j | 0 <= j < ins :: price[j] == prices[j] && size[j] == sizes[j]
    ensures forall j | ins < j < |prices| :: price[j] == prices[j - 1] && size[j] == sizes[j - 1]
  {
    price, size := prices, sizes;
    var i := |prices| - 1;
    while i > ins
      invariant ins <= i < |prices| == |price| == |size|
      invariant forall j | 0 <= j <= i :: price[j] == prices[j] && size[j] == sizes[j]
      invariant forall j | i < j < |prices| :: price[j] == prices[j - 1] && size[j] == sizes[j - 1]
    {
      price := price[i := price[i - 1]];
      size := size[i := size[i - 1]];
      i := i - 1;
    }
  }

  /** Every field of the word fits its width. */
  predicate FieldsFit(e: Entry) { e.price < TWO32 && e.shares < TWO32 && e.ref < TWO64 }

  class OrderBookRtl {
    const n: nat
    const entries: array<Entry>
    var entryValid: seq<bool>
    var rdData: Entry
    var phase: Phase
    var bidLv: BookSide
    var askLv: BookSide
    var scanBidLv: BookSide
    var scanAskLv: BookSide
    var scanAddr: nat
    var procIdx: nat
    var procEn: bool
    var mCode: Byte
    var mRef: Quad
    var mNewRef: Quad
    var mShares: Word
    var mPrice: Word
    var mIdx: nat
    var mNewIdx: nat

    ghost predicate Valid()
      reads this
    {
      && n > 0 && entries.Length >= 2 && |entryValid| == entries.Length
      && bidLv.Valid(n) && askLv.Valid(n) && scanBidLv.Valid(n) && scanAskLv.Valid(n)
      && procIdx < entries.Length && mIdx < entries.Length && mNewIdx < entries.Length
      && FieldsFit(rdData)
    }

    /** Every word of the memory fits its fields. */
    ghost predicate InRange()
      reads this, entries
    {
      forall i | 0 <= i < entries.Length :: FieldsFit(entries[i])
    }

    ghost function State(): (s: Regs)
      requires Valid()
      reads this, entries
      ensures WellFormed(s)
    {
      Regs(phase, bidLv.Levels(), askLv.Levels(), scanBidLv.Levels(), scanAskLv.Levels(),
           scanAddr, procIdx, procEn, entryValid, entries[..], rdData,
           mCode, mRef, mNewRef, mShares, mPrice, mIdx, mNewIdx)
    }

    /** Reset clears the control registers and the level caches; the memory and its read register keep
        whatever they held. */
    constructor (mem: array<Entry>, rd: Entry, nlevels: nat)
      requires mem.Length >= 2 && nlevels > 0 && FieldsFit(rd)
      requires forall i | 0 <= i < mem.Length :: FieldsFit(mem[i])
      ensures Valid() && InRange() && IsReset(State()) && n == nlevels && entries == mem && rdData == rd
    {
      n := nlevels;
      entries := mem;
      entryValid := seq(mem.Length, _ => false);
      rdData := rd;
      phase := Idle;
      bidLv, askLv := EmptySide(nlevels), EmptySide(nlevels);
      scanBidLv, scanAskLv := EmptySide(nlevels), EmptySide(nlevels);
      scanAddr, procIdx, procEn := 0, 0, false;
      mCode, mRef, mNewRef, mShares, mPrice, mIdx, mNewIdx := 0, 0, 0, 0, 0, 0, 0;
    }

    /** The output muxes: the snapshot, and the price column of each side. */
    method Outputs() returns (s: B.Snapshot, bidPrices: seq<nat>, askPrices: seq<nat>)
      requires Valid()
      ensures s == B.View(State().bid, State().ask, n)
      ensures bidPrices == B.Prices(State().bid, n, 0) && askPrices == B.Prices(State().ask, n, B.NO_ASK)
    {
      var bidSizes, askSizes;
      bidPrices, bidSizes := LevelOutputs(bidLv, 0);
      askPrices, askSizes := LevelOutputs(askLv, B.NO_ASK);
      s := B.Snapshot(
        if bidLv.cnt != 0 then bidLv.price[0] else 0, if bidLv.cnt != 0 then bidLv.size[0] else 0,
        if askLv.cnt != 0 then askLv.price[0] else B.NO_ASK, if askLv.cnt != 0 then askLv.size[0] else 0,
        bidLv.cnt != 0 && askLv.cnt != 0, bidSizes, askSizes);
    }

    /** The lanes of one side; unpopulated ones show a filler price and no size. */
    method LevelOutputs(lv: BookSide, filler: nat) returns (prices: seq<nat>, sizes: seq<nat>)
      requires lv.Valid(n)
      ensures prices == B.Prices(lv.Levels(), n, filler) && sizes == B.Sizes(lv.Levels(), n)
    {
      prices, sizes := [], [];
      for i := 0 to n
        invariant |prices| == |sizes| == i
        invariant forall j | 0 <= j < i :: prices[j] == B.Prices(lv.Levels(), n, filler)[j]
        invariant forall j | 0 <= j < i :: sizes[j] == B.Sizes(lv.Levels(), n)[j]
      {
        prices := prices + [if i < lv.cnt then lv.price[i] else filler];
        sizes := sizes + [if i < lv.cnt then lv.size[i] else 0];
      }
    }

    /** One clock edge. */
    method Clock(i: Port)
      requires Valid() && InRange()
      modifies this, entries
      ensures Valid() && InRange() && State() == Next(old(State()), n, i)
    {
      match phase {
        case Idle => ClockIdle(i);
        case Lookup => ClockLookup();
        case Rescan => ClockRescan();
      }
    }

    method ClockIdle(i: Port)
      requires Valid() && InRange() && phase.Idle?
      modifies this, entries
      ensures Valid() && InRange() && State() == NextIdle(old(State()), n, i)
    {
      Read(i.ref % entries.Length);
      if i.valid {
        Latch(i);
        if i.code == 0x41 || i.code == 0x46 {
          Write(mIdx, Entry(i.ref, i.side, i.price, i.shares));
          entryValid := entryValid[mIdx := true];
          InsertDisplayed(i.side, i.price, i.shares);
        } else if IsEditCode(i.code) {
          phase := Lookup;
        }
      }
    }

    /** The registered read port of the memory. */
    method Read(k: nat)
      requires Valid() && InRange() && k < entries.Length
      modifies `rdData
      ensures Valid() && State() == old(State()).(rd := old(State()).mem[k])
    {
      rdData := entries[k];
    }

    /** Latch an offered message for the multi-cycle path. */
    method Latch(i: Port)
      requires Valid()
      modifies `mCode, `mRef, `mNewRef, `mShares, `mPrice, `mIdx, `mNewIdx
      ensures Valid()
      ensures State() == old(State()).(
        mCode := i.code, mRef := i.ref, mNewRef := i.newRef, mShares := i.shares, mPrice := i.price,
        mIdx := i.ref % entries.Length, mNewIdx := i.newRef % entries.Length)
    {
      hide BookSide.Levels, BookSide.Valid, FieldsFit, WellFormed;
      mCode, mRef, mNewRef, mShares, mPrice := i.code, i.ref, i.newRef, i.shares, i.price;
      mIdx, mNewIdx := i.ref % entries.Length, i.newRef % entries.Length;
    }

    /** The write port of the memory. */
    method Write(k: nat, e: Entry)
      requires Valid() && InRange() && k < entries.Length
      requires e.price < TWO32 && e.shares < TWO32 && e.ref < TWO64
      modifies entries
      ensures InRange() && State() == old(State()).(mem := old(State()).mem[k := e])
    {
      entries[k] := e;
    }

    /** Insert into the displayed cache of one side. */
    method InsertDisplayed(side: Side, p: Word, s: Word)
      requires Valid()
      modifies `bidLv, `askLv
      ensures Valid()
      ensures State() ==
        if side.Bid? then old(State()).(bid := InsertWrapped(old(State()).bid, n, Bid, p, s))
        else old(State()).(ask := InsertWrapped(old(State()).ask, n, Ask, p, s))
    {
      if side.Bid? {
        bidLv := SideInsert(bidLv, n, p, s, Bid);
      } else {
        askLv := SideInsert(askLv, n, p, s, Ask);
      }
    }

    /** Fold the entry just read into the scan caches. */
    method FoldScan(take: bool)
      requires Valid()
      modifies `scanBidLv, `scanAskLv
      ensures Valid()
      ensures State() == old(State()).(
        scanBid := Folded(old(State()).scanBid, n, Bid, take, rdData),
        scanAsk := Folded(old(State()).scanAsk, n, Ask, take, rdData))
    {
      if take {
        if rdData.side.Bid? {
          scanBidLv := SideInsert(scanBidLv, n, rdData.price, rdData.shares, Bid);
        } else {
          scanAskLv := SideInsert(scanAskLv, n, rdData.price, rdData.shares, Ask);
        }
      }
    }

    /** Would the order just read change a displayed level? */
    method AffectsDisplayed() returns (r: bool)
      requires Valid()
      ensures r == BookRtl.Displayed(State(), n)
    {
      var lv := if rdData.side.Ask? then askLv else bidLv;
      var worst := lv.price[if lv.cnt != 0 then lv.cnt - 1 else 0];
      r := lv.cnt != n || (if rdData.side.Ask? then rdData.price <= worst else rdData.price >= worst);
      assert lv.cnt != 0 ==> lv.Levels()[lv.cnt - 1].price == worst;
    }

    method ClockLookup()
      requires Valid() && InRange() && phase.Lookup?
      modifies this, entries
      ensures Valid() && InRange() && State() == NextLookup(old(State()), n)
    {
      var read := entries[mIdx];
      var affects := AffectsDisplayed();
      if entryValid[mIdx] && rdData.ref == mRef {
        ApplyEdit();
        if mCode == 0x55 || affects {
          StartRescan();
        } else {
          phase := Idle;
        }
      } else {
        phase := Idle;
      }
      rdData := read;
    }

    method StartRescan()
      requires Valid()
      modifies `phase, `scanAddr, `procEn, `scanBidLv, `scanAskLv
      ensures Valid()
      ensures State() == old(State()).(phase := Rescan, scanAddr := 0, procEn := false, scanBid := [], scanAsk := [])
    {
      phase, scanAddr, procEn := Rescan, 0, false;
      scanBidLv, scanAskLv := EmptySide(n), EmptySide(n);
    }

    /** The structural change of a matching LOOKUP. */
    method ApplyEdit()
      requires Valid() && InRange()
      modifies `entryValid, entries
      ensures Valid() && InRange() && State() == EditState(old(State()))
    {
      if IsReduceCode(mCode) {
        if rdData.shares > mShares {
          Write(mIdx, rdData.(shares := rdData.shares - mShares));
        } else {
          entryValid := entryValid[mIdx := false];
        }
      } else if mCode == 0x44 {
        entryValid := entryValid[mIdx := false];
      } else if mCode == 0x55 {
        Write(mNewIdx, Entry(mNewRef, rdData.side, mPrice, mShares));
        entryValid := entryValid[mIdx := false][mNewIdx := true];
      }
    }

    method ClockRescan()
      requires Valid() && InRange() && phase.Rescan?
      modifies this
      ensures Valid() && InRange() && State() == NextRescan(old(State()), n)
    {
      var bidNow, askNow := scanBidLv, scanAskLv;
      var d := entries.Length;
      FoldScan(procEn && entryValid[procIdx]);
      Read(scanAddr % d);
      if scanAddr <= d {
        NextAddress();
      } else {
        Commit(bidNow, askNow);
      }
    }

    method NextAddress()
      requires Valid()
      modifies `procIdx, `procEn, `scanAddr
      ensures Valid()
      ensures
        var s, d := old(State()), entries.Length;
        State() == s.(procIdx := s.scanAddr % d, procEn := s.scanAddr < d, scanAddr := (s.scanAddr + 1) % (2 * d))
    {
      var d := entries.Length;
      procIdx, procEn, scanAddr := scanAddr % d, scanAddr < d, (scanAddr + 1) % (2 * d);
    }

    /** Publish the rebuilt caches. */
    method Commit(bidNow: BookSide, askNow: BookSide)
      requires Valid() && bidNow.Valid(n) && askNow.Valid(n)
      modifies `bidLv, `askLv, `procEn, `phase
      ensures Valid()
      ensures State() == old(State()).(bid := bidNow.Levels(), ask := askNow.Levels(), procEn := false, phase := Idle)
    {
      bidLv, askLv, procEn, phase := bidNow, askNow, false, Idle;
    }
  }
}
