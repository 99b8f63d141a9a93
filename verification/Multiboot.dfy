/** The walk over the Multiboot2 tag list that records the memory map. */
module Multiboot {
  import opened Basics
  import opened MemoryMap

  const TAG_END := 0
  const TAG_MMAP := 6

  /** A memory map entry as the boot loader wrote it. */
  datatype Region = Region(base: u64, length: u64, typ: u32)

  function U32At(m: seq<u8>, off: nat): u32
    requires off + 4 <= |m|
  {
    Little(m[off], m[off + 1], m[off + 2], m[off + 3])
  }

  function Little(a: int, b: int, c: int, d: int): int { a + 256 * b + 0x1_0000 * c + 0x100_0000 * d }

  function U64At(m: seq<u8>, off: nat): u64
    requires off + 8 <= |m|
  {
    U32At(m, off) + TWO32 * U32At(m, off + 4)
  }

  function AlignUp8(p: nat): nat { (p + 7) / 8 * 8 }

  /** What the recorded entry stands for. */
  function Decoded(e: Entry): Region { Region(Base(e), Size(e), e.typ) }

  function DecodedAll(es: seq<Entry>): (rs: seq<Region>)
    ensures |rs| == |es|
    ensures forall i :: 0 <= i < |rs| ==> rs[i] == Decoded(es[i])
  {
    seq(|es|, i requires 0 <= i < |es| => Decoded(es[i]))
  }

  // ----- what is there to record

  function RegionAt(m: seq<u8>, off: nat): Region
    requires off + 24 <= |m|
  {
    Region(U64At(m, off), U64At(m, off + 8), U32At(m, off + 16))
  }

  /** Whole entries of `size` bytes between two offsets. */
  function RegionsIn(m: seq<u8>, off: nat, stop: nat, size: nat): seq<Region>
    requires size >= 24 && stop <= |m|
    decreases stop - off
  {
    if off + size <= stop then [RegionAt(m, off)] + RegionsIn(m, off + size, stop, size) else []
  }

  /** A tag the walk goes past: not the end tag, and wholly inside the block. */
  predicate GoodTag(m: seq<u8>, off: nat, end: nat)
    requires end <= |m|
  {
    off + 8 <= end && U32At(m, off) != TAG_END && U32At(m, off + 4) >= 8 && off + U32At(m, off + 4) <= end
  }

  function RegionsOfTag(m: seq<u8>, off: nat, end: nat): seq<Region>
    requires end <= |m| && GoodTag(m, off, end)
  {
    var size := U32At(m, off + 4);
    if U32At(m, off) == TAG_MMAP && size >= 16 && U32At(m, off + 8) >= 24
    then RegionsIn(m, off + 16, off + size, U32At(m, off + 8))
    else []
  }

  /** Offset of the tag after the one at `off`; tags start at addresses divisible by 8. */
  function NextTag(info: nat, m: seq<u8>, off: nat): (next: nat)
    requires off + 8 <= |m| && U32At(m, off + 4) >= 8
    ensures next >= off + 8
  {
    AlignUp8(info + off + U32At(m, off + 4)) - info
  }

  /** All entries of the well-sized memory map tags before the walk stops. */
  function Regions(info: nat, m: seq<u8>, off: nat, end: nat): seq<Region>
    requires end <= |m|
    decreases end - off
  {
    if !GoodTag(m, off, end) then []
    else RegionsOfTag(m, off, end) + Regions(info, m, NextTag(info, m, off), end)
  }

  function FirstOf(rs: seq<Region>, n: nat): seq<Region>
  {
    if |rs| <= n then rs else rs[..n]
  }

  /** The declared size of the block. */
  function TotalSize(m: seq<u8>): u32
    requires |m| >= 4
  {
    U32At(m, 0)
  }

  // ----- the walk the code makes, in 64-bit arithmetic

  /** The offset of the tag visited after the one at `off`, if the walk goes on. */
  function NextVisited(info: nat, m: seq<u8>, off: nat): (next: Option<nat>)
    requires off + 8 <= |m|
    ensures next.Some? ==> off + 8 <= next.value && next.value + 8 <= |m|
  {
    if !GoodTag(m, off, |m|) then None else
    var next := NextTag(info, m, off);
    if next + 8 <= |m| then Some(next) else None
  }

  /** The offset of the `k`-th tag visited in a block of at least 16 bytes. */
  function Visited(info: nat, m: seq<u8>, k: nat): (off: Option<nat>)
    requires |m| >= 16
    ensures off.Some? ==> off.value + 8 <= |m|
  {
    if k == 0 then Some(8) else
    match Visited(info, m, k - 1)
    case None => None
    case Some(off) => NextVisited(info, m, off)
  }

  /** What is found at an address: a byte of the block, or whatever lies outside it. */
  function ByteAt(info: u64, m: seq<u8>, outside: u64 -> u8, a: u64): u8
  {
    if info <= a < info + |m| then m[a - info] else outside(a)
  }

  function Read32(info: u64, m: seq<u8>, outside: u64 -> u8, a: u64): u32
  {
    Little(ByteAt(info, m, outside, a), ByteAt(info, m, outside, Wrap(a + 1)),
           ByteAt(info, m, outside, Wrap(a + 2)), ByteAt(info, m, outside, Wrap(a + 3)))
  }

  /** One turn of the code's loop, at any address. */
  function CodeNext(info: u64, m: seq<u8>, outside: u64 -> u8, p: u64): (next: Option<nat>)
    requires info + |m| < TWO64
    ensures next.Some? ==> next.value < TWO64
  {
    var size := Read32(info, m, outside, Wrap(p + 4));
    if Read32(info, m, outside, p) == TAG_END || size < 8 || Wrap(p + size) > info + |m| then None else
    var q := Wrap(Wrap(p + size) + 7) / 8 * 8;
    if Wrap(q + 8) <= info + |m| then Some(q) else None
  }

  /** The address of the `k`-th tag the code reads. */
  function CodeVisited(info: u64, m: seq<u8>, outside: u64 -> u8, k: nat): (p: Option<nat>)
    requires 16 <= |m| && info + |m| < TWO64
    ensures p.Some? ==> p.value < TWO64
  {
    if k == 0 then Some(info + 8) else
    match CodeVisited(info, m, outside, k - 1)
    case None => None
    case Some(p) => CodeNext(info, m, outside, p)
  }

  function Address(info: nat, off: Option<nat>): Option<nat>
  {
    match off
    case None => None
    case Some(o) => Some(info + o)
  }

  /** No sum the code forms at this tag leaves 64 bits. */
  predicate TagFits(info: nat, m: seq<u8>, off: nat)
    requires off + 8 <= |m|
  {
    var size := U32At(m, off + 4);
    U32At(m, off) != TAG_END && size >= 8 ==>
      info + off + size < TWO64 && (off + size <= |m| ==> AlignUp8(info + off + size) + 8 < TWO64)
  }

  /** A sum formed in 64 bits passes a test for the end of the block exactly when the true sum does or
      leaves 64 bits. */
  lemma SumPasses(x: nat, y: nat, end: nat)
    requires x < TWO64 && end < TWO64 && x + y < TWO64 + end
    ensures Wrap(x + y) <= end <==> x + y <= end || x + y >= TWO64
  {
    if x + y >= TWO64 { WrapOnce(x + y); } else { WrapNone(x + y); }
  }

  lemma WrapOnce(x: nat)
    requires TWO64 <= x < 2 * TWO64
    ensures Wrap(x) == x - TWO64
  {}

  lemma ReadInside(info: u64, m: seq<u8>, outside: u64 -> u8, off: nat)
    requires info + |m| < TWO64 && off + 4 <= |m|
    ensures Read32(info, m, outside, info + off) == U32At(m, off)
  {
    WrapNone(info + off + 1);
    WrapNone(info + off + 2);
    WrapNone(info + off + 3);
  }

  lemma Aligned8(x: nat)
    ensures x <= AlignUp8(x) < x + 8 && AlignUp8(x) % 8 == 0
  {}

  /** After a tag inside the block, the code goes on as it should exactly when no sum there leaves 64 bits. */
  lemma StepAgrees(info: u64, m: seq<u8>, outside: u64 -> u8, off: nat)
    requires 16 <= |m| < TWO32 && 0 < info && info + |m| < TWO64 && off + 8 <= |m|
    ensures CodeNext(info, m, outside, info + off) == Address(info, NextVisited(info, m, off)) <==> TagFits(info, m, off)
  {
    hide U32At, Read32, Wrap, AlignUp8;
    var size, end, p := U32At(m, off + 4), info + |m|, info + off;
    ReadInside(info, m, outside, off);
    ReadInside(info, m, outside, off + 4);
    WrapNone(p + 4);
    if U32At(m, off) != TAG_END && size >= 8 {
      SumPasses(p, size, end);
      if p + size >= TWO64 {
        TagWraps(info, off, size, |m|);
      } else {
        WrapNone(p + size);
        if p + size <= end { AlignmentAgrees(p + size, end); }
      }
    }
  }

  /** A tag whose end leaves 64 bits sends the walk below the block. */
  lemma TagWraps(info: nat, off: nat, size: nat, n: nat)
    requires 0 < info && off + 8 <= n < TWO32 && size < TWO32 && info + n < TWO64 <= info + off + size
    ensures var q := Wrap(Wrap(info + off + size) + 7) / 8 * 8;
            Wrap(q + 8) <= info + n && q + 8 < info
  {
    hide Wrap;
    var e := info + off + size - TWO64;
    WrapOnce(info + off + size);
    WrapNone(e + 7);
    WrapNone((e + 7) / 8 * 8 + 8);
  }

  /** Rounding up to the next tag agrees with 64-bit arithmetic exactly when it stays inside it. */
  lemma AlignmentAgrees(e: nat, end: nat)
    requires 8 <= e <= end < TWO64
    ensures var q := Wrap(e + 7) / 8 * 8;
            if AlignUp8(e) + 8 < TWO64 then q == AlignUp8(e) && Wrap(q + 8) == q + 8
            else Wrap(q + 8) <= end && AlignUp8(e) + 8 > end
  {
    hide Wrap;
    if e + 7 < TWO64 {
      WrapNone(e + 7);
      if AlignUp8(e) + 8 < TWO64 { WrapNone(AlignUp8(e) + 8); } else { WrapOnce(AlignUp8(e) + 8); }
    } else {
      WrapOnce(e + 7);
      WrapNone(8);
    }
  }

  /** No sum the code forms at a tag it should visit leaves 64 bits. */
  ghost predicate TagsFit(info: nat, m: seq<u8>)
    requires |m| >= 16
  {
    forall k: nat :: Visited(info, m, k).Some? ==> TagFits(info, m, Visited(info, m, k).value)
  }

  /** The code reads exactly the tags it should, and none outside the block. */
  ghost predicate SameWalk(info: u64, m: seq<u8>, outside: u64 -> u8)
    requires 16 <= |m| && info + |m| < TWO64
  {
    forall k: nat :: CodeVisited(info, m, outside, k) == Address(info, Visited(info, m, k))
  }

  lemma {:induction false} VisitsAgree(info: u64, m: seq<u8>, outside: u64 -> u8, k: nat)
    requires 16 <= |m| < TWO32 && 0 < info && info + |m| < TWO64 && TagsFit(info, m)
    ensures CodeVisited(info, m, outside, k) == Address(info, Visited(info, m, k))
  {
    hide TagFits, CodeNext, NextVisited;
    if k > 0 {
      VisitsAgree(info, m, outside, k - 1);
      var off := Visited(info, m, k - 1);
      if off.Some? { StepAgrees(info, m, outside, off.value); }
    }
  }

  /** The code's walk is the right one exactly when no sum it forms at a tag leaves 64 bits. */
  lemma WalkAgrees(info: u64, m: seq<u8>, outside: u64 -> u8)
    requires 16 <= |m| < TWO32 && 0 < info && info + |m| < TWO64
    ensures SameWalk(info, m, outside) <==> TagsFit(info, m)
  {
    hide TagFits, CodeNext, NextVisited, Address;
    if TagsFit(info, m) {
      forall k: nat ensures CodeVisited(info, m, outside, k) == Address(info, Visited(info, m, k)) {
        VisitsAgree(info, m, outside, k);
      }
    }
    if SameWalk(info, m, outside) {
      forall k: nat | Visited(info, m, k).Some? ensures TagFits(info, m, Visited(info, m, k).value) {
        SameStep(info, m, outside, k);
      }
    }
  }

  lemma SameStep(info: u64, m: seq<u8>, outside: u64 -> u8, k: nat)
    requires 16 <= |m| < TWO32 && 0 < info && info + |m| < TWO64 && SameWalk(info, m, outside) && Visited(info, m, k).Some?
    ensures TagFits(info, m, Visited(info, m, k).value)
  {
    hide TagFits, CodeNext, NextVisited;
    var off := Visited(info, m, k).value;
    assert CodeVisited(info, m, outside, k) == Some(info + off);
    assert CodeVisited(info, m, outside, k + 1) == Address(info, Visited(info, m, k + 1));
    StepAgrees(info, m, outside, off);
  }

  // ----- the entries of one tag, in 64-bit arithmetic

  function CodeRegionAt(info: u64, m: seq<u8>, outside: u64 -> u8, p: u64): Region
  {
    var word := (a: nat) => Read32(info, m, outside, Wrap(p + a));
    Region(word(0) + TWO32 * word(4), word(8) + TWO32 * word(12), word(16))
  }

  /** The entries the code records from an address on, while the table has room for `room` more. */
  function CodeRegions(info: u64, m: seq<u8>, outside: u64 -> u8, ep: u64, stop: u64, size: nat, room: nat): seq<Region>
    decreases room
  {
    if room > 0 && Wrap(ep + size) <= stop
    then [CodeRegionAt(info, m, outside, ep)] + CodeRegions(info, m, outside, Wrap(ep + size), stop, size, room - 1)
    else []
  }

  /** No sum the code forms over these entries leaves 64 bits. */
  predicate EntriesFit(info: nat, off: nat, stop: nat, size: nat, room: nat)
    decreases room
  {
    room == 0 || (info + off + size < TWO64 && (off + size <= stop ==> EntriesFit(info, off + size, stop, size, room - 1)))
  }

  lemma RegionInside(info: u64, m: seq<u8>, outside: u64 -> u8, off: nat)
    requires info + |m| < TWO64 && off + 24 <= |m|
    ensures CodeRegionAt(info, m, outside, info + off) == RegionAt(m, off)
  {
    hide Read32, U32At, Wrap;
    WrapNone(info + off);
    WrapNone(info + off + 4);
    WrapNone(info + off + 8);
    WrapNone(info + off + 12);
    WrapNone(info + off + 16);
    ReadInside(info, m, outside, off);
    ReadInside(info, m, outside, off + 4);
    ReadInside(info, m, outside, off + 8);
    ReadInside(info, m, outside, off + 12);
    ReadInside(info, m, outside, off + 16);
  }

  /** The code records exactly the whole entries of a tag, as many as there is room for, exactly when no
      sum it forms over them leaves 64 bits. */
  lemma {:induction false} EntriesAgree(info: u64, m: seq<u8>, outside: u64 -> u8, off: nat, stop: nat, size: nat, room: nat)
    requires info + |m| < TWO64 && stop <= |m| && off <= stop && 24 <= size < TWO32
    ensures CodeRegions(info, m, outside, info + off, info + stop, size, room) == FirstOf(RegionsIn(m, off, stop, size), room)
            <==> EntriesFit(info, off, stop, size, room)
    decreases room
  {
    hide RegionAt, CodeRegionAt, Wrap;
    if room > 0 {
      SumPasses(info + off, size, info + stop);
      if off + size <= stop {
        WrapNone(info + off + size);
        RegionInside(info, m, outside, off);
        EntriesAgree(info, m, outside, off + size, stop, size, room - 1);
        var rest := RegionsIn(m, off + size, stop, size);
        assert FirstOf([RegionAt(m, off)] + rest, room) == [RegionAt(m, off)] + FirstOf(rest, room - 1);
        HeadAndTail(RegionAt(m, off), CodeRegions(info, m, outside, info + off + size, info + stop, size, room - 1), FirstOf(rest, room - 1));
      }
    }
  }

  lemma HeadAndTail(x: Region, a: seq<Region>, b: seq<Region>)
    ensures [x] + a == [x] + b <==> a == b
  {
    if [x] + a == [x] + b { assert a == ([x] + a)[1..] && b == ([x] + b)[1..]; }
  }

  /** The entries of the tags visited before the `k`-th. */
  function RegionsBefore(info: nat, m: seq<u8>, k: nat): seq<Region>
    requires |m| >= 16
  {
    if k == 0 then [] else
    var off := Visited(info, m, k - 1);
    RegionsBefore(info, m, k - 1)
    + if off.Some? && GoodTag(m, off.value, |m|) then RegionsOfTag(m, off.value, |m|) else []
  }

  /** No sum the code forms over the entries of the `k`-th tag leaves 64 bits. */
  ghost predicate TagEntriesFit(info: nat, m: seq<u8>, k: nat)
    requires |m| >= 16
  {
    match Visited(info, m, k)
    case None => true
    case Some(off) =>
      GoodTag(m, off, |m|) && U32At(m, off) == TAG_MMAP && U32At(m, off + 4) >= 16 && U32At(m, off + 8) >= 24 ==>
        EntriesFit(info, off + 16, off + U32At(m, off + 4), U32At(m, off + 8), RoomAfter(RegionsBefore(info, m, k)))
  }

  function RoomAfter(rs: seq<Region>): nat { MAX_ENTRIES - |FirstOf(rs, MAX_ENTRIES)| }

  /** No sum of the whole walk leaves 64 bits. */
  ghost predicate Unwrapped(info: nat, m: seq<u8>)
    requires |m| >= 16
  {
    TagsFit(info, m) && forall k: nat :: Visited(info, m, k).Some? ==> TagEntriesFit(info, m, k)
  }

  /** It is enough that the block ends four gigabytes below the top of the address space. */
  lemma FarFromTheTop(info: nat, m: seq<u8>)
    requires 16 <= |m| && info + |m| + TWO32 <= TWO64
    ensures Unwrapped(info, m)
  {
    hide U32At, RegionsBefore, NextVisited;
    forall k: nat | Visited(info, m, k).Some? ensures TagFits(info, m, Visited(info, m, k).value) && TagEntriesFit(info, m, k) {
      var off := Visited(info, m, k).value;
      Aligned8(info + off + U32At(m, off + 4));
      if GoodTag(m, off, |m|) && U32At(m, off) == TAG_MMAP && U32At(m, off + 4) >= 16 && U32At(m, off + 8) >= 24 {
        EntriesFarFromTheTop(info, off + 16, off + U32At(m, off + 4), |m|, U32At(m, off + 8), RoomAfter(RegionsBefore(info, m, k)));
      }
    }
  }

  lemma {:induction false} EntriesFarFromTheTop(info: nat, off: nat, stop: nat, n: nat, size: nat, room: nat)
    requires off <= stop <= n && size < TWO32 && info + n + TWO32 <= TWO64
    ensures EntriesFit(info, off, stop, size, room)
    decreases room
  {
    if room > 0 && off + size <= stop { EntriesFarFromTheTop(info, off + size, stop, n, size, room - 1); }
  }

  /** A block of 32 bytes, four kilobytes from the top, with a tag that claims four gigabytes. */
  const HIGH: u64 := TWO64 - 4096
  const HUGE_TAG: seq<u8> := [32, 0, 0, 0, 0, 0, 0, 0, 1, 0, 0, 0, 255, 255, 255, 255,
                              0, 0, 0, 0, 0, 0, 0, 0, 0, 0, 0, 0, 8, 0, 0, 0]

  /** There the walk should stop at that tag, but the code goes on below the block. */
  lemma HugeTagIsFollowed(outside: u64 -> u8)
    ensures |HUGE_TAG| == TotalSize(HUGE_TAG) == 32 && HIGH + 32 + 8 < TWO64 && !TagsFit(HIGH, HUGE_TAG)
    ensures Visited(HIGH, HUGE_TAG, 1) == None
    ensures var next := CodeVisited(HIGH, HUGE_TAG, outside, 1);
            next.Some? && next.value + 8 < HIGH
  {
    hide U32At, CodeNext, AlignUp8;
    HugeTagFields();
    HugeTagStep(outside);
    assert Visited(HIGH, HUGE_TAG, 0) == Some(8) && !TagFits(HIGH, HUGE_TAG, 8);
    assert CodeVisited(HIGH, HUGE_TAG, outside, 0) == Some(HIGH + 8);
  }

  lemma HugeTagStep(outside: u64 -> u8)
    ensures var next := CodeNext(HIGH, HUGE_TAG, outside, HIGH + 8);
            next.Some? && next.value + 8 < HIGH
  {
    hide U32At, Read32, Wrap;
    ReadInside(HIGH, HUGE_TAG, outside, 8);
    ReadInside(HIGH, HUGE_TAG, outside, 12);
    HugeTagFields();
    WrapNone(HIGH + 12);
    TagWraps(HIGH, 8, 0xFFFF_FFFF, 32);
    SumPasses(HIGH + 8, 0xFFFF_FFFF, HIGH + 32);
  }

  lemma HugeTagFields()
    ensures U32At(HUGE_TAG, 0) == 32 && U32At(HUGE_TAG, 8) == 1 && U32At(HUGE_TAG, 12) == 0xFFFF_FFFF
  {}

  lemma SplitsBack(base: u64)
    ensures FromHiLo(base / TWO32, base % TWO32) == base
  {}

  class Loader {
    const mmapEntries: array<Entry>
    var mmapCount: nat

    ghost predicate Valid()
      reads this
    {
      mmapEntries.Length == MAX_ENTRIES && mmapCount <= MAX_ENTRIES
    }

    ghost function Recorded(): seq<Region>
      reads this, mmapEntries
      requires Valid()
    {
      DecodedAll(mmapEntries[..mmapCount])
    }

    constructor ()
      ensures Valid() && fresh(mmapEntries) && mmapCount == 0
    {
      mmapEntries := new Entry[MAX_ENTRIES](_ => Entry(0, 0, 0, 0, 0));
      mmapCount := 0;
    }

    method Record(m: seq<u8>, ep: nat)
      requires Valid() && mmapCount < MAX_ENTRIES && ep + 24 <= |m|
      modifies this, mmapEntries
      ensures Valid() && Recorded() == old(Recorded()) + [RegionAt(m, ep)]
    {
      hide U32At, U64At;
      var base := U64At(m, ep);
      var length := U64At(m, ep + 8);
      var typ := U32At(m, ep + 16);
      SplitsBack(base);
      SplitsBack(length);
      mmapEntries[mmapCount] := Entry(base % TWO32, base / TWO32, length % TWO32, length / TWO32, typ);
      mmapCount := mmapCount + 1;
      assert Decoded(mmapEntries[mmapCount - 1]) == RegionAt(m, ep);
      assert Recorded()[..mmapCount - 1] == old(Recorded());
    }

    /** Record the entries between two addresses of the block at `info`. */
    method RecordTag(info: u64, m: seq<u8>, start: u64, stop: u64, size: nat, ghost done: seq<Region>)
      requires Valid() && 24 <= size && Recorded() == FirstOf(done, MAX_ENTRIES)
      requires info <= start && info <= stop <= info + |m|
      requires EntriesFit(info, start - info, stop - info, size, RoomAfter(done))
      modifies this, mmapEntries
      ensures Valid() && Recorded() == FirstOf(done + RegionsIn(m, start - info, stop - info, size), MAX_ENTRIES)
    {
      hide RegionAt, Decoded, Wrap;
      var ep := start;
      ghost var seen := done;
      ghost var all := done + RegionsIn(m, start - info, stop - info, size);
      if mmapCount < MAX_ENTRIES { WrapNone(ep + size); }
      while Wrap(ep + size) <= stop && mmapCount < MAX_ENTRIES
        invariant Valid() && Recorded() == FirstOf(seen, MAX_ENTRIES) && info <= ep
        invariant EntriesFit(info, ep - info, stop - info, size, RoomAfter(seen))
        invariant mmapCount < MAX_ENTRIES ==> Wrap(ep + size) == ep + size
        invariant seen + RegionsIn(m, ep - info, stop - info, size) == all
        decreases MAX_ENTRIES - mmapCount
      {
        Record(m, ep - info);
        ghost var r := RegionAt(m, ep - info);
        assert seen + ([r] + RegionsIn(m, ep + size - info, stop - info, size)) == seen + [r] + RegionsIn(m, ep + size - info, stop - info, size);
        seen := seen + [r];
        ep := Wrap(ep + size);
        if mmapCount < MAX_ENTRIES { WrapNone(ep + size); }
      }
    }

    /** Record the entries of one tag, if it is a memory map. */
    method VisitTag(info: u64, m: seq<u8>, p: u64, tagType: nat, tagSize: nat, found0: bool, ghost k: nat) returns (found: bool)
      requires Valid() && |m| >= 16 && info <= p && info + |m| < TWO64 && Visited(info, m, k) == Some(p - info)
      requires GoodTag(m, p - info, |m|) && tagType == U32At(m, p - info) && tagSize == U32At(m, p + 4 - info)
      requires TagEntriesFit(info, m, k)
      requires Recorded() == FirstOf(RegionsBefore(info, m, k), MAX_ENTRIES) && (found0 <==> Recorded() != [])
      modifies this, mmapEntries
      ensures Valid() && Recorded() == FirstOf(RegionsBefore(info, m, k + 1), MAX_ENTRIES) && (found <==> Recorded() != [])
    {
      hide U32At, RegionsIn, RegionsBefore, EntriesFit, Regions, RegionsOfTag, NextVisited;
      OneTagMore(info, m, k, p - info);
      found := found0;
      if tagType == TAG_MMAP {
        if tagSize >= 16 {
          var entrySize := U32At(m, p + 8 - info);
          if entrySize >= 24 {
            RecordTag(info, m, p + 16, p + tagSize, entrySize, RegionsBefore(info, m, k));
            found := mmapCount > 0;
          }
        }
      }
    }

    /** `m` is the block at address `info`: the size field and as many bytes as it declares. Every read is
        of a byte of `m`. */
    method InitMultiboot(info: u64, m: seq<u8>) returns (found: bool)
      requires Valid()
      requires info != 0 ==> |m| >= 4 && |m| == Max(4, TotalSize(m)) && info + |m| < TWO64
      requires info != 0 && TotalSize(m) >= 16 ==> Unwrapped(info, m)
      modifies this, mmapEntries
      ensures Valid() && (found <==> Recorded() != [])
      ensures info == 0 || TotalSize(m) < 16 ==> Recorded() == []
      ensures info != 0 && TotalSize(m) >= 16 ==>
                Recorded() == FirstOf(Regions(info, m, 8, TotalSize(m)), MAX_ENTRIES)
    {
      hide U32At, RegionsIn, Wrap, RegionsBefore, AlignUp8, TagEntriesFit, Regions, RegionsOfTag, NextVisited;
      mmapCount := 0;
      if info == 0 { return false; }
      var total := U32At(m, 0);
      if total < 16 { return false; }
      found := false;
      var p := Wrap(info + 8);
      var end := Wrap(info + total);
      WrapNone(info + 8);
      WrapNone(info + total);
      WrapNone(info + 16);
      ghost var k := 0;
      NoRegionsBefore(info, m);
      while Wrap(p + 8) <= end
        invariant Valid() && info <= p && Wrap(p + 8) == p + 8
        invariant Recorded() == FirstOf(RegionsBefore(info, m, k), MAX_ENTRIES) && (found <==> Recorded() != [])
        invariant RegionsBefore(info, m, k) + Regions(info, m, p - info, total) == Regions(info, m, 8, total)
        invariant p + 8 <= end ==> Visited(info, m, k) == Some(p - info)
        decreases end - p
      {
        ghost var off := p - info;
        assert TagFits(info, m, off) && TagEntriesFit(info, m, k);
        var tagType := U32At(m, p - info);
        var tagSize := U32At(m, p + 4 - info);
        Stops(info, m, off);
        if tagType == TAG_END { break; }
        if tagSize >= 8 { WrapNone(p + tagSize); }
        if tagSize < 8 || Wrap(p + tagSize) > end { break; }
        found := VisitTag(info, m, p, tagType, tagSize, found, k);
        OneTagMore(info, m, k, off);
        AlignmentAgrees(p + tagSize, end);
        Aligned8(p + tagSize);
        p := Wrap(Wrap(p + tagSize) + 7) / 8 * 8;
        k := k + 1;
      }
      Stops(info, m, p - info);
      assert RegionsBefore(info, m, k) + [] == RegionsBefore(info, m, k);
    }
  }

  lemma NoRegionsBefore(info: nat, m: seq<u8>)
    requires |m| >= 16
    ensures RegionsBefore(info, m, 0) == [] && [] + Regions(info, m, 8, |m|) == Regions(info, m, 8, |m|)
  {}

  lemma Stops(info: nat, m: seq<u8>, off: nat)
    ensures !GoodTag(m, off, |m|) ==> Regions(info, m, off, |m|) == []
  {}

  /** The walk goes past one tag. */
  lemma OneTagMore(info: nat, m: seq<u8>, k: nat, off: nat)
    requires |m| >= 16 && Visited(info, m, k) == Some(off) && GoodTag(m, off, |m|)
    ensures RegionsBefore(info, m, k + 1) == RegionsBefore(info, m, k) + RegionsOfTag(m, off, |m|)
    ensures var next := NextTag(info, m, off);
            RegionsBefore(info, m, k) + Regions(info, m, off, |m|) == RegionsBefore(info, m, k + 1) + Regions(info, m, next, |m|)
            && (next + 8 <= |m| ==> Visited(info, m, k + 1) == Some(next))
            && next == AlignUp8(info + off + U32At(m, off + 4)) - info
    ensures var size := U32At(m, off + 4);
            U32At(m, off) == TAG_MMAP && size >= 16 && U32At(m, off + 8) >= 24 ==>
              RegionsOfTag(m, off, |m|) == RegionsIn(m, off + 16, off + size, U32At(m, off + 8))
    ensures !(U32At(m, off) == TAG_MMAP && U32At(m, off + 4) >= 16 && U32At(m, off + 8) >= 24) ==>
              RegionsBefore(info, m, k + 1) == RegionsBefore(info, m, k)
  {
    hide U32At, RegionsIn;
    var before, here := RegionsBefore(info, m, k), RegionsOfTag(m, off, |m|);
    assert before + (here + Regions(info, m, NextTag(info, m, off), |m|)) == before + here + Regions(info, m, NextTag(info, m, off), |m|);
  }
}
