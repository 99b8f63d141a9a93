/** The block a boot loader writes: its layout as the Multiboot2 specification gives it, and that the walk reads back
    exactly the memory map that was put in. */
module MultibootBlock {
  import opened Basics
  import opened Multiboot

  /** Least significant byte first. */
  function LE32(v: u32): (b: seq<u8>)
    ensures |b| == 4
  {
    [v % 256, v / 256 % 256, v / 0x1_0000 % 256, v / 0x100_0000]
  }

  function LE64(v: u64): (b: seq<u8>)
    ensures |b| == 8
  {
    LE32(v % TWO32) + LE32(v / TWO32)
  }

  function Zeros(n: nat): (z: seq<u8>)
    ensures |z| == n
  {
    seq(n, _ => 0)
  }

  /** One entry of a memory map tag: base, length, type, and a reserved word. */
  function EntryBytes(r: Region): (b: seq<u8>)
    ensures |b| == 24
  {
    LE64(r.base) + LE64(r.length) + LE32(r.typ) + Zeros(4)
  }

  function EntriesBytes(rs: seq<Region>): (b: seq<u8>)
    ensures |b| == 24 * |rs|
  {
    if rs == [] then [] else EntryBytes(rs[0]) + EntriesBytes(rs[1..])
  }

  datatype Tag = MapTag(regions: seq<Region>) | OtherTag(typ: u32, body: seq<u8>)

  function Content(t: Tag): seq<u8>
  {
    match t
    case MapTag(rs) => LE32(24) + LE32(0) + EntriesBytes(rs)
    case OtherTag(_, body) => body
  }

  function TypeOf(t: Tag): u32 { if t.MapTag? then 6 else t.typ }

  /** A tag's size fits its field, and tags of other types are neither the end nor a memory map. */
  predicate Writable(t: Tag)
  {
    8 + |Content(t)| < TWO32 && (t.OtherTag? ==> t.typ != 0 && t.typ != 6)
  }

  /** Tags begin at multiples of 8. */
  function Padding(n: nat): nat { (8 - n % 8) % 8 }

  function TagBytes(t: Tag): (b: seq<u8>)
    requires Writable(t)
    ensures |b| == 8 + |Content(t)| + Padding(|Content(t)|)
  {
    LE32(TypeOf(t)) + LE32(8 + |Content(t)|) + Content(t) + Zeros(Padding(|Content(t)|))
  }

  function TagsBytes(ts: seq<Tag>): seq<u8>
    requires forall i :: 0 <= i < |ts| ==> Writable(ts[i])
  {
    if ts == [] then [] else TagBytes(ts[0]) + TagsBytes(ts[1..])
  }

  function EndTag(): (b: seq<u8>)
    ensures |b| == 8
  {
    LE32(0) + LE32(8)
  }

  function BlockSize(ts: seq<Tag>): nat
    requires forall i :: 0 <= i < |ts| ==> Writable(ts[i])
  {
    8 + |TagsBytes(ts)| + 8
  }

  /** The whole block: its size, a reserved word, the tags, and the end tag. */
  function Block(ts: seq<Tag>): (b: seq<u8>)
    requires (forall i :: 0 <= i < |ts| ==> Writable(ts[i])) && BlockSize(ts) < TWO32
    ensures |b| == BlockSize(ts)
  {
    LE32(BlockSize(ts)) + LE32(0) + TagsBytes(ts) + EndTag()
  }

  /** The regions of all memory map tags, in order. */
  function RegionsOf(ts: seq<Tag>): seq<Region>
  {
    if ts == [] then [] else (if ts[0].MapTag? then ts[0].regions else []) + RegionsOf(ts[1..])
  }

  // ----- reading words back

  /** These bytes are at this offset. */
  predicate Has(m: seq<u8>, off: nat, w: seq<u8>) { off + |w| <= |m| && m[off..off + |w|] == w }

  lemma HasParts(m: seq<u8>, off: nat, a: seq<u8>, b: seq<u8>)
    requires Has(m, off, a + b)
    ensures Has(m, off, a) && Has(m, off + |a|, b)
  {
    var w := m[off..off + |a + b|];
    assert m[off..off + |a|] == w[..|a|] == a;
    assert m[off + |a|..off + |a| + |b|] == w[|a|..] == b;
  }

  lemma LE32Reads(v: u32)
    ensures Little(v % 256, v / 256 % 256, v / 0x1_0000 % 256, v / 0x100_0000) == v
  {
    var a := v / 256;
    var b := a / 256;
    assert b == v / 0x1_0000 && b / 256 == v / 0x100_0000;
  }

  /** A word written at an offset is read there. */
  lemma WordReads(m: seq<u8>, off: nat, v: u32)
    requires Has(m, off, LE32(v))
    ensures U32At(m, off) == v
  {
    hide Little;
    var w := m[off..off + 4];
    assert w[0] == m[off] && w[1] == m[off + 1] && w[2] == m[off + 2] && w[3] == m[off + 3];
    LE32Reads(v);
  }

  lemma LongReads(m: seq<u8>, off: nat, v: u64)
    requires Has(m, off, LE64(v))
    ensures U64At(m, off) == v
  {
    hide U32At, LE32, Has;
    HasParts(m, off, LE32(v % TWO32), LE32(v / TWO32));
    WordReads(m, off, v % TWO32);
    WordReads(m, off + 4, v / TWO32);
  }

  lemma EntryReads(m: seq<u8>, off: nat, r: Region)
    requires Has(m, off, EntryBytes(r)) && off + 24 <= |m|
    ensures RegionAt(m, off) == r
  {
    hide U32At, U64At, LE32, LE64, Has;
    HasParts(m, off, LE64(r.base) + LE64(r.length) + LE32(r.typ), Zeros(4));
    HasParts(m, off, LE64(r.base) + LE64(r.length), LE32(r.typ));
    HasParts(m, off, LE64(r.base), LE64(r.length));
    LongReads(m, off, r.base);
    LongReads(m, off + 8, r.length);
    WordReads(m, off + 16, r.typ);
  }

  lemma HasFits(m: seq<u8>, off: nat, w: seq<u8>)
    requires Has(m, off, w)
    ensures off + |w| <= |m|
  {}

  lemma {:induction false} EntriesRead(m: seq<u8>, off: nat, rs: seq<Region>)
    requires Has(m, off, EntriesBytes(rs)) && off + 24 * |rs| <= |m|
    ensures RegionsIn(m, off, off + 24 * |rs|, 24) == rs
    decreases |rs|
  {
    hide RegionAt, EntryBytes, Has;
    if rs != [] {
      HasParts(m, off, EntryBytes(rs[0]), EntriesBytes(rs[1..]));
      EntryReads(m, off, rs[0]);
      EntriesRead(m, off + 24, rs[1..]);
    }
  }

  // ----- walking the tags

  /** A tag's header, and its content. */
  lemma HeaderReads(m: seq<u8>, off: nat, t: Tag)
    requires Writable(t) && Has(m, off, TagBytes(t))
    ensures off + 8 + |Content(t)| <= |m| && U32At(m, off) == TypeOf(t) && U32At(m, off + 4) == 8 + |Content(t)|
    ensures Has(m, off + 8, Content(t))
  {
    hide U32At, LE32, Has, Content, TypeOf, Padding;
    var n := |Content(t)|;
    HasFits(m, off, TagBytes(t));
    HasParts(m, off, LE32(TypeOf(t)) + LE32(8 + n) + Content(t), Zeros(Padding(n)));
    HasParts(m, off, LE32(TypeOf(t)) + LE32(8 + n), Content(t));
    HasParts(m, off, LE32(TypeOf(t)), LE32(8 + n));
    WordReads(m, off, TypeOf(t));
    WordReads(m, off + 4, 8 + n);
  }

  lemma TagReads(m: seq<u8>, off: nat, t: Tag)
    requires Writable(t) && Has(m, off, TagBytes(t))
    ensures off + 8 <= |m| && U32At(m, off + 4) == 8 + |Content(t)|
    ensures GoodTag(m, off, |m|) && RegionsOfTag(m, off, |m|) == if t.MapTag? then t.regions else []
  {
    hide U32At, LE32, EntriesBytes, RegionsIn, Has, TagBytes;
    HeaderReads(m, off, t);
    if t.MapTag? {
      HasParts(m, off + 8, LE32(24) + LE32(0), EntriesBytes(t.regions));
      HasParts(m, off + 8, LE32(24), LE32(0));
      WordReads(m, off + 8, 24);
      EntriesRead(m, off + 16, t.regions);
    }
  }

  lemma PaddingRounds(x: nat, n: nat)
    requires x % 8 == 0
    ensures AlignUp8(x + 8 + n) == x + 8 + n + Padding(n) && (x + 8 + n + Padding(n)) % 8 == 0
  {
    var a, b := x / 8, n / 8;
    assert x == 8 * a && n == 8 * b + n % 8;
  }

  lemma EndReads(m: seq<u8>, off: nat, info: nat)
    requires off + 8 == |m| && Has(m, off, EndTag())
    ensures Regions(info, m, off, |m|) == []
  {
    hide U32At, LE32, Has;
    HasParts(m, off, LE32(0), LE32(8));
    WordReads(m, off, 0);
  }

  /** One tag more at the front of the walk. */
  lemma WalkStep(info: nat, m: seq<u8>, off: nat, t: Tag)
    requires Writable(t) && Has(m, off, TagBytes(t)) && (info + off) % 8 == 0
    ensures var next := off + |TagBytes(t)|;
            && (info + next) % 8 == 0
            && Regions(info, m, off, |m|) == (if t.MapTag? then t.regions else []) + Regions(info, m, next, |m|)
  {
    hide U32At, Has, Content, GoodTag, RegionsOfTag, Padding, AlignUp8;
    TagReads(m, off, t);
    PaddingRounds(info + off, |Content(t)|);
  }

  lemma {:induction false} TagsRead(info: nat, m: seq<u8>, off: nat, ts: seq<Tag>)
    requires (forall i :: 0 <= i < |ts| ==> Writable(ts[i])) && (info + off) % 8 == 0
    requires Has(m, off, TagsBytes(ts) + EndTag()) && off + |TagsBytes(ts)| + 8 == |m|
    ensures Regions(info, m, off, |m|) == RegionsOf(ts)
    decreases |ts|
  {
    hide TagBytes, Has, Regions, EndTag;
    if ts == [] {
      assert TagsBytes(ts) + EndTag() == EndTag();
      EndReads(m, off, info);
    } else {
      assert TagsBytes(ts) + EndTag() == TagBytes(ts[0]) + (TagsBytes(ts[1..]) + EndTag());
      HasParts(m, off, TagBytes(ts[0]), TagsBytes(ts[1..]) + EndTag());
      WalkStep(info, m, off, ts[0]);
      TagsRead(info, m, off + |TagBytes(ts[0])|, ts[1..]);
    }
  }

  /** From any block a boot loader writes at an address divisible by 8, the walk takes exactly the regions of its memory
      map tags, whatever other tags there are. */
  lemma BlockReads(info: nat, ts: seq<Tag>)
    requires (forall i :: 0 <= i < |ts| ==> Writable(ts[i])) && BlockSize(ts) < TWO32 && info % 8 == 0
    ensures TotalSize(Block(ts)) == |Block(ts)|
    ensures Regions(info, Block(ts), 8, |Block(ts)|) == RegionsOf(ts)
  {
    hide U32At, LE32, TagsBytes, EndTag, Regions, Has;
    var m, head, tail := Block(ts), LE32(BlockSize(ts)) + LE32(0), TagsBytes(ts) + EndTag();
    assert m == head + tail;
    HasAll(m);
    HasParts(m, 0, head, tail);
    HasParts(m, 0, LE32(BlockSize(ts)), LE32(0));
    WordReads(m, 0, BlockSize(ts));
    TagsRead(info, m, 8, ts);
  }

  lemma HasAll(m: seq<u8>)
    ensures Has(m, 0, m)
  {}

  /** Loading such a block records its first 64 regions, as the boot loader gave them. */
  method Load(info: u64, ts: seq<Tag>) returns (loader: Loader, found: bool)
    requires (forall i :: 0 <= i < |ts| ==> Writable(ts[i])) && BlockSize(ts) < TWO32
    requires info != 0 && info % 8 == 0 && info + BlockSize(ts) + TWO32 <= TWO64
    ensures fresh(loader) && loader.Valid() && loader.Recorded() == FirstOf(RegionsOf(ts), 64) && (found <==> RegionsOf(ts) != [])
  {
    hide Block, Regions, Unwrapped, RegionsOf, TagsBytes;
    var m := Block(ts);
    BlockReads(info, ts);
    FarFromTheTop(info, m);
    loader := new Loader();
    found := loader.InitMultiboot(info, m);
  }
}
