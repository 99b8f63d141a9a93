/** From the boot information to files: the memory map is recorded, the page allocator set up on it, and
    the in-memory filesystem served from its pages. */
module Boot {
  import opened Basics
  import opened MemoryMap
  import opened Multiboot
  import opened PageAllocator
  import opened MemFs

  // ----- the memory map of a boot block

  /** The entry that stands for a region. */
  function EntryOf(r: Region): Entry
  {
    Entry(r.base % TWO32, r.base / TWO32, r.length % TWO32, r.length / TWO32, r.typ)
  }

  function EntriesOf(rs: seq<Region>): (es: seq<Entry>)
    ensures |es| == |rs|
  {
    seq(|rs|, i requires 0 <= i < |rs| => EntryOf(rs[i]))
  }

  lemma EntryIsDecoded(e: Entry)
    ensures EntryOf(Decoded(e)) == e
  {
    assert (e.baseHi * TWO32 + e.baseLo) / TWO32 == e.baseHi;
    assert (e.lenHi * TWO32 + e.lenLo) / TWO32 == e.lenHi;
  }

  lemma EntriesAreDecoded(es: seq<Entry>)
    ensures EntriesOf(DecodedAll(es)) == es
  {
    hide EntryOf, Decoded;
    forall i | 0 <= i < |es| ensures EntriesOf(DecodedAll(es))[i] == es[i] { EntryIsDecoded(es[i]); }
  }

  /** The regions the boot loader lists in a block, as far as they are recorded. */
  function Listed(info: u64, m: seq<u8>): seq<Region>
  {
    if info == 0 || |m| < 4 || TotalSize(m) > |m| || TotalSize(m) < 16 then [] else FirstOf(Regions(info, m, 8, TotalSize(m)), MAX_ENTRIES)
  }

  /** A page of memory that the boot loader calls available. */
  predicate AvailablePage(rs: seq<Region>, p: nat)
  {
    exists i :: 0 <= i < |rs| && rs[i].typ == 1 && rs[i].base <= p * PAGE && (p + 1) * PAGE <= rs[i].base + rs[i].length
  }

  lemma RegionBack(r: Region)
    ensures Base(EntryOf(r)) == r.base && Size(EntryOf(r)) == r.length && EntryOf(r).typ == r.typ
  {
    SplitsBack(r.base);
    SplitsBack(r.length);
  }

  lemma InMemoryIsListed(rs: seq<Region>, p: nat)
    requires InMemory(EntriesOf(rs), p)
    ensures AvailablePage(rs, p)
  {
    hide EntryOf, Base, Size;
    var i :| 0 <= i < |rs| && Inside(EntriesOf(rs)[i], p);
    RegionBack(rs[i]);
  }

  // ----- the simple filesystem

  /** A map of files and a number of pages to spare. */
  datatype Simple = Simple(files: map<seq<byte>, seq<byte>>, spare: nat)

  datatype Op =
    | Put(name: seq<byte>, nameLen: int, data: seq<byte>, len: nat)
    | Drop(name: seq<byte>, nameLen: int)
    | Get(name: seq<byte>, nameLen: int)

  datatype Reply = Done(ok: bool) | Got(data: Option<seq<byte>>)

  predicate WellFormed(op: Op) { |op.name| == MAX_NAME && (op.Put? ==> Clip(op.len) <= |op.data|) }

  predicate GoodName(op: Op) { 1 <= op.nameLen <= MAX_NAME }

  function Key(op: Op): seq<byte>
    requires WellFormed(op) && GoodName(op)
  {
    op.name[..op.nameLen]
  }

  /** A known name is overwritten in place; a new one needs one of the 32 slots and a page. */
  predicate CanPut(s: Simple, op: Op)
    requires WellFormed(op)
  {
    GoodName(op) && (Key(op) in s.files || (|s.files| < MemFs.MAX_FILES && s.spare > 0))
  }

  function Apply(s: Simple, op: Op): Simple
    requires WellFormed(op)
  {
    if !GoodName(op) then s else
    match op
    case Put(_, _, data, len) =>
      if !CanPut(s, op) then s
      else Simple(s.files[Key(op) := data[..Clip(len)]], if Key(op) in s.files then s.spare else s.spare - 1)
    case Drop(_, _) => if Key(op) in s.files then Simple(s.files - {Key(op)}, s.spare + 1) else s
    case Get(_, _) => s
  }

  function Answer(s: Simple, op: Op): Reply
    requires WellFormed(op)
  {
    match op
    case Put(_, _, _, _) => Done(CanPut(s, op))
    case Drop(_, _) => Done(GoodName(op) && Key(op) in s.files)
    case Get(_, _) => Got(if GoodName(op) && Key(op) in s.files then Some(s.files[Key(op)]) else None)
  }

  function StateAfter(start: Simple, ops: seq<Op>): Simple
    requires forall i :: 0 <= i < |ops| ==> WellFormed(ops[i])
  {
    if ops == [] then start else Apply(StateAfter(start, ops[..|ops| - 1]), ops[|ops| - 1])
  }

  ghost function Spare(pfa: Allocator): nat
    reads pfa
  {
    if pfa.ready then pfa.freePages else 0
  }

  ghost predicate Stands(fs: FileSystem, s: Simple)
    reads fs, fs.files, fs.pfa, fs.pfa.bitmap
  {
    fs.Valid() && fs.Files() == s.files && Spare(fs.pfa) == s.spare
  }

  /** One operation answers, and leaves the filesystem, as the simple one says. */
  method Perform(fs: FileSystem, op: Op, ghost s: Simple) returns (reply: Reply)
    requires WellFormed(op) && Stands(fs, s)
    modifies fs`pages, fs.files, fs.pfa`freePages, fs.pfa`live, fs.pfa.bitmap
    ensures reply == Answer(s, op) && Stands(fs, Apply(s, op))
  {
    hide Allocator.Free;
    match op
    case Put(_, _, _, _) => reply := PerformPut(fs, op, s);
    case Drop(_, _) => reply := PerformDrop(fs, op, s);
    case Get(name, nameLen) =>
      var page, size, ok := fs.Lookup(name, nameLen);
      reply := Got(if ok then Some(fs.pages[page][..size]) else None);
  }

  method PerformPut(fs: FileSystem, op: Op, ghost s: Simple) returns (reply: Reply)
    requires op.Put? && WellFormed(op) && Stands(fs, s)
    modifies fs`pages, fs.files, fs.pfa`freePages, fs.pfa`live, fs.pfa.bitmap
    ensures reply == Answer(s, op) && Stands(fs, Apply(s, op))
  {
    hide Allocator.Free, View, Sound, AllocStep, FreeStep, FileSystem.Allocated;
    var ok := fs.Write(op.name, op.nameLen, op.data, op.len);
    reply := Done(ok);
  }

  method PerformDrop(fs: FileSystem, op: Op, ghost s: Simple) returns (reply: Reply)
    requires op.Drop? && WellFormed(op) && Stands(fs, s)
    modifies fs`pages, fs.files, fs.pfa`freePages, fs.pfa`live, fs.pfa.bitmap
    ensures reply == Answer(s, op) && Stands(fs, Apply(s, op))
  {
    hide Allocator.Free, View, Sound, AllocStep, FreeStep, FileSystem.Allocated;
    if !fs.pfa.ready { fs.NoPagesNoFiles(); }
    var ok := fs.Remove(op.name, op.nameLen);
    reply := Done(ok);
  }

  // ----- the whole way

  /** Every file's page is memory the boot loader lists as available, past the kernel and the bitmap. */
  ghost predicate PagesAreSafe(fs: FileSystem, rs: seq<Region>, kend: nat)
    reads fs, fs.files, fs.pfa
  {
    forall i :: 0 <= i < fs.files.Length && fs.files[i].used ==>
      && kend <= fs.files[i].page && fs.pfa.bitmapPhys + fs.pfa.bitmapBytes <= fs.files[i].page
      && AvailablePage(rs, fs.files[i].page / PAGE)
  }

  function KernelEnd(kernelEnd: u64, bootstrapEnd: u64): u64 { if bootstrapEnd > kernelEnd then bootstrapEnd else kernelEnd }

  /** The block can be walked, its regions used without a sum leaving 64 bits, and their memory is there. */
  ghost predicate Bootable(info: u64, m: seq<u8>, kend: u64, memory: map<nat, seq<byte>>)
  {
    && (info != 0 ==> |m| >= 4 && |m| == Max(4, TotalSize(m)) && info + |m| < TWO64)
    && (info != 0 && TotalSize(m) >= 16 ==> Unwrapped(info, m))
    && (forall a :: a in memory ==> |memory[a]| == PAGE)
    && NoWrap(EntriesOf(Listed(info, m)), kend, BitmapBytes(EntriesOf(Listed(info, m))))
    && forall p: nat :: AvailablePage(Listed(info, m), p) ==> p * PAGE in memory
  }

  /** Record the memory map of the block. */
  method LoadMap(info: u64, m: seq<u8>) returns (found: bool, mmap: seq<Entry>)
    requires info != 0 ==> |m| >= 4 && |m| == Max(4, TotalSize(m)) && info + |m| < TWO64
    requires info != 0 && TotalSize(m) >= 16 ==> Unwrapped(info, m)
    ensures mmap == EntriesOf(Listed(info, m)) && (found <==> mmap != [])
  {
    hide EntriesOf, DecodedAll, Regions;
    var loader := new Loader();
    found := loader.InitMultiboot(info, m);
    mmap := loader.mmapEntries[..loader.mmapCount];
    EntriesAreDecoded(mmap);
  }

  /** Boot: the allocator is set up if there is a memory map, and the filesystem is empty. */
  method Start(info: u64, m: seq<u8>, kernelEnd: u64, bootstrapEnd: u64, memory: map<nat, seq<byte>>) returns (fs: FileSystem)
    requires Bootable(info, m, KernelEnd(kernelEnd, bootstrapEnd), memory)
    ensures fresh(fs) && fresh(fs.files) && fresh(fs.pfa) && fresh(fs.pfa.bitmap) && fs.Valid() && fs.Files() == map[]
    ensures Grounded(fs.pfa, Listed(info, m), KernelEnd(kernelEnd, bootstrapEnd))
    ensures Spare(fs.pfa) == FirstSpare(Listed(info, m), KernelEnd(kernelEnd, bootstrapEnd))
  {
    hide FileSystem.Valid, Allocator.Disciplined;
    var pfa := SetUp(info, m, kernelEnd, bootstrapEnd, memory);
    fs := new FileSystem(pfa, memory);
    FullNames(fs);
    fs.Init();
  }

  /** The allocator after booting. */
  method SetUp(info: u64, m: seq<u8>, kernelEnd: u64, bootstrapEnd: u64, memory: map<nat, seq<byte>>) returns (pfa: Allocator)
    requires Bootable(info, m, KernelEnd(kernelEnd, bootstrapEnd), memory)
    ensures fresh(pfa) && fresh(pfa.bitmap) && pfa.Valid()
    ensures if pfa.ready then pfa.Disciplined() && forall p :: p in pfa.managed ==> p * PAGE in memory else pfa.live == {}
    ensures Grounded(pfa, Listed(info, m), KernelEnd(kernelEnd, bootstrapEnd))
    ensures Spare(pfa) == FirstSpare(Listed(info, m), KernelEnd(kernelEnd, bootstrapEnd))
  {
    hide EntriesOf, Listed, TotalPages, BitmapBytes, NoWrap, InMemory, Unwrapped, Placed, InitiallyFree, PlaceOf, ReservedEnd, BitmapEnd,
         AvailablePage, Allocator.Free, Usable;
    var found, mmap := LoadMap(info, m);
    pfa := new Allocator();
    if found {
      var ok := pfa.InitPFA(mmap, kernelEnd, bootstrapEnd);
    } else {
      NoMapNoPages();
    }
    if pfa.ready { ManagedIsThere(Listed(info, m), pfa.scanStart * PAGE, memory); }
  }

  /** The allocator manages the pages of the listed regions past its bitmap, which lies past the kernel. */
  ghost predicate Grounded(pfa: Allocator, rs: seq<Region>, kend: u64)
    reads pfa`ready, pfa`managed, pfa`scanStart, pfa`bitmapPhys, pfa`bitmapBytes
  {
    pfa.ready ==>
      && pfa.managed == Usable(EntriesOf(rs), pfa.scanStart * PAGE)
      && Placed(EntriesOf(rs), kend, pfa.bitmapBytes, pfa.bitmapPhys) && pfa.bitmapPhys + pfa.bitmapBytes <= pfa.scanStart * PAGE
  }

  lemma FullNames(fs: FileSystem)
    requires fs.Valid()
    ensures fs.files.Length == MemFs.MAX_FILES && Apart(fs.files, fs.pfa.bitmap) && fs.Allocated(fs.pages.Keys)
    ensures forall i :: 0 <= i < MemFs.MAX_FILES ==> |fs.files[i].name| == MAX_NAME
    ensures forall a :: a in fs.pages ==> |fs.pages[a]| == PAGE
  {
    hide FileSystem.Allocated;
    forall i | 0 <= i < MemFs.MAX_FILES ensures |fs.files[i].name| == MAX_NAME { assert Fits(fs.files[..][i]); }
  }

  lemma NoMapNoPages()
    ensures TotalPages([]) == 0
  {}

  lemma ManagedIsThere(rs: seq<Region>, end: nat, memory: map<nat, seq<byte>>)
    requires forall p: nat :: AvailablePage(rs, p) ==> p * PAGE in memory
    ensures forall p :: p in Usable(EntriesOf(rs), end) ==> p * PAGE in memory
  {
    hide EntriesOf, InMemory, AvailablePage, TotalPages;
    forall p | p in Usable(EntriesOf(rs), end) ensures p * PAGE in memory { InMemoryIsListed(rs, p); }
  }

  lemma SafePages(fs: FileSystem, rs: seq<Region>, kend: u64)
    requires fs.Valid() && fs.pfa.ready && Grounded(fs.pfa, rs, kend)
    ensures PagesAreSafe(fs, rs, kend)
  {
    hide EntriesOf, InMemory, AvailablePage, TotalPages, Usable, Placed, FileSystem.Valid;
    forall i | 0 <= i < fs.files.Length && fs.files[i].used
      ensures kend <= fs.files[i].page && fs.pfa.bitmapPhys + fs.pfa.bitmapBytes <= fs.files[i].page
      ensures AvailablePage(rs, fs.files[i].page / PAGE)
    {
      FullNames(fs);
      fs.FilePagesAreSafe(EntriesOf(rs), kend, i);
      InMemoryIsListed(rs, fs.files[i].page / PAGE);
    }
  }

  // ----- what is written is what is read

  /** Every answer is the simple filesystem's. */
  ghost predicate Answered(start: Simple, ops: seq<Op>, replies: seq<Reply>)
    requires forall i :: 0 <= i < |ops| ==> WellFormed(ops[i])
  {
    |replies| == |ops| && forall i :: 0 <= i < |ops| ==> replies[i] == Answer(StateAfter(start, ops[..i]), ops[i])
  }

  /** The operation can change what is stored under this name. */
  predicate Touches(op: Op, key: seq<byte>)
    requires WellFormed(op)
  {
    !op.Get? && GoodName(op) && Key(op) == key
  }

  /** Operation `i` wrote the file that operation `j` reads, and none between wrote or removed it. */
  predicate Wrote(ops: seq<Op>, replies: seq<Reply>, i: nat, j: nat)
    requires i < j < |ops| && |replies| == |ops| && forall k :: 0 <= k < |ops| ==> WellFormed(ops[k])
    ensures Wrote(ops, replies, i, j) ==> ops[i].Put?
  {
    && ops[i].Put? && ops[j].Get? && GoodName(ops[i]) && GoodName(ops[j]) && Key(ops[i]) == Key(ops[j])
    && replies[i] == Done(true) && forall k :: i < k < j ==> !Touches(ops[k], Key(ops[i]))
  }

  /** The data a write stores: all of it up to a page, and a page of it beyond that. */
  function Stored(op: Op): seq<byte>
    requires WellFormed(op) && op.Put?
  {
    op.data[..Min(op.len, 4096)]
  }

  lemma PutStores(s: Simple, op: Op)
    requires WellFormed(op) && op.Put? && GoodName(op) && Answer(s, op) == Done(true)
    ensures Key(op) in Apply(s, op).files && Apply(s, op).files[Key(op)] == Stored(op)
  {}

  lemma UntouchedStays(s: Simple, op: Op, key: seq<byte>)
    requires WellFormed(op) && !Touches(op, key)
    ensures key in Apply(s, op).files <==> key in s.files
    ensures key in s.files ==> Apply(s, op).files[key] == s.files[key]
  {}

  lemma {:induction false} WrittenStays(start: Simple, ops: seq<Op>, i: nat, j: nat)
    requires i < j <= |ops| && (forall k :: 0 <= k < |ops| ==> WellFormed(ops[k])) && WellFormed(ops[i])
    requires ops[i].Put? && GoodName(ops[i]) && Answer(StateAfter(start, ops[..i]), ops[i]) == Done(true)
    requires forall k :: i < k < j ==> !Touches(ops[k], Key(ops[i]))
    ensures var s := StateAfter(start, ops[..j]);
            Key(ops[i]) in s.files && s.files[Key(ops[i])] == Stored(ops[i])
    decreases j
  {
    hide StateAfter, Apply, Answer, Touches;
    StateStep(start, ops, j - 1);
    if j == i + 1 {
      PutStores(StateAfter(start, ops[..i]), ops[i]);
    } else {
      WrittenStays(start, ops, i, j - 1);
      UntouchedStays(StateAfter(start, ops[..j - 1]), ops[j - 1], Key(ops[i]));
    }
  }

  /** Where a file comes from. */
  lemma {:induction false} Origin(start: Simple, ops: seq<Op>, n: nat, key: seq<byte>) returns (i: nat)
    requires n <= |ops| && (forall k :: 0 <= k < |ops| ==> WellFormed(ops[k])) && start.files == map[]
    requires key in StateAfter(start, ops[..n]).files
    ensures i < n && ops[i].Put? && WellFormed(ops[i]) && GoodName(ops[i]) && Key(ops[i]) == key
    ensures Answer(StateAfter(start, ops[..i]), ops[i]) == Done(true) && forall k :: i < k < n ==> !Touches(ops[k], key)
    decreases n
  {
    hide StateAfter, Apply, Answer, Touches;
    if n == 0 {
      StateBefore(start, ops);
      assert false;
    } else {
      StateStep(start, ops, n - 1);
      var s := StateAfter(start, ops[..n - 1]);
      if Touches(ops[n - 1], key) {
        i := n - 1;
        PresentWasPut(s, ops[n - 1], key);
      } else {
        UntouchedStays(s, ops[n - 1], key);
        i := Origin(start, ops, n - 1, key);
      }
    }
  }

  lemma PresentWasPut(s: Simple, op: Op, key: seq<byte>)
    requires WellFormed(op) && Touches(op, key) && key in Apply(s, op).files
    ensures op.Put? && GoodName(op) && Key(op) == key && Answer(s, op) == Done(true)
  {}

  /** Every read gives the last write to that name, and nothing if there was none or it was removed since. */
  lemma ReadsAreWrites(start: Simple, ops: seq<Op>, replies: seq<Reply>)
    requires (forall k :: 0 <= k < |ops| ==> WellFormed(ops[k])) && start.files == map[] && Answered(start, ops, replies)
    ensures forall i, j :: 0 <= i < j < |ops| && Wrote(ops, replies, i, j) ==> replies[j] == Got(Some(Stored(ops[i])))
    ensures forall j :: 0 <= j < |ops| && replies[j].Got? && replies[j].data.Some? ==> exists i :: 0 <= i < j && Wrote(ops, replies, i, j)
  {
    hide StateAfter, Apply, Touches;
    forall i, j | 0 <= i < j < |ops| && Wrote(ops, replies, i, j) ensures replies[j] == Got(Some(Stored(ops[i]))) {
      WrittenStays(start, ops, i, j);
    }
    forall j | 0 <= j < |ops| && replies[j].Got? && replies[j].data.Some?
      ensures exists i :: 0 <= i < j && Wrote(ops, replies, i, j)
    {
      var i := Origin(start, ops, j, Key(ops[j]));
      assert Wrote(ops, replies, i, j);
    }
  }

  /** From any bootable block on, every sequence of file operations is answered as by the simple
      filesystem, which starts empty with as many pages as the listed regions leave, and at the end every
      file is in memory the boot loader listed as available. */
  method Session(info: u64, m: seq<u8>, kernelEnd: u64, bootstrapEnd: u64, memory: map<nat, seq<byte>>, ops: seq<Op>)
      returns (fs: FileSystem, replies: seq<Reply>, ghost start: Simple)
    requires Bootable(info, m, KernelEnd(kernelEnd, bootstrapEnd), memory)
    requires forall i :: 0 <= i < |ops| ==> WellFormed(ops[i])
    ensures start == Simple(map[], FirstSpare(Listed(info, m), KernelEnd(kernelEnd, bootstrapEnd)))
    ensures Answered(start, ops, replies) && Stands(fs, StateAfter(start, ops))
    ensures forall i, j :: 0 <= i < j < |ops| && Wrote(ops, replies, i, j) ==> replies[j] == Got(Some(Stored(ops[i])))
    ensures forall j :: 0 <= j < |ops| && replies[j].Got? && replies[j].data.Some? ==> exists i :: 0 <= i < j && Wrote(ops, replies, i, j)
    ensures fs.pfa.ready ==> PagesAreSafe(fs, Listed(info, m), KernelEnd(kernelEnd, bootstrapEnd))
  {
    hide Bootable, Listed, Apply, Answer, PagesAreSafe, Stands, Grounded, FirstSpare, KernelEnd, Wrote, Stored, StateAfter;
    fs := Start(info, m, kernelEnd, bootstrapEnd, memory);
    start := Simple(map[], Spare(fs.pfa));
    StandsEmpty(fs);
    replies := Serve(fs, ops, start, Listed(info, m), KernelEnd(kernelEnd, bootstrapEnd));
    ReadsAreWrites(start, ops, replies);
  }

  /** Any sequence of operations, from any state on. */
  method Serve(fs: FileSystem, ops: seq<Op>, ghost start: Simple, ghost rs: seq<Region>, ghost kend: u64) returns (replies: seq<Reply>)
    requires Stands(fs, start) && Grounded(fs.pfa, rs, kend) && forall i :: 0 <= i < |ops| ==> WellFormed(ops[i])
    modifies fs`pages, fs.files, fs.pfa`freePages, fs.pfa`live, fs.pfa.bitmap
    ensures Answered(start, ops, replies) && Stands(fs, StateAfter(start, ops)) && (fs.pfa.ready ==> PagesAreSafe(fs, rs, kend))
  {
    hide Apply, Answer, PagesAreSafe, Stands, Grounded, StateAfter, WellFormed;
    replies := [];
    StateBefore(start, ops);
    for i := 0 to |ops|
      invariant |replies| == i && Stands(fs, StateAfter(start, ops[..i])) && Grounded(fs.pfa, rs, kend)
      invariant forall j :: 0 <= j < i ==> replies[j] == Answer(StateAfter(start, ops[..j]), ops[j])
    {
      var reply := Perform(fs, ops[i], StateAfter(start, ops[..i]));
      replies := replies + [reply];
      StateStep(start, ops, i);
    }
    if fs.pfa.ready {
      StandsIsValid(fs, StateAfter(start, ops));
      SafePages(fs, rs, kend);
    }
  }

  lemma StateBefore(start: Simple, ops: seq<Op>)
    requires forall i :: 0 <= i < |ops| ==> WellFormed(ops[i])
    ensures StateAfter(start, ops[..0]) == start && ops[..|ops|] == ops
  {}

  lemma StateStep(start: Simple, ops: seq<Op>, i: nat)
    requires i < |ops| && forall j :: 0 <= j < |ops| ==> WellFormed(ops[j])
    ensures StateAfter(start, ops[..i + 1]) == Apply(StateAfter(start, ops[..i]), ops[i])
  {
    assert ops[..i + 1][..i] == ops[..i];
  }

  lemma StandsEmpty(fs: FileSystem)
    requires fs.Valid() && fs.Files() == map[]
    ensures Stands(fs, Simple(map[], Spare(fs.pfa)))
  {}

  lemma StandsIsValid(fs: FileSystem, s: Simple)
    requires Stands(fs, s)
    ensures fs.Valid()
  {}

  /** The pages to spare after booting: those wholly inside a listed region, past the bitmap. */
  ghost function FirstSpare(rs: seq<Region>, kend: u64): nat
  {
    var mmap := EntriesOf(rs);
    if TotalPages(mmap) == 0 then 0 else |InitiallyFree(mmap, kend)|
  }
}
