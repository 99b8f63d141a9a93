/** The physical page allocator: one bit per page, set while the page is in use. */
module PageAllocator {
  import opened Basics
  import opened MemoryMap

  // ----- bits of a byte

  function Bit(k: nat): bv8
    requires k < 8
  {
    match k case 0 => 1 case 1 => 2 case 2 => 4 case 3 => 8
    case 4 => 16 case 5 => 32 case 6 => 64 case _ => 128
  }

  function Or(b: bv8, m: bv8): bv8 { b | m }

  function Clear(b: bv8, m: bv8): bv8 { b & !m }

  predicate Test(b: bv8, k: nat)
    requires k < 8
  {
    b & Bit(k) != 0
  }

  lemma BitOps(b: bv8, j: nat, k: nat)
    requires j < 8 && k < 8
    ensures Test(Or(b, Bit(j)), k) <==> (j == k || Test(b, k))
    ensures Test(Clear(b, Bit(j)), k) <==> (j != k && Test(b, k))
    ensures Test(0xFF, k)
  {}

  // ----- sets of pages

  /** The pages below `total` whose address lies in [start, end). */
  ghost function PagesFrom(start: nat, end: nat, total: nat): set<nat>
  {
    set p: nat | p < total && start <= p * PAGE < end
  }

  lemma PagesStep(start: nat, addr: nat, total: nat)
    requires start <= addr && addr % PAGE == 0 && addr / PAGE < total
    ensures PagesFrom(start, addr + PAGE, total) == PagesFrom(start, addr, total) + {addr / PAGE}
    ensures addr / PAGE !in PagesFrom(start, addr, total)
  {}

  lemma PagesEmpty(start: nat, end: nat, total: nat)
    requires end <= start
    ensures PagesFrom(start, end, total) == {}
  {}

  lemma Aligned(v: u64)
    ensures AlignUp(v) % PAGE == 0 && AlignDown(v) % PAGE == 0
  {}

  lemma PagesDone(start: nat, addr: nat, end: nat, total: nat)
    requires start <= addr && addr % PAGE == 0 && addr / PAGE >= total
    ensures PagesFrom(start, addr, total) == PagesFrom(start, addr + end, total)
  {}

  /** Page `p` lies wholly inside an available region. */
  predicate Inside(e: Entry, p: nat)
  {
    Available(e) && Base(e) <= p * PAGE && (p + 1) * PAGE <= Base(e) + Size(e)
  }

  ghost predicate InMemory(mmap: seq<Entry>, p: nat)
  {
    exists i :: 0 <= i < |mmap| && Inside(mmap[i], p)
  }

  /** The highest end among the available regions, 0 if there is none. */
  function MaxEnd(mmap: seq<Entry>): (m: u64)
    ensures forall i :: 0 <= i < |mmap| && Available(mmap[i]) ==> End(mmap[i]) <= m
    ensures m == 0 || exists i :: 0 <= i < |mmap| && Available(mmap[i]) && End(mmap[i]) == m
  {
    if mmap == [] then 0 else
    var rest, e := MaxEnd(mmap[..|mmap| - 1]), mmap[|mmap| - 1];
    if Available(e) && End(e) > rest then End(e) else rest
  }

  function TotalPages(mmap: seq<Entry>): (n: nat)
    ensures n * PAGE < TWO64
  {
    Wrap(MaxEnd(mmap) + (PAGE - 1)) / PAGE
  }

  function BitmapBytes(mmap: seq<Entry>): (n: u64)
    ensures TotalPages(mmap) <= 8 * n
  {
    (TotalPages(mmap) + 7) / 8
  }

  /** No more pages than reach the highest end, and no more bytes than hold a bit for each. */
  lemma SizesAreLeast(mmap: seq<Entry>)
    requires MaxEnd(mmap) + (PAGE - 1) < TWO64
    ensures MaxEnd(mmap) <= TotalPages(mmap) * PAGE < MaxEnd(mmap) + PAGE
    ensures TotalPages(mmap) <= 8 * BitmapBytes(mmap) < TotalPages(mmap) + 8
  {
    hide MaxEnd, Wrap;
    WrapNone(MaxEnd(mmap) + (PAGE - 1));
  }

  function BitmapEnd(at: u64, bytes: u64): u64
  {
    Wrap(at + AlignUp(bytes))
  }

  /** No sum of the initialisation leaves 64 bits: neither region ends rounded to pages, nor the
      end of a bitmap of `bytes` placed after the kernel or at the start of a region. */
  ghost predicate NoWrap(mmap: seq<Entry>, kend: u64, bytes: u64)
  {
    && kend + 2 * (PAGE - 1) + bytes < TWO64
    && forall i :: 0 <= i < |mmap| && Available(mmap[i]) ==>
         && Base(mmap[i]) + Size(mmap[i]) + (PAGE - 1) < TWO64
         && Base(mmap[i]) + 2 * (PAGE - 1) + bytes < TWO64
  }

  method MaxAvailableEnd(mmap: seq<Entry>) returns (maxEnd: u64)
    ensures maxEnd == MaxEnd(mmap)
  {
    maxEnd := 0;
    for i := 0 to |mmap|
      invariant maxEnd == MaxEnd(mmap[..i])
    {
      assert mmap[..i + 1][..i] == mmap[..i];
      var e := mmap[i];
      if Available(e) && End(e) > maxEnd {
        maxEnd := End(e);
      }
    }
    assert mmap[..|mmap|] == mmap;
  }

  // ----- which pages initialisation frees

  /** The free loop visits page `p` for region `e`. */
  predicate Visited(e: Entry, p: nat)
  {
    Available(e) && Base(e) < End(e) && AlignUp(Base(e)) <= p * PAGE < AlignDown(End(e))
  }

  ghost predicate VisitedBy(mmap: seq<Entry>, p: nat)
  {
    exists i :: 0 <= i < |mmap| && Visited(mmap[i], p)
  }

  ghost function Freed(mmap: seq<Entry>, total: nat): set<nat>
  {
    set p: nat | p < total && VisitedBy(mmap, p)
  }

  /** The pages at or above `end` wholly inside one available region. */
  ghost function Usable(mmap: seq<Entry>, end: nat): set<nat>
  {
    set p: nat | p < TotalPages(mmap) && end <= p * PAGE && InMemory(mmap, p)
  }

  lemma VisitedIsInside(e: Entry, p: nat)
    requires Available(e) ==> Base(e) + Size(e) + (PAGE - 1) < TWO64
    ensures Visited(e, p) <==> Inside(e, p)
  {
    if Available(e) {
      AlignUpLeast(Base(e));
      AlignDownGreatest(End(e));
      assert (p + 1) * PAGE <= End(e) <==> (p + 1) * PAGE <= AlignDown(End(e));
    }
  }

  /** The bound on page numbers shuts out no page of available memory. */
  lemma InMemoryIsManaged(mmap: seq<Entry>, kend: u64, p: nat)
    requires NoWrap(mmap, kend, BitmapBytes(mmap)) && InMemory(mmap, p)
    ensures p < TotalPages(mmap)
  {
    hide MaxEnd, BitmapBytes, Inside, Base, Size, End, Available;
    var i :| 0 <= i < |mmap| && Inside(mmap[i], p);
    MaxEndRounds(mmap, kend);
    InsideBelowEnd(mmap[i], p);
    BelowRounded(p, End(mmap[i]), MaxEnd(mmap));
  }

  lemma InsideBelowEnd(e: Entry, p: nat)
    requires Inside(e, p) && (Available(e) ==> Base(e) + Size(e) < TWO64)
    ensures (p + 1) * PAGE <= End(e) && Available(e)
  {
    EndExact(e);
  }

  lemma EndExact(e: Entry)
    requires Base(e) + Size(e) < TWO64
    ensures End(e) == Base(e) + Size(e)
  {}

  lemma BelowRounded(p: nat, end: nat, m: nat)
    requires (p + 1) * PAGE <= end <= m
    ensures p < (m + (PAGE - 1)) / PAGE
  {}

  lemma MaxEndRounds(mmap: seq<Entry>, kend: u64)
    requires NoWrap(mmap, kend, BitmapBytes(mmap))
    ensures MaxEnd(mmap) + (PAGE - 1) < TWO64
  {
    hide MaxEnd, BitmapBytes;
    var m := MaxEnd(mmap);
    if m != 0 {
      var j :| 0 <= j < |mmap| && Available(mmap[j]) && End(mmap[j]) == m;
    }
  }

  lemma FreedIsUsable(mmap: seq<Entry>, kend: u64, end: u64)
    requires NoWrap(mmap, kend, BitmapBytes(mmap)) && end % PAGE == 0 && end + PAGE <= TWO64
    ensures Freed(mmap, TotalPages(mmap)) - PagesFrom(0, AlignUp(end), TotalPages(mmap)) == Usable(mmap, end)
  {
    hide MaxEnd, Visited, Inside, TotalPages;
    AlignUpLeast(end);
    assert AlignUp(end) == end;
    forall p: nat, i | 0 <= i < |mmap| ensures Visited(mmap[i], p) <==> Inside(mmap[i], p) {
      VisitedIsInside(mmap[i], p);
    }
  }

  /** The bitmap lies page-aligned past the kernel, and where it should be. */
  ghost predicate Placed(mmap: seq<Entry>, kend: u64, bytes: u64, at: u64)
  {
    && at % PAGE == 0 && kend <= at && at + (PAGE - 1) + bytes < TWO64
    && (at == AlignUp(kend) || exists i :: 0 <= i < |mmap| && Holds(mmap[i], bytes, at))
    && (0 < bytes ==> Chosen(mmap, kend, bytes, at))
  }

  /** The bitmap can go to this page boundary: past the kernel, wholly inside an available region. */
  predicate Room(e: Entry, kend: nat, bytes: nat, at: nat)
  {
    Available(e) && at % PAGE == 0 && kend <= at && Base(e) <= at && at + bytes <= Base(e) + Size(e)
  }

  ghost predicate HasRoom(e: Entry, kend: nat, bytes: nat)
  {
    exists at: nat :: Room(e, kend, bytes, at)
  }

  /** The lowest boundary with room in the first region that has any. */
  ghost predicate FirstRoom(mmap: seq<Entry>, kend: nat, bytes: nat, at: nat, k: nat)
    requires k < |mmap|
  {
    && Room(mmap[k], kend, bytes, at) && (forall a: nat :: Room(mmap[k], kend, bytes, a) ==> at <= a)
    && forall j :: 0 <= j < k ==> !HasRoom(mmap[j], kend, bytes)
  }

  /** In the first region with room, as low as it goes; only if no region has any, at the first boundary past the
      kernel. */
  ghost predicate Chosen(mmap: seq<Entry>, kend: nat, bytes: nat, at: nat)
  {
    if exists k :: 0 <= k < |mmap| && HasRoom(mmap[k], kend, bytes)
    then exists k :: 0 <= k < |mmap| && FirstRoom(mmap, kend, bytes, at, k)
    else at % PAGE == 0 && kend <= at < kend + PAGE
  }

  predicate Holds(e: Entry, bytes: u64, at: u64)
  {
    Available(e) && Base(e) <= at && at + bytes <= Base(e) + Size(e)
  }

  /** Where the bitmap would start in a region: past the kernel, rounded up. */
  function Candidate(e: Entry, kend: u64): u64 { AlignUp(if Base(e) < kend then kend else Base(e)) }

  predicate Suits(e: Entry, kend: u64, bytes: u64)
  {
    Available(e) && End(e) > Base(e) && End(e) > kend && Wrap(Candidate(e, kend) + bytes) <= End(e)
  }

  /** The first region from `i` on that takes the bitmap, `|mmap|` if none does. */
  function FirstSuiting(mmap: seq<Entry>, kend: u64, bytes: u64, i: nat): (k: nat)
    requires i <= |mmap|
    ensures i <= k <= |mmap| && (k < |mmap| ==> Suits(mmap[k], kend, bytes))
    ensures forall j :: i <= j < k ==> !Suits(mmap[j], kend, bytes)
    decreases |mmap| - i
  {
    if i == |mmap| || Suits(mmap[i], kend, bytes) then i else FirstSuiting(mmap, kend, bytes, i + 1)
  }

  /** Where the bitmap goes, for every memory map: into the first region that takes it, or else (and
      if that would be address 0) right after the kernel. */
  function PlaceOf(mmap: seq<Entry>, kend: u64, bytes: u64): u64
  {
    var k := FirstSuiting(mmap, kend, bytes, 0);
    if k < |mmap| && Candidate(mmap[k], kend) != 0 then Candidate(mmap[k], kend) else AlignUp(kend)
  }

  method PlaceBitmap(mmap: seq<Entry>, kend: u64, bytes: u64) returns (at: u64)
    ensures at == PlaceOf(mmap, kend, bytes)
    ensures NoWrap(mmap, kend, bytes) ==> Placed(mmap, kend, bytes, at) && (0 < bytes ==> Chosen(mmap, kend, bytes, at))
  {
    hide AlignUp, NoWrap, Wrap, Base, Size, End, Placed, Chosen;
    at := 0;
    for i := 0 to |mmap|
      invariant at == 0 && FirstSuiting(mmap, kend, bytes, 0) == FirstSuiting(mmap, kend, bytes, i)
    {
      var e := mmap[i];
      if Available(e) && End(e) > Base(e) && End(e) > kend {
        var start := if Base(e) < kend then kend else Base(e);
        start := AlignUp(start);
        if Wrap(start + bytes) <= End(e) {
          at := start;
          break;
        }
      }
    }
    if at == 0 {
      at := AlignUp(kend);
    }
    if NoWrap(mmap, kend, bytes) {
      PlaceIsGood(mmap, kend, bytes);
      if 0 < bytes { PlaceIsChosen(mmap, kend, bytes); }
    }
  }

  lemma PlaceIsGood(mmap: seq<Entry>, kend: u64, bytes: u64)
    requires NoWrap(mmap, kend, bytes)
    ensures Placed(mmap, kend, bytes, PlaceOf(mmap, kend, bytes))
  {
    hide AlignUp, Wrap, Base, Size, Suits, Chosen;
    var k := FirstSuiting(mmap, kend, bytes, 0);
    var q := AlignUpPages(kend);
    Multiple(q);
    if k < |mmap| {
      SuitsAvailable(mmap[k], kend, bytes);
      CandidateHolds(mmap[k], kend, bytes);
    }
    if 0 < bytes { PlaceIsChosen(mmap, kend, bytes); }
  }

  /** A region with room takes the bitmap, no higher than any boundary with room. */
  lemma RoomSuits(e: Entry, kend: u64, bytes: u64, at: nat)
    requires Room(e, kend, bytes, at) && 0 < bytes && kend + 2 * (PAGE - 1) + bytes < TWO64
    requires Base(e) + Size(e) + (PAGE - 1) < TWO64 && Base(e) + 2 * (PAGE - 1) + bytes < TWO64
    ensures Suits(e, kend, bytes) && Candidate(e, kend) <= at
  {
    hide AlignUp, Wrap, Base, Size;
    var low := if Base(e) < kend then kend else Base(e);
    var q := AlignUpPages(low);
    assert at == at / PAGE * PAGE;
    assert q <= at / PAGE;
    WrapNone(Base(e) + Size(e));
    WrapNone(q * PAGE + bytes);
  }

  /** A region the bitmap does not suit has no room for it. */
  lemma NoRoom(e: Entry, kend: u64, bytes: u64)
    requires 0 < bytes && kend + 2 * (PAGE - 1) + bytes < TWO64 && !Suits(e, kend, bytes)
    requires Available(e) ==> Base(e) + Size(e) + (PAGE - 1) < TWO64 && Base(e) + 2 * (PAGE - 1) + bytes < TWO64
    ensures !HasRoom(e, kend, bytes)
  {
    hide Suits, Base, Size;
    forall at: nat | Room(e, kend, bytes, at) ensures false { RoomSuits(e, kend, bytes, at); }
  }

  lemma PlaceIsChosen(mmap: seq<Entry>, kend: u64, bytes: u64)
    requires NoWrap(mmap, kend, bytes) && 0 < bytes
    ensures Chosen(mmap, kend, bytes, PlaceOf(mmap, kend, bytes))
  {
    hide AlignUp, Wrap, Base, Size, Suits, Candidate, Room, HasRoom;
    var k := FirstSuiting(mmap, kend, bytes, 0);
    forall j | 0 <= j < k ensures !HasRoom(mmap[j], kend, bytes) { NoRoom(mmap[j], kend, bytes); }
    if k < |mmap| {
      SuitsAvailable(mmap[k], kend, bytes);
      LowestRoom(mmap[k], kend, bytes);
      assert FirstRoom(mmap, kend, bytes, PlaceOf(mmap, kend, bytes), k);
    } else {
      var q := AlignUpPages(kend);
      Multiple(q);
    }
  }

  lemma LowestRoom(e: Entry, kend: u64, bytes: u64)
    requires Suits(e, kend, bytes) && 0 < bytes && kend + 2 * (PAGE - 1) + bytes < TWO64
    requires Base(e) + Size(e) + (PAGE - 1) < TWO64 && Base(e) + 2 * (PAGE - 1) + bytes < TWO64
    ensures var at := Candidate(e, kend);
            && Room(e, kend, bytes, at) && HasRoom(e, kend, bytes) && (forall a: nat :: Room(e, kend, bytes, a) ==> at <= a)
            && (at == 0 ==> AlignUp(kend) == at)
  {
    hide AlignUp, Wrap, Base, Size, Suits;
    CandidateHolds(e, kend, bytes);
    forall a: nat | Room(e, kend, bytes, a) ensures Candidate(e, kend) <= a { RoomSuits(e, kend, bytes, a); }
    var q := AlignUpPages(if Base(e) < kend then kend else Base(e));
    SuitsAvailable(e, kend, bytes);
    assert Room(e, kend, bytes, Candidate(e, kend));
  }

  lemma SuitsAvailable(e: Entry, kend: u64, bytes: u64)
    requires Suits(e, kend, bytes)
    ensures Available(e)
  {}

  lemma CandidateHolds(e: Entry, kend: u64, bytes: u64)
    requires Suits(e, kend, bytes) && kend + 2 * (PAGE - 1) + bytes < TWO64
    requires Base(e) + Size(e) + (PAGE - 1) < TWO64 && Base(e) + 2 * (PAGE - 1) + bytes < TWO64
    ensures var at := Candidate(e, kend);
            Holds(e, bytes, at) && at % PAGE == 0 && kend <= at && at + (PAGE - 1) + bytes < TWO64
  {
    hide AlignUp, Wrap, Base, Size;
    var q := AlignUpPages(if Base(e) < kend then kend else Base(e));
    Multiple(q);
    WrapNone(Base(e) + Size(e));
    WrapNone(q * PAGE + bytes);
  }

  /** The end of the pages kept for the bitmap, as the 64-bit sums give it. */
  function ReservedEnd(mmap: seq<Entry>, kend: u64): u64
  {
    var bytes := BitmapBytes(mmap);
    Wrap(PlaceOf(mmap, kend, bytes) + AlignUp(bytes) / PAGE * PAGE)
  }

  /** The pages left free, for every memory map: those the free loop visits, less those below the end
      of the bitmap. */
  ghost function InitiallyFree(mmap: seq<Entry>, kend: u64): set<nat>
  {
    var end := ReservedEnd(mmap, kend);
    Freed(mmap, TotalPages(mmap)) - if end == 0 then {} else PagesFrom(0, AlignUp(end), TotalPages(mmap))
  }

  class Allocator {
    var ready: bool
    var totalPages: nat
    var freePages: nat
    var bitmapPhys: u64
    var bitmapBytes: u64
    var scanStart: nat
    var bitmap: array<bv8>

    // the pages the allocator started with, and those handed out and not yet returned
    ghost var managed: set<nat>
    ghost var live: set<nat>

    /** The counter equals the number of clear bits. */
    ghost predicate Counted()
      reads this`totalPages, this`freePages, this`bitmap, bitmap
      ensures Counted() ==> totalPages <= 8 * bitmap.Length
    {
      totalPages <= 8 * bitmap.Length && freePages == |Free()|
    }

    ghost predicate Valid()
      reads this, bitmap
    {
      totalPages <= 8 * bitmap.Length && (ready ==> Counted())
    }

    /** Every managed page is either free or live, and none is page 0 or a reserved one. */
    ghost predicate Disciplined()
      reads this, bitmap
    {
      && Valid() && ready && 0 < scanStart && totalPages * PAGE < TWO64
      && Free() !! live && Free() + live == managed
      && (forall p :: p in managed ==> scanStart <= p < totalPages)
    }

    predicate Used(page: nat)
      reads this`bitmap, bitmap
      requires page < 8 * bitmap.Length
    {
      Test(bitmap[page / 8], page % 8)
    }

    /** The pages below `totalPages` whose bit is clear. */
    ghost function Free(): set<nat>
      reads this`totalPages, this`bitmap, bitmap
      requires totalPages <= 8 * bitmap.Length
    {
      set p: nat | p < totalPages && !Used(p)
    }

    constructor ()
      ensures Valid() && !ready && Free() == {} && live == {} && fresh(bitmap)
    {
      ready, totalPages, freePages, bitmapPhys, bitmapBytes, scanStart := false, 0, 0, 0, 0, 0;
      bitmap := new bv8[0];
      managed, live := {}, {};
    }

    lemma UsedIsNotFree(page: nat)
      requires page < totalPages <= 8 * bitmap.Length
      ensures page in Free() <==> !Used(page)
    {}

    method BitmapSet(page: nat, used: bool)
      requires page < totalPages <= 8 * bitmap.Length
      modifies bitmap
      ensures Free() == if used then old(Free()) - {page} else old(Free()) + {page}
    {
      hide Bit, Or, Clear, Test;
      var k := page % 8;
      if used {
        bitmap[page / 8] := Or(bitmap[page / 8], Bit(k));
      } else {
        bitmap[page / 8] := Clear(bitmap[page / 8], Bit(k));
      }
      forall q: nat | q < totalPages
        ensures Used(q) == if q == page then used else old(Used(q))
      {
        if q / 8 == page / 8 {
          BitOps(old(bitmap[page / 8]), k, q % 8);
        }
      }
    }

    /** Clear the bit of a page if it is set, counting it. */
    method Release(page: nat)
      requires Counted() && page < totalPages
      modifies this`freePages, bitmap
      ensures Counted() && Free() == old(Free()) + {page}
      ensures freePages == old(freePages) + if page in old(Free()) then 0 else 1
    {
      hide Used, Test;
      UsedIsNotFree(page);
      if Used(page) {
        BitmapSet(page, false);
        freePages := freePages + 1;
      }
    }

    /** Set the bit of a page if it is clear, counting it. */
    method Reserve(page: nat)
      requires Counted() && page < totalPages
      modifies this`freePages, bitmap
      ensures Counted() && Free() == old(Free()) - {page}
      ensures freePages + (if page in old(Free()) then 1 else 0) == old(freePages)
    {
      hide Used, Test;
      UsedIsNotFree(page);
      if !Used(page) {
        BitmapSet(page, true);
        if freePages > 0 {
          freePages := freePages - 1;
        }
      }
    }

    method MarkFreeRange(startPhys: u64, endPhys: u64)
      requires Counted()
      modifies this`freePages, bitmap
      ensures Counted()
      ensures Free() == if endPhys <= startPhys then old(Free())
                        else old(Free()) + PagesFrom(AlignUp(startPhys), AlignDown(endPhys), totalPages)
    {
      hide Free, PagesFrom, AlignUp, AlignDown, Counted;
      if endPhys <= startPhys {
        return;
      }
      Aligned(startPhys);
      Aligned(endPhys);
      var start, end := AlignUp(startPhys), AlignDown(endPhys);
      var addr := start;
      PagesEmpty(start, start, totalPages);
      while addr < end
        invariant Counted() && start <= addr && addr % PAGE == 0 && (addr == start || addr <= end)
        invariant Free() == old(Free()) + PagesFrom(start, addr, totalPages)
      {
        var page := addr / PAGE;
        if page >= totalPages {
          PagesDone(start, addr, end - addr, totalPages);
          return;
        }
        PagesStep(start, addr, totalPages);
        Release(page);
        addr := addr + PAGE;
      }
      if end < addr { PagesEmpty(start, end, totalPages); }
    }

    method MarkUsedRange(startPhys: u64, endPhys: u64)
      requires Counted()
      modifies this`freePages, bitmap
      ensures Counted()
      ensures Free() == if endPhys <= startPhys then old(Free())
                        else old(Free()) - PagesFrom(AlignDown(startPhys), AlignUp(endPhys), totalPages)
    {
      hide Free, PagesFrom, AlignUp, AlignDown, Counted;
      if endPhys <= startPhys {
        return;
      }
      Aligned(startPhys);
      Aligned(endPhys);
      var start, end := AlignDown(startPhys), AlignUp(endPhys);
      var addr := start;
      PagesEmpty(start, start, totalPages);
      while addr < end
        invariant Counted() && start <= addr && addr % PAGE == 0 && (addr == start || addr <= end)
        invariant Free() == old(Free()) - PagesFrom(start, addr, totalPages)
      {
        var page := addr / PAGE;
        if page >= totalPages {
          PagesDone(start, addr, end - addr, totalPages);
          return;
        }
        PagesStep(start, addr, totalPages);
        Reserve(page);
        addr := addr + PAGE;
      }
      if end < addr { PagesEmpty(start, end, totalPages); }
    }

    method FillUsed()
      requires totalPages <= 8 * bitmap.Length
      modifies bitmap
      ensures Free() == {}
    {
      hide Test;
      for i := 0 to bitmap.Length
        invariant forall j :: 0 <= j < i ==> bitmap[j] == 0xFF
      {
        bitmap[i] := 0xFF;
      }
      forall p: nat | p < totalPages ensures Used(p) { BitOps(0, 0, p % 8); }
    }

    method FreeAvailable(mmap: seq<Entry>)
      requires Counted() && Free() == {}
      modifies this`freePages, bitmap
      ensures Counted() && Free() == Freed(mmap, totalPages)
    {
      hide Free;
      for i := 0 to |mmap|
        invariant Counted() && Free() == Freed(mmap[..i], totalPages)
      {
        var e := mmap[i];
        FreedStep(mmap, i, totalPages);
        if Available(e) {
          MarkFreeRange(Base(e), End(e));
        }
      }
      assert mmap[..|mmap|] == mmap;
    }

    /** Fill a new bitmap: everything used, then available memory free, then low memory used. */
    method Populate(mmap: seq<Entry>, bitmapEnd: u64)
      requires totalPages <= 8 * bitmap.Length && freePages == 0
      modifies this`freePages, bitmap
      ensures Counted()
      ensures Free() == Freed(mmap, totalPages) - if bitmapEnd == 0 then {} else PagesFrom(0, AlignUp(bitmapEnd), totalPages)
    {
      hide Free, Freed, PagesFrom, AlignUp;
      FillUsed();
      FreeAvailable(mmap);
      MarkUsedRange(0, bitmapEnd);
      assert AlignDown(0) == 0;
    }

    method SetUpBitmap(mmap: seq<Entry>, kend: u64)
      requires freePages == 0 && totalPages == TotalPages(mmap) != 0 && bitmapBytes == BitmapBytes(mmap)
      modifies this
      ensures fresh(bitmap) && Initialised(mmap, kend) && Valid() && ready
    {
      hide Free, TotalPages, Placed, Freed, AlignUp, NoWrap, PagesFrom, Initialised, BitmapBytes, Counted, PlaceOf, InitiallyFree, Chosen;
      bitmapPhys := PlaceBitmap(mmap, kend, bitmapBytes);
      var bitmapPages := AlignUp(bitmapBytes) / PAGE;
      var bitmapEnd := Wrap(bitmapPhys + bitmapPages * PAGE);
      bitmap := new bv8[bitmapBytes];
      Populate(mmap, bitmapEnd);
      scanStart := bitmapEnd / PAGE;
      ready := true;
      managed, live := Free(), {};
      SetUpIsInitialised(mmap, kend, bitmapEnd);
    }

    lemma SetUpIsInitialised(mmap: seq<Entry>, kend: u64, end: u64)
      requires Counted() && ready && live == {} && managed == Free()
      requires totalPages == TotalPages(mmap) != 0 && bitmapBytes == BitmapBytes(mmap)
      requires bitmapPhys == PlaceOf(mmap, kend, bitmapBytes)
      requires NoWrap(mmap, kend, bitmapBytes) ==>
                 Placed(mmap, kend, bitmapBytes, bitmapPhys) && Chosen(mmap, kend, bitmapBytes, bitmapPhys)
      requires end == Wrap(bitmapPhys + AlignUp(bitmapBytes) / PAGE * PAGE) && scanStart == end / PAGE
      requires Free() == Freed(mmap, totalPages) - if end == 0 then {} else PagesFrom(0, AlignUp(end), totalPages)
      ensures Initialised(mmap, kend)
    {
      hide Free, TotalPages, Placed, Freed, Usable, AlignUp, NoWrap, PagesFrom, BitmapEnd, Chosen;
      if NoWrap(mmap, kend, bitmapBytes) {
        InitFacts(mmap, kend, bitmapPhys);
      }
    }

    method InitPFA(mmap: seq<Entry>, kernelEnd: u64, bootstrapEnd: u64) returns (ok: bool)
      requires Valid()
      modifies this
      ensures Valid() && ready == ok && (fresh(bitmap) || bitmap == old(bitmap))
      ensures ok <==> TotalPages(mmap) != 0
      ensures !ok ==> live == old(live) && managed == old(managed)
      ensures ok ==> Initialised(mmap, if bootstrapEnd > kernelEnd then bootstrapEnd else kernelEnd)
    {
      hide Free, MaxEnd, Initialised;
      ready := false;
      freePages := 0;
      var maxEnd := MaxAvailableEnd(mmap);
      if maxEnd == 0 { return false; }
      totalPages := Wrap(maxEnd + (PAGE - 1)) / PAGE;
      if totalPages == 0 { return false; }
      bitmapBytes := (totalPages + 7) / 8;
      SetUpBitmap(mmap, if bootstrapEnd > kernelEnd then bootstrapEnd else kernelEnd);
      return true;
    }

    /** What a successful initialisation guarantees: exactly which pages are free and where the bitmap
        is; and when no sum wraps, that the free pages are those at or above the end of the bitmap that
        lie wholly inside one available region. */
    ghost predicate Initialised(mmap: seq<Entry>, kend: u64)
      reads this, bitmap
    {
      && Counted() && totalPages == TotalPages(mmap) && bitmapBytes == BitmapBytes(mmap) && live == {}
      && bitmapPhys == PlaceOf(mmap, kend, bitmapBytes) && scanStart == ReservedEnd(mmap, kend) / PAGE
      && Free() == managed == InitiallyFree(mmap, kend)
      && (NoWrap(mmap, kend, bitmapBytes) ==>
            && Placed(mmap, kend, bitmapBytes, bitmapPhys) && Chosen(mmap, kend, bitmapBytes, bitmapPhys)
            && bitmapPhys + bitmapBytes <= scanStart * PAGE == BitmapEnd(bitmapPhys, bitmapBytes) < bitmapPhys + bitmapBytes + PAGE
            && Free() == managed == Usable(mmap, scanStart * PAGE)
            && Disciplined())
    }

    /** The lowest free page from `scanStart` on, or `totalPages`. */
    method FindFree() returns (page: nat)
      requires Counted()
      ensures scanStart <= page && (page < totalPages ==> page in Free())
      ensures forall p :: p in Free() && scanStart <= p ==> page <= p
    {
      hide Free, Used;
      page := scanStart;
      while page < totalPages
        invariant page == scanStart || page <= totalPages
        invariant forall p :: p in Free() && scanStart <= p ==> page <= p
      {
        UsedIsNotFree(page);
        if !Used(page) { return; }
        page := page + 1;
      }
    }

    /** The page is free and no free page from `scanStart` on comes before it. */
    ghost predicate Lowest(page: nat, free: set<nat>)
      reads this`scanStart
    {
      page in free && scanStart <= page && forall p :: p in free && scanStart <= p ==> page <= p
    }

    method AllocPage() returns (addr: nat)
      requires Valid()
      modifies this`freePages, this`live, bitmap
      ensures Valid()
      ensures addr == 0 && 0 < scanStart ==> Free() == old(Free()) && live == old(live) && freePages == old(freePages)
      ensures addr != 0 ==> freePages + 1 == old(freePages)
      ensures addr != 0 ==> addr % PAGE == 0 && Lowest(addr / PAGE, old(Free())) && Free() == old(Free()) - {addr / PAGE}
      ensures old(Disciplined()) ==> Disciplined() && (addr == 0 <==> old(freePages) == 0)
      ensures old(Disciplined()) && addr != 0 ==> AllocStep(old(Pool(Free(), live)), addr, Pool(Free(), live))
    {
      hide Free, Used, Counted;
      if !ready { return 0; }
      FreeBelow();
      CountZero();
      var page := FindFree();
      if page >= totalPages { return 0; }
      if Disciplined() { Moved(Free(), live, page); }
      Reserve(page);
      live := live + {page};
      return page * PAGE;
    }

    /** Free pages can be handed out: they are managed, not live, and not page 0. */
    lemma FreePagesAreManaged()
      requires Disciplined()
      ensures forall p :: p in Free() ==> p in managed && p !in live && 0 < p
      ensures forall p :: p in live ==> 0 < p && p * PAGE < TWO64
      ensures 0 < scanStart && (freePages == 0 <==> Free() == {})
    {
      hide Free;
      CountZero();
      assert forall p :: p in live ==> p in managed;
    }

    lemma CountZero()
      requires Counted()
      ensures freePages == 0 <==> Free() == {}
    {
      hide Free;
    }

    lemma FreeBelow()
      requires totalPages <= 8 * bitmap.Length
      ensures forall p :: p in Free() ==> p < totalPages
    {}

    method FreePage(addr: u64) returns (ok: bool)
      requires Valid()
      modifies this`freePages, this`live, bitmap
      ensures Valid()
      ensures ok <==> old(ready && addr % PAGE == 0 && scanStart <= addr / PAGE < totalPages && addr / PAGE !in Free())
      ensures Free() == if ok then old(Free()) + {addr / PAGE} else old(Free())
      ensures freePages == if ok then old(freePages) + 1 else old(freePages)
      ensures old(Disciplined()) && addr % PAGE == 0 && addr / PAGE in old(live) ==>
                ok && Disciplined() && FreeStep(old(Pool(Free(), live)), addr, Pool(Free(), live))
      ensures old(Disciplined()) ==> (Disciplined() <==> !ok || addr / PAGE in old(live))
    {
      hide Free, Used, Counted;
      if !ready || addr % PAGE != 0 { return false; }
      var page := addr / PAGE;
      if page < scanStart || page >= totalPages { return false; }
      UsedIsNotFree(page);
      if !Used(page) { return false; }
      if Disciplined() && page in live { Moved(live, Free(), page); }
      Release(page);
      assert page in Free();
      live := live - {page};
      return true;
    }

    /** Pages in the hands of clients never overlap the kernel or the bitmap, are never page 0,
        and lie in available memory. */
    lemma LivePagesAreSafe(mmap: seq<Entry>, kend: u64, page: nat)
      requires Disciplined() && managed == Usable(mmap, scanStart * PAGE) && page in live
      requires Placed(mmap, kend, bitmapBytes, bitmapPhys) && bitmapPhys + bitmapBytes <= scanStart * PAGE
      ensures page * PAGE != 0 && kend <= page * PAGE && bitmapPhys + bitmapBytes <= page * PAGE
      ensures InMemory(mmap, page) && page !in Free()
    {
      hide Free, TotalPages, InMemory;
      assert page in managed;
    }
  }

  lemma FreedStep(mmap: seq<Entry>, i: nat, total: nat)
    requires i < |mmap|
    ensures var e := mmap[i];
            Freed(mmap[..i + 1], total)
            == if Available(e) && Base(e) < End(e)
               then Freed(mmap[..i], total) + PagesFrom(AlignUp(Base(e)), AlignDown(End(e)), total)
               else Freed(mmap[..i], total)
  {
    hide AlignUp, AlignDown, Base, End;
    var s, t := mmap[..i], mmap[..i + 1];
    assert t == s + [mmap[i]];
    forall p: nat ensures VisitedBy(t, p) <==> VisitedBy(s, p) || Visited(mmap[i], p) {
      if j :| 0 <= j < |s| && Visited(s[j], p) { assert t[j] == s[j]; }
      if Visited(mmap[i], p) { assert t[i] == mmap[i]; }
    }
  }

  lemma PlacedEnd(mmap: seq<Entry>, kend: u64, bytes: u64, at: u64)
    requires Placed(mmap, kend, bytes, at) && 0 < bytes < TWO64 - PAGE
    ensures var end := BitmapEnd(at, bytes);
            end % PAGE == 0 && at + bytes <= end < at + bytes + PAGE && 0 < end && end + PAGE <= TWO64
            && end == Wrap(at + AlignUp(bytes) / PAGE * PAGE)
  {
    hide AlignUp, Wrap;
    var a := at / PAGE;
    var b := AlignUpPages(bytes);
    Multiple(b);
    Multiple(a + b);
    WrapNone((a + b) * PAGE);
    assert (a + b) * PAGE < TWO64;
  }

  lemma UsableBound(mmap: seq<Entry>, end: u64)
    requires end % PAGE == 0
    ensures forall p :: p in Usable(mmap, end) ==> end / PAGE <= p < TotalPages(mmap)
  {
    hide TotalPages, InMemory;
  }

  lemma InitFacts(mmap: seq<Entry>, kend: u64, at: u64)
    requires NoWrap(mmap, kend, BitmapBytes(mmap)) && Placed(mmap, kend, BitmapBytes(mmap), at)
    requires TotalPages(mmap) != 0
    ensures var bytes, total := BitmapBytes(mmap), TotalPages(mmap);
            var end := Wrap(at + AlignUp(bytes) / PAGE * PAGE);
            && end == BitmapEnd(at, bytes) && end == end / PAGE * PAGE && at + bytes <= end < at + bytes + PAGE && 0 < end / PAGE
            && Freed(mmap, total) - PagesFrom(0, AlignUp(end), total) == Usable(mmap, end)
            && (forall p :: p in Usable(mmap, end) ==> end / PAGE <= p < total)
  {
    hide TotalPages, Freed, Usable, PagesFrom, Placed;
    PlacedEnd(mmap, kend, BitmapBytes(mmap), at);
    var end := BitmapEnd(at, BitmapBytes(mmap));
    FreedIsUsable(mmap, kend, end);
    UsableBound(mmap, end);
  }

  // ----- every run of clients that return only what they were given

  datatype Pool = Pool(free: set<nat>, live: set<nat>)

  /** The lowest free page is handed out. */
  ghost predicate AllocStep(p: Pool, addr: nat, q: Pool)
  {
    var page := addr / PAGE;
    && addr % PAGE == 0 && page in p.free && (forall x :: x in p.free ==> page <= x)
    && q == Pool(p.free - {page}, p.live + {page})
  }

  /** A live page comes back. */
  ghost predicate FreeStep(p: Pool, addr: nat, q: Pool)
  {
    var page := addr / PAGE;
    addr % PAGE == 0 && page in p.live && q == Pool(p.free + {page}, p.live - {page})
  }

  ghost predicate PoolStep(p: Pool, q: Pool)
  {
    exists addr: nat :: AllocStep(p, addr, q) || FreeStep(p, addr, q)
  }

  ghost predicate PoolRun(run: seq<Pool>)
  {
    forall i :: 0 < i < |run| ==> PoolStep(run[i - 1], run[i])
  }

  lemma Moved(from: set<nat>, to: set<nat>, page: nat)
    requires from !! to && page in from
    ensures from - {page} !! to + {page} && (from - {page}) + (to + {page}) == from + to
  {}

  lemma StepConservesPages(p: Pool, q: Pool)
    requires PoolStep(p, q) && p.free !! p.live
    ensures q.free !! q.live && q.free + q.live == p.free + p.live
  {
    var addr: nat :| AllocStep(p, addr, q) || FreeStep(p, addr, q);
    if AllocStep(p, addr, q) {
      Moved(p.free, p.live, addr / PAGE);
    } else {
      Moved(p.live, p.free, addr / PAGE);
    }
  }

  /** Over every run no page is lost, duplicated or invented. */
  lemma {:induction false} RunsConservePages(run: seq<Pool>, managed: set<nat>, k: nat)
    requires PoolRun(run) && k < |run| && run[0] == Pool(managed, {})
    ensures run[k].free !! run[k].live && run[k].free + run[k].live == managed
    ensures |run[k].free| + |run[k].live| == |managed|
  {
    hide PoolStep;
    if k > 0 {
      RunsConservePages(run, managed, k - 1);
      StepConservesPages(run[k - 1], run[k]);
    }
    assert |run[k].free + run[k].live| == |run[k].free| + |run[k].live|;
  }

  // ----- a page that was never handed out

  /** Two megabytes of available memory with a hole of one between them. */
  const HOLED: seq<Entry> := [Entry(0x10_0000, 0, 0x10_0000, 0, 1), Entry(0x30_0000, 0, 0x10_0000, 0, 1)]

  lemma HoledMap()
    ensures TotalPages(HOLED) == 1024 && BitmapBytes(HOLED) == 128 && NoWrap(HOLED, 0x10_0000, 128)
  {
    assert HOLED[..1] == [HOLED[0]] && HOLED[..1][..0] == [];
    assert MaxEnd(HOLED[..1][..0]) == 0;
    assert MaxEnd(HOLED[..1]) == 0x20_0000;
    assert MaxEnd(HOLED) == 0x40_0000;
  }

  lemma HoleIsNotMemory()
    ensures !InMemory(HOLED, 512)
  {}

  lemma HoledPlace()
    ensures PlaceOf(HOLED, 0x10_0000, 128) == 0x10_0000 && ReservedEnd(HOLED, 0x10_0000) == 0x10_1000
  {
    hide TotalPages, BitmapBytes, NoWrap, AlignUp, Suits, Candidate;
    HoledMap();
    HoledFits();
    assert FirstSuiting(HOLED, 0x10_0000, 128, 0) == 0;
  }

  lemma HoledFits()
    ensures Candidate(HOLED[0], 0x10_0000) == 0x10_0000 && Suits(HOLED[0], 0x10_0000, 128) && AlignUp(128) == PAGE
  {}

  /** The allocator on that map: the hole's first page is used, managed, and no one's. */
  method OnHoledMap() returns (a: Allocator)
    ensures fresh(a) && fresh(a.bitmap) && a.Valid() && a.Disciplined() && a.live == {}
    ensures a.scanStart <= 512 < a.totalPages && 512 !in a.Free()
  {
    hide TotalPages, BitmapBytes, NoWrap, PlaceOf, ReservedEnd, InitiallyFree, Placed, InMemory, BitmapEnd;
    HoledMap();
    HoledPlace();
    HoleIsNotMemory();
    a := new Allocator();
    var ok := a.InitPFA(HOLED, 0x10_0000, 0x10_0000);
  }

  /** A page that is no memory and was never handed out can be given back, and the pool is then no
      longer what it started as. */
  method FreesTheHole() returns (a: Allocator, ok: bool)
    ensures ok && a.Valid() && !InMemory(HOLED, 512) && 512 in a.Free() && !a.Disciplined()
  {
    hide InMemory;
    HoleIsNotMemory();
    a := OnHoledMap();
    Multiple(512);
    ok := a.FreePage(512 * PAGE);
  }
}
