/** The in-memory filesystem: a table of 32 slots, each file backed by one allocated page. */
module MemFs {
  import opened Basics
  import opened MemoryMap
  import opened PageAllocator

  const MAX_FILES := 32
  const MAX_NAME := 16

  datatype FileEntry = FileEntry(used: bool, nameLen: nat, name: seq<byte>, size: nat, page: nat)

  /** An entry that can stand in the table: names are 1 to 16 bytes, sizes at most a page. */
  predicate Fits(e: FileEntry)
  {
    |e.name| == MAX_NAME && (e.used ==> 1 <= e.nameLen <= MAX_NAME && e.size <= PAGE && e.page % PAGE == 0)
  }

  function Name(e: FileEntry): seq<byte>
    requires Fits(e) && e.used
  {
    e.name[..e.nameLen]
  }

  /** No two used slots share a name or a page. */
  ghost predicate Distinct(t: seq<FileEntry>)
  {
    && (forall i :: 0 <= i < |t| ==> Fits(t[i]))
    && forall i, j :: 0 <= i < j < |t| && t[i].used && t[j].used ==> Name(t[i]) != Name(t[j]) && t[i].page != t[j].page
  }

  /** Every file's page is in memory and was handed out by the allocator. */
  ghost predicate Backed(t: seq<FileEntry>, pages: map<nat, seq<byte>>, live: set<nat>)
  {
    && (forall a :: a in pages ==> |pages[a]| == PAGE)
    && forall i :: 0 <= i < |t| && t[i].used ==> t[i].page in pages && t[i].page / PAGE in live
  }

  ghost predicate Names(t: seq<FileEntry>, i: int, key: seq<byte>)
    requires Distinct(t)
  {
    0 <= i < |t| && t[i].used && Name(t[i]) == key
  }

  ghost function Keys(t: seq<FileEntry>): set<seq<byte>>
    requires Distinct(t)
  {
    set i | 0 <= i < |t| && t[i].used :: Name(t[i])
  }

  ghost function SlotOf(t: seq<FileEntry>, key: seq<byte>): nat
    requires Distinct(t) && key in Keys(t)
    ensures Names(t, SlotOf(t, key), key)
  {
    var i :| 0 <= i < |t| && t[i].used && Name(t[i]) == key;
    i
  }

  ghost function Data(e: FileEntry, pages: map<nat, seq<byte>>): seq<byte>
    requires e.page in pages && e.size <= |pages[e.page]|
  {
    pages[e.page][..e.size]
  }

  ghost predicate Sound(t: seq<FileEntry>, pages: map<nat, seq<byte>>, live: set<nat>)
    ensures Sound(t, pages, live) ==> Distinct(t)
  {
    Distinct(t) && Backed(t, pages, live)
  }

  /** The map from names to contents that table and memory stand for. */
  ghost function View(t: seq<FileEntry>, pages: map<nat, seq<byte>>, live: set<nat>): map<seq<byte>, seq<byte>>
    requires Sound(t, pages, live)
  {
    map key | key in Keys(t) :: Data(t[SlotOf(t, key)], pages)
  }

  lemma SlotIsUnique(t: seq<FileEntry>, i: nat)
    requires Distinct(t) && i < |t| && t[i].used
    ensures Name(t[i]) in Keys(t) && SlotOf(t, Name(t[i])) == i
  {}

  lemma KeysOfPrefix(t: seq<FileEntry>)
    requires Distinct(t) && t != []
    ensures var n := |t| - 1;
            Keys(t) == Keys(t[..n]) + (if t[n].used then {Name(t[n])} else {})
            && (t[n].used ==> Name(t[n]) !in Keys(t[..n]))
  {
    hide Fits;
    var n := |t| - 1;
    var s := t[..n];
    forall key | key in Keys(t) ensures key in Keys(s) || (t[n].used && key == Name(t[n])) {
      var i := SlotOf(t, key);
      if i < n { assert s[i] == t[i]; }
    }
    forall key | key in Keys(s) ensures key in Keys(t) {
      var i := SlotOf(s, key);
      assert t[i] == s[i];
    }
  }

  /** The map never has more names than the table has slots, and exactly as many when it is full. */
  lemma {:induction false} KeyCount(t: seq<FileEntry>)
    requires Distinct(t)
    ensures |Keys(t)| <= |t|
    ensures |Keys(t)| == |t| <==> forall i :: 0 <= i < |t| ==> t[i].used
  {
    hide Fits, Keys;
    if t == [] {
      assert Keys(t) == {} by { NoKeys(); }
    } else {
      var n := |t| - 1;
      KeyCount(t[..n]);
      KeysOfPrefix(t);
      assert forall i :: 0 <= i < n ==> t[i] == t[..n][i];
    }
  }

  lemma NoKeys()
    ensures Keys([]) == {}
  {}

  /** Tables that agree outside slot `i`, the other slots having other names than slot `i` in both. */
  ghost predicate Rest(t: seq<FileEntry>, t': seq<FileEntry>, i: nat, name: seq<byte>)
    requires Distinct(t) && Distinct(t')
  {
    && |t| == |t'| && i < |t|
    && (t[i].used ==> Name(t[i]) == name) && (t'[i].used ==> Name(t'[i]) == name)
    && forall j :: 0 <= j < |t| && j != i ==> t[j] == t'[j] && (t[j].used ==> Name(t[j]) != name)
  }

  lemma RestSlots(t: seq<FileEntry>, t': seq<FileEntry>, i: nat, name: seq<byte>, key: seq<byte>)
    requires Distinct(t) && Distinct(t') && Rest(t, t', i, name) && key != name
    ensures key in Keys(t') <==> key in Keys(t)
    ensures key in Keys(t) ==> SlotOf(t', key) == SlotOf(t, key) != i
  {
    hide Fits;
    if key in Keys(t) {
      var j := SlotOf(t, key);
      assert t'[j] == t[j];
      SlotIsUnique(t', j);
    }
    if key in Keys(t') {
      var j := SlotOf(t', key);
      assert t[j] == t'[j];
      SlotIsUnique(t, j);
    }
  }

  lemma StoreIsDistinct(t: seq<FileEntry>, pages: map<nat, seq<byte>>, live: set<nat>,
                        i: nat, e: FileEntry, content: seq<byte>, live': set<nat>)
    requires CanStore(t, pages, live, i, e, content, live')
    ensures Sound(t[i := e], pages[e.page := content], live') && Rest(t, t[i := e], i, Name(e))
  {
    forall j | 0 <= j < |t| && j != i && t[j].used
      ensures Name(t[j]) != Name(e) && t[j].page != e.page
    {
      SlotIsUnique(t, j);
      if t[i].used { SlotIsUnique(t, i); }
    }
  }

  ghost predicate CanStore(t: seq<FileEntry>, pages: map<nat, seq<byte>>, live: set<nat>,
                           i: nat, e: FileEntry, content: seq<byte>, live': set<nat>)
  {
    && Sound(t, pages, live) && live <= live'
    && i < |t| && Fits(e) && e.used && |content| == PAGE && e.page / PAGE in live'
    && (if t[i].used then Name(t[i]) == Name(e) && t[i].page == e.page
        else Name(e) !in Keys(t) && e.page / PAGE !in live)
  }

  /** Storing `e` in a slot that holds the same name, or nothing, updates the map at that name alone. */
  lemma ViewAfterStore(t: seq<FileEntry>, pages: map<nat, seq<byte>>, live: set<nat>,
                       i: nat, e: FileEntry, content: seq<byte>, live': set<nat>)
    requires CanStore(t, pages, live, i, e, content, live')
    ensures var t', pages' := t[i := e], pages[e.page := content];
            && Sound(t', pages', live')
            && View(t', pages', live') == View(t, pages, live)[Name(e) := content[..e.size]]
  {
    var t', pages' := t[i := e], pages[e.page := content];
    StoreIsDistinct(t, pages, live, i, e, content, live');
    SlotIsUnique(t', i);
    assert Name(t'[i]) == Name(e);
    hide Fits, CanStore;
    forall key | key != Name(e)
      ensures key in Keys(t') <==> key in Keys(t)
      ensures key in Keys(t) ==> SlotOf(t', key) == SlotOf(t, key)
      ensures key in Keys(t) ==> t[SlotOf(t, key)].page != e.page
    {
      RestSlots(t, t', i, Name(e), key);
    }
  }

  lemma ClearIsDistinct(t: seq<FileEntry>, pages: map<nat, seq<byte>>, live: set<nat>, i: nat, e: FileEntry)
    requires Sound(t, pages, live) && i < |t| && t[i].used && Fits(e) && !e.used
    ensures Sound(t[i := e], pages, live - {t[i].page / PAGE}) && Rest(t, t[i := e], i, Name(t[i]))
  {
    forall j | 0 <= j < |t| && j != i && t[j].used
      ensures t[j].page / PAGE != t[i].page / PAGE
    {
      PagesDiffer(t[j].page, t[i].page);
    }
  }

  lemma PagesDiffer(a: nat, b: nat)
    requires a % PAGE == 0 && b % PAGE == 0 && a != b
    ensures a / PAGE != b / PAGE
  {}

  /** Clearing a slot removes its name and nothing else. */
  lemma ViewAfterClear(t: seq<FileEntry>, pages: map<nat, seq<byte>>, live: set<nat>, i: nat, e: FileEntry)
    requires Sound(t, pages, live) && i < |t| && t[i].used && Fits(e) && !e.used
    ensures var t', live' := t[i := e], live - {t[i].page / PAGE};
            && Sound(t', pages, live')
            && View(t', pages, live') == View(t, pages, live) - {Name(t[i])}
  {
    var t', live' := t[i := e], live - {t[i].page / PAGE};
    ClearIsDistinct(t, pages, live, i, e);
    assert Name(t[i]) !in Keys(t');
    forall key | key != Name(t[i])
      ensures key in Keys(t') <==> key in Keys(t)
      ensures key in Keys(t) ==> SlotOf(t', key) == SlotOf(t, key)
    {
      RestSlots(t, t', i, Name(t[i]), key);
    }
  }

  lemma ViewKeys(t: seq<FileEntry>, pages: map<nat, seq<byte>>, live: set<nat>)
    requires Sound(t, pages, live)
    ensures View(t, pages, live).Keys == Keys(t)
  {}

  lemma EmptyTable(t: seq<FileEntry>, pages: map<nat, seq<byte>>, live: set<nat>)
    requires forall i :: 0 <= i < |t| ==> |t[i].name| == MAX_NAME && !t[i].used
    requires forall a :: a in pages ==> |pages[a]| == PAGE
    ensures Sound(t, pages, live) && View(t, pages, live) == map[]
  {
    assert Keys(t) == {};
  }

  function Clip(dataLen: nat): (n: nat)
    ensures n == Min(dataLen, 4096)
  {
    if dataLen > PAGE then PAGE else dataLen
  }

  lemma SlotFacts(t: seq<FileEntry>, pages: map<nat, seq<byte>>, live: set<nat>, i: nat)
    requires Sound(t, pages, live) && i < |t|
    ensures Fits(t[i]) && (forall a :: a in pages ==> |pages[a]| == PAGE)
    ensures t[i].used ==> t[i].page in pages && |pages[t[i].page]| == PAGE && t[i].page / PAGE in live
  {}

  lemma CanOverwrite(t: seq<FileEntry>, pages: map<nat, seq<byte>>, live: set<nat>, i: nat, n: nat, content: seq<byte>)
    requires Sound(t, pages, live) && i < |t| && t[i].used && n <= PAGE && |content| == PAGE
    ensures var e := t[i].(size := n);
            CanStore(t, pages, live, i, e, content, live) && Name(e) == Name(t[i])
  {
    hide Keys;
  }

  lemma CanCreate(t: seq<FileEntry>, pages: map<nat, seq<byte>>, live: set<nat>, i: nat, e: FileEntry, content: seq<byte>)
    requires Sound(t, pages, live) && i < |t| && !t[i].used && Fits(e) && e.used && |content| == PAGE
    requires Name(e) !in View(t, pages, live) && e.page / PAGE !in live
    ensures CanStore(t, pages, live, i, e, content, live + {e.page / PAGE})
  {
    hide Keys;
    ViewKeys(t, pages, live);
  }

  class FileSystem {
    const pfa: Allocator
    var files: array<FileEntry>
    var pages: map<nat, seq<byte>>  // physical memory, by page address

    /** The allocator's clients are disciplined, and the memory behind its pages is there. */
    ghost predicate Allocated(addresses: set<nat>)
      reads pfa, pfa.bitmap
      ensures Allocated(addresses) ==> pfa.Valid()
    {
      && pfa.Valid()
      && if pfa.ready then pfa.Disciplined() && (forall p :: p in pfa.managed ==> p * PAGE in addresses)
         else pfa.live == {}
    }

    ghost predicate Valid()
      reads this, files, pfa, pfa.bitmap
    {
      files.Length == MAX_FILES && Apart(files, pfa.bitmap) && Allocated(pages.Keys) && Sound(files[..], pages, pfa.live)
    }

    /** The files, by name. */
    ghost function Files(): map<seq<byte>, seq<byte>>
      reads this, files, pfa, pfa.bitmap
      requires Valid()
    {
      View(files[..], pages, pfa.live)
    }

    constructor (allocator: Allocator, memory: map<nat, seq<byte>>)
      requires allocator.Valid() && (forall a :: a in memory ==> |memory[a]| == PAGE)
      requires if allocator.ready then allocator.Disciplined() && forall p :: p in allocator.managed ==> p * PAGE in memory
               else allocator.live == {}
      ensures Valid() && fresh(files) && pfa == allocator && pages == memory && Files() == map[]
    {
      pfa, pages := allocator, memory;
      files := new FileEntry[MAX_FILES](_ => FileEntry(false, 0, seq(MAX_NAME, _ => 0), 0, 0));
      new;
      hide Allocator.Disciplined, View, Sound;
      EmptyTable(files[..], pages, pfa.live);
    }

    method Init()
      requires files.Length == MAX_FILES && Apart(files, pfa.bitmap) && (forall i :: 0 <= i < MAX_FILES ==> |files[i].name| == MAX_NAME)
      requires Allocated(pages.Keys) && (forall a :: a in pages ==> |pages[a]| == PAGE)
      modifies files
      ensures Valid() && Files() == map[]
    {
      hide Allocated, Sound, View, Fits;
      for i := 0 to MAX_FILES
        invariant forall j :: 0 <= j < MAX_FILES ==> |files[j].name| == MAX_NAME
        invariant forall j :: 0 <= j < i ==> !files[j].used
        invariant Allocated(pages.Keys)
      {
        files[i] := files[i].(used := false, nameLen := 0, size := 0, page := 0);
      }
      EmptyTable(files[..], pages, pfa.live);
    }

    method FindFreeSlot() returns (idx: int)
      requires files.Length == MAX_FILES
      ensures -1 <= idx < MAX_FILES
      ensures idx >= 0 ==> !files[idx].used && forall i :: 0 <= i < idx ==> files[i].used
      ensures idx < 0 ==> forall i :: 0 <= i < MAX_FILES ==> files[i].used
    {
      for i := 0 to MAX_FILES
        invariant forall j :: 0 <= j < i ==> files[j].used
      {
        if !files[i].used { return i; }
      }
      return -1;
    }

    method FindByName(name: seq<byte>, nameLen: int) returns (idx: int)
      requires files.Length == MAX_FILES && Distinct(files[..]) && |name| == MAX_NAME
      ensures -1 <= idx < MAX_FILES
      ensures idx >= 0 <==> 1 <= nameLen <= MAX_NAME && name[..nameLen] in Keys(files[..])
      ensures idx >= 0 ==> Names(files[..], idx, name[..nameLen])
    {
      if nameLen <= 0 || nameLen > MAX_NAME { return -1; }
      ghost var t := files[..];
      for i := 0 to MAX_FILES
        invariant forall j :: 0 <= j < i && t[j].used ==> Name(t[j]) != name[..nameLen]
      {
        var e := files[i];
        assert e == t[i];
        if e.used && e.nameLen == nameLen {
          var match' := SameName(e.name, name, nameLen);
          if match' {
            assert Names(t, i, name[..nameLen]);
            return i;
          }
        }
      }
      return -1;
    }

    method SameName(a: seq<byte>, b: seq<byte>, n: nat) returns (same: bool)
      requires n <= |a| && n <= |b|
      ensures same <==> a[..n] == b[..n]
    {
      for j := 0 to n
        invariant a[..j] == b[..j]
      {
        if a[j] != b[j] {
          assert a[..n][j] != b[..n][j];
          return false;
        }
      }
      return true;
    }

    method Lookup(name: seq<byte>, nameLen: int) returns (page: nat, size: nat, ok: bool)
      requires Valid() && |name| == MAX_NAME
      ensures ok <==> 1 <= nameLen <= MAX_NAME && name[..nameLen] in Files()
      ensures ok ==> page in pages && size <= PAGE && pages[page][..size] == Files()[name[..nameLen]]
      ensures !ok ==> page == 0 && size == 0
    {
      var idx := FindByName(name, nameLen);
      if idx < 0 { return 0, 0, false; }
      SlotIsUnique(files[..], idx);
      var e := files[idx];
      return e.page, e.size, true;
    }

    /** The page's first bytes become the data; the rest of memory stays. */
    method CopyData(page: nat, data: seq<byte>, n: nat)
      requires page in pages && |pages[page]| == PAGE && n <= PAGE && n <= |data|
      modifies this`pages
      ensures pages == old(pages)[page := data[..n] + old(pages)[page][n..]] && pages.Keys == old(pages.Keys)
    {
      ghost var was := pages[page];
      assert data[..0] + was[0..] == was;
      assert pages == pages[page := was];
      for i := 0 to n
        invariant page in pages && pages == old(pages)[page := data[..i] + was[i..]]
      {
        pages := pages[page := pages[page][i := data[i]]];
        assert pages[page] == data[..i + 1] + was[i + 1..];
      }
    }

    method CopyName(old': seq<byte>, src: seq<byte>, nameLen: nat) returns (name: seq<byte>)
      requires |old'| == MAX_NAME && |src| == MAX_NAME && nameLen <= MAX_NAME
      ensures name == src[..nameLen] + seq(MAX_NAME - nameLen, _ => 0)
    {
      name := old';
      for i := 0 to MAX_NAME
        invariant |name| == MAX_NAME && forall j :: 0 <= j < i ==> name[j] == 0
      {
        name := name[i := 0];
      }
      for i := 0 to nameLen
        invariant |name| == MAX_NAME && name[..i] == src[..i] && forall j :: i <= j < MAX_NAME ==> name[j] == 0
      {
        name := name[i := src[i]];
        assert name[..i + 1] == src[..i + 1];
      }
    }

    /** Put a new file's name and page in a free slot. */
    method Enter(idx: nat, name: seq<byte>, nameLen: nat, page: nat)
      requires idx < files.Length && |files[idx].name| == MAX_NAME && |name| == MAX_NAME && nameLen <= MAX_NAME
      modifies files
      ensures files[..] == old(files[..])[idx := files[idx]]
      ensures |files[idx].name| == MAX_NAME && files[idx].name[..nameLen] == name[..nameLen]
      ensures files[idx].used && files[idx].nameLen == nameLen && files[idx].page == page && files[idx].size == old(files[idx].size)
    {
      var copied := CopyName(files[idx].name, name, nameLen);
      files[idx] := files[idx].(used := true, page := page, nameLen := nameLen, name := copied);
    }

    /** Whether `Write` can succeed. */
    ghost predicate CanWrite(name: seq<byte>, nameLen: int)
      reads this, files, pfa, pfa.bitmap
      requires Valid() && |name| == MAX_NAME
    {
      1 <= nameLen <= MAX_NAME
      && (name[..nameLen] in Files() || (|Files()| < MAX_FILES && pfa.ready && pfa.freePages > 0))
    }

    method Write(name: seq<byte>, nameLen: int, data: seq<byte>, dataLen: nat) returns (ok: bool)
      requires Valid() && |name| == MAX_NAME && Clip(dataLen) <= |data|
      modifies this`pages, files, pfa`freePages, pfa`live, pfa.bitmap
      ensures Valid() && ok == old(CanWrite(name, nameLen))
      ensures ok ==> Files() == old(Files())[name[..nameLen] := data[..Clip(dataLen)]]
      ensures ok && dataLen <= 4096 ==> name[..nameLen] in Files() && Files()[name[..nameLen]] == data[..dataLen]
      ensures ok && dataLen > 4096 ==> name[..nameLen] in Files() && Files()[name[..nameLen]] == data[..4096]
      ensures ok && name[..nameLen] in old(Files()) ==> pfa.live == old(pfa.live) && pfa.Free() == old(pfa.Free())
      ensures ok && name[..nameLen] !in old(Files()) ==> exists addr: nat ::
                AllocStep(old(Pool(pfa.Free(), pfa.live)), addr, Pool(pfa.Free(), pfa.live))
      ensures !ok ==> files[..] == old(files[..]) && pages == old(pages) && pfa.live == old(pfa.live)
                      && pfa.Free() == old(pfa.Free()) && Files() == old(Files())
      ensures pfa.freePages + (if ok && name[..nameLen] !in old(Files()) then 1 else 0) == old(pfa.freePages)
    {
      hide Allocated, View, Distinct, Backed, Keys, Clip, AllocStep;
      if nameLen <= 0 || nameLen > MAX_NAME { return false; }
      ghost var key := name[..nameLen];
      ViewKeys(files[..], pages, pfa.live);
      var idx := FindByName(name, nameLen);
      if idx >= 0 {
        Overwrite(idx, data, Clip(dataLen));
        return true;
      }
      idx := FindFreeSlot();
      KeyCount(files[..]);
      if idx < 0 { return false; }
      ok := Create(idx, name, nameLen, data, Clip(dataLen));
    }

    method Overwrite(idx: nat, data: seq<byte>, n: nat)
      requires Valid() && idx < MAX_FILES && files[idx].used && n <= PAGE && n <= |data|
      modifies this`pages, files
      ensures Valid() && Files() == old(Files())[old(Name(files[..][idx])) := data[..n]]
    {
      hide Keys, View, Sound, Allocated, CanStore;
      ghost var t, mem, live := files[..], pages, pfa.live;
      var e := files[idx];
      assert t[idx] == e;
      SlotFacts(t, mem, live, idx);
      CopyData(e.page, data, n);
      files[idx] := e.(size := n);
      ghost var content := data[..n] + mem[e.page][n..];
      CanOverwrite(t, mem, live, idx, n, content);
      ViewAfterStore(t, mem, live, idx, e.(size := n), content, live);
      assert content[..n] == data[..n];
      assert files[..] == t[idx := e.(size := n)];
    }

    /** A page no file holds, or 0 when the allocator has none left. */
    method TakePage() returns (p: nat)
      requires Allocated(pages.Keys) && pfa.ready
      modifies pfa`freePages, pfa`live, pfa.bitmap
      ensures Allocated(pages.Keys) && (p == 0 <==> old(pfa.freePages) == 0)
      ensures p == 0 ==> pfa.live == old(pfa.live) && pfa.Free() == old(pfa.Free())
      ensures p != 0 ==> AllocStep(old(Pool(pfa.Free(), pfa.live)), p, Pool(pfa.Free(), pfa.live))
      ensures pfa.freePages + (if p != 0 then 1 else 0) == old(pfa.freePages)
      ensures p != 0 ==> p in pages && p % PAGE == 0 && p / PAGE !in old(pfa.live) && pfa.live == old(pfa.live) + {p / PAGE}
    {
      hide Allocator.Disciplined, Allocator.Free;
      pfa.FreePagesAreManaged();
      p := pfa.AllocPage();
    }

    method Create(idx: nat, name: seq<byte>, nameLen: nat, data: seq<byte>, n: nat) returns (ok: bool)
      requires Valid() && idx < MAX_FILES && !files[idx].used && n <= PAGE && n <= |data|
      requires |name| == MAX_NAME && 1 <= nameLen <= MAX_NAME && name[..nameLen] !in Files()
      modifies this`pages, files, pfa`freePages, pfa`live, pfa.bitmap
      ensures Valid() && ok == old(pfa.ready && pfa.freePages > 0)
      ensures ok ==> Files() == old(Files())[name[..nameLen] := data[..n]]
      ensures ok ==> exists addr: nat ::
                AllocStep(old(Pool(pfa.Free(), pfa.live)), addr, Pool(pfa.Free(), pfa.live))
      ensures !ok ==> files[..] == old(files[..]) && pages == old(pages) && pfa.live == old(pfa.live)
                      && pfa.Free() == old(pfa.Free()) && Files() == old(Files())
      ensures pfa.freePages + (if ok then 1 else 0) == old(pfa.freePages)
    {
      hide Keys, View, Sound, CanStore, Allocated, AllocStep;
      if !pfa.ready { return false; }
      ghost var t, mem, live := files[..], pages, pfa.live;
      SlotFacts(t, mem, live, idx);
      var p := TakePage();
      assert files[..] == t;
      if p == 0 { return false; }
      Enter(idx, name, nameLen, p);
      CopyData(p, data, n);
      var e := files[idx].(size := n);
      files[idx] := e;
      ghost var content := data[..n] + mem[p][n..];
      CanCreate(t, mem, live, idx, e, content);
      ViewAfterStore(t, mem, live, idx, e, content, pfa.live);
      assert content[..n] == data[..n];
      assert files[..] == t[idx := e];
      return true;
    }

    method Remove(name: seq<byte>, nameLen: int) returns (ok: bool)
      requires Valid() && |name| == MAX_NAME
      modifies files, pfa`freePages, pfa`live, pfa.bitmap
      ensures Valid() && pages == old(pages)
      ensures ok <==> 1 <= nameLen <= MAX_NAME && name[..nameLen] in old(Files())
      ensures ok ==> Files() == old(Files()) - {name[..nameLen]}
      ensures ok ==> exists i :: 0 <= i < MAX_FILES && old(Names(files[..], i, name[..nameLen]))
                       && FreeStep(old(Pool(pfa.Free(), pfa.live)), old(files[..])[i].page, Pool(pfa.Free(), pfa.live))
      ensures !ok ==> files[..] == old(files[..]) && pfa.live == old(pfa.live) && pfa.Free() == old(pfa.Free())
      ensures pfa.freePages == old(pfa.freePages) + if ok then 1 else 0
    {
      hide Keys, View, Sound, Allocator.Disciplined, Allocator.Free;
      ViewKeys(files[..], pages, pfa.live);
      var idx := FindByName(name, nameLen);
      if idx < 0 { return false; }
      ghost var t, live := files[..], pfa.live;
      var e := files[idx];
      assert e == t[idx];
      SlotFacts(t, pages, live, idx);
      pfa.FreePagesAreManaged();
      if e.used && e.page != 0 {
        var freed := pfa.FreePage(e.page);
      }
      assert files[..] == t;
      var cleared := e.(used := false, nameLen := 0, size := 0, page := 0);
      files[idx] := cleared;
      ViewAfterClear(t, pages, live, idx, cleared);
      assert files[..] == t[idx := cleared];
      return true;
    }

    /** Without an allocator there are no files. */
    lemma NoPagesNoFiles()
      requires Valid() && !pfa.ready
      ensures Files() == map[]
    {
      hide View;
      ViewKeys(files[..], pages, pfa.live);
      assert Keys(files[..]) == {};
    }

    /** Over an allocator initialised from a memory map, every file's page lies in available memory
        and clear of the kernel, the bitmap and page 0. */
    lemma FilePagesAreSafe(mmap: seq<Entry>, kend: u64, i: nat)
      requires Valid() && pfa.ready && i < MAX_FILES && files[i].used
      requires pfa.managed == Usable(mmap, pfa.scanStart * PAGE)
      requires Placed(mmap, kend, pfa.bitmapBytes, pfa.bitmapPhys) && pfa.bitmapPhys + pfa.bitmapBytes <= pfa.scanStart * PAGE
      ensures files[i].page != 0 && kend <= files[i].page && pfa.bitmapPhys + pfa.bitmapBytes <= files[i].page
      ensures InMemory(mmap, files[i].page / PAGE)
    {
      hide Usable, Placed, InMemory, Sound;
      SlotFacts(files[..], pages, pfa.live, i);
      assert files[..][i] == files[i];
      pfa.LivePagesAreSafe(mmap, kend, files[i].page / PAGE);
    }
  }
}
