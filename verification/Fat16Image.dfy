/** A FAT16 volume as the formatter lays it out: boot sector, two allocation tables, a root
    directory of 512 slots, and one data sector per cluster. */
module Fat16Image {
  import opened Basics
  import Octets

  type Sector = s: seq<u8> | |s| == 512 witness seq(512, _ => 0)

  function Blank(): Sector { seq(512, _ => 0) }

  const DISK_SECTORS := 40960
  const FAT_START := 1
  const FAT_SECTORS := 160
  const ROOT_START := 321
  const ROOT_SECTORS := 32
  const DATA_START := 353
  const MAX_FILES := 512
  const CLUSTERS := 40960
  const END_OF_CHAIN: u16 := 0xFFFF

  type Image = d: seq<Sector> | |d| == DISK_SECTORS witness seq<Sector>(DISK_SECTORS, _ => Blank())

  function Word(lo: u8, hi: u8): u16 { lo + 256 * hi }

  function Long(a: int, b: int, c: int, d: int): int { a + 256 * b + 0x1_0000 * c + 0x100_0000 * d }

  function LowByte(v: nat): u8 { v % 256 }

  function HighByte(v: u16): u8 { v / 256 }

  /** Entry `c` of the first allocation table. */
  function Fat(d: Image, c: nat): u16
    requires c < CLUSTERS
  {
    var s := d[FAT_START + c / 256];
    Word(s[2 * (c % 256)], s[2 * (c % 256) + 1])
  }

  /** Slot `k` of the root directory. */
  function Slot(d: Image, k: nat): (e: seq<u8>)
    requires k < MAX_FILES
    ensures |e| == 32
  {
    d[ROOT_START + k / 16][32 * (k % 16)..32 * (k % 16) + 32]
  }

  /** Name and extension, 11 bytes. */
  function Key(e: seq<u8>): seq<u8>
    requires |e| == 32
  {
    e[..11]
  }

  function ClusterOf(e: seq<u8>): u16
    requires |e| == 32
  {
    Word(e[26], e[27])
  }

  function SizeOf(e: seq<u8>): u32
    requires |e| == 32
  {
    Long(e[28], e[29], e[30], e[31])
  }

  /** The slot holds a file: neither free, nor deleted, nor a volume label. */
  predicate InUse(e: seq<u8>)
    requires |e| == 32
  {
    e[0] != 0 && e[0] != 0xE5 && (e[11] / 8) % 2 == 0
  }

  /** The bytes `CreateFile` writes into a directory slot. */
  function Entry(key: seq<u8>, cluster: u16, size: u32): (e: seq<u8>)
    requires |key| == 11
    ensures |e| == 32
  {
    key + seq(15, _ => 0)
    + [LowByte(cluster), cluster / 256]
    + [LowByte(size), LowByte(size / 256), LowByte(size / 0x1_0000), size / 0x100_0000]
  }

  /** Every field of a written slot reads back, and the slot counts as a file if its name allows. */
  lemma EntryReadsBack(key: seq<u8>, cluster: u16, size: u32)
    requires |key| == 11
    ensures var e := Entry(key, cluster, size);
            Key(e) == key && ClusterOf(e) == cluster && SizeOf(e) == size && (InUse(e) <==> Storable(key))
  {
    var e := Entry(key, cluster, size);
    assert e[..11] == key && e[0] == key[0] && e[11] == 0;
    assert e[26] == LowByte(cluster) && e[27] == cluster / 256;
    assert e[28] == LowByte(size) && e[29] == LowByte(size / 256);
    assert e[30] == LowByte(size / 0x1_0000) && e[31] == size / 0x100_0000;
    SizeBytes(size);
  }

  lemma SizeBytes(size: u32)
    ensures size == LowByte(size) + 256 * LowByte(size / 256) + 0x1_0000 * LowByte(size / 0x1_0000) + 0x100_0000 * (size / 0x100_0000)
  {
    var a := size / 256;
    var b := a / 256;
    assert b == size / 0x1_0000;
    assert b / 256 == size / 0x100_0000;
  }

  /** Names the directory can tell from a free or deleted slot. */
  predicate Storable(key: seq<u8>)
    requires |key| == 11
  {
    key[0] != 0 && key[0] != 0xE5
  }

  function DataSector(c: nat): nat
    requires c >= 2
  {
    DATA_START + (c - 2)
  }

  // ----- the four writes of `CreateFile`

  function SetFat(d: Image, c: nat, v: u16): Image
    requires c < CLUSTERS
  {
    var s := FAT_START + c / 256;
    var low: seq<u8> := d[s][2 * (c % 256) := LowByte(v)];
    d[s := low[2 * (c % 256) + 1 := HighByte(v)]]
  }

  /** The second table's sector becomes a copy of the first's. */
  function MirrorFat(d: Image, c: nat): Image
    requires c < CLUSTERS
  {
    d[FAT_START + FAT_SECTORS + c / 256 := d[FAT_START + c / 256]]
  }

  function Splice(s: Sector, at: nat, e: seq<u8>): Sector
    requires at + |e| <= 512
  {
    s[..at] + e + s[at + |e|..]
  }

  function SetSlot(d: Image, k: nat, e: seq<u8>): Image
    requires k < MAX_FILES && |e| == 32
  {
    var s := ROOT_START + k / 16;
    d[s := Splice(d[s], 32 * (k % 16), e)]
  }

  function SetData(d: Image, c: nat, data: Sector): Image
    requires c >= 2
  {
    if DataSector(c) < DISK_SECTORS then d[DataSector(c) := data] else d
  }

  lemma FatAfterSet(d: Image, c: nat, v: u16, c': nat)
    requires c < CLUSTERS && c' < CLUSTERS
    ensures Fat(SetFat(d, c, v), c') == if c' == c then v else Fat(d, c')
  {
    if c' / 256 == c / 256 && c' != c {
      assert c' % 256 != c % 256;
    }
  }

  lemma SlotAfterSet(d: Image, k: nat, e: seq<u8>, k': nat)
    requires k < MAX_FILES && k' < MAX_FILES && |e| == 32
    ensures Slot(SetSlot(d, k, e), k') == if k' == k then e else Slot(d, k')
  {
    if k' / 16 == k / 16 {
      var s := d[ROOT_START + k / 16];
      SpliceWindow(s, k % 16, e, k' % 16);
    }
  }

  lemma SpliceWindow(s: Sector, i: nat, e: seq<u8>, j: nat)
    requires i < 16 && j < 16 && |e| == 32
    ensures Splice(s, 32 * i, e)[32 * j..32 * j + 32] == if i == j then e else s[32 * j..32 * j + 32]
  {
    var t := Splice(s, 32 * i, e);
    if i == j {
    } else if j < i {
      assert forall x :: 32 * j <= x < 32 * j + 32 ==> t[x] == s[x];
    } else {
      assert forall x :: 32 * j <= x < 32 * j + 32 ==> t[x] == s[x];
    }
  }

  // ----- what every write keeps

  function Cluster(d: Image, k: nat): u16
    requires k < MAX_FILES
  {
    ClusterOf(Slot(d, k))
  }

  /** The first `n` directory slots hold files and the rest are free; only the next one can look
      deleted rather than never used. */
  ghost predicate Dir(d: Image, n: nat)
    ensures Dir(d, n) ==> n <= MAX_FILES
  {
    && n <= MAX_FILES
    && (forall k :: 0 <= k < n ==> InUse(Slot(d, k)))
    && (n < MAX_FILES ==> Slot(d, n)[0] == 0 || Slot(d, n)[0] == 0xE5)
    && (forall k :: n < k < MAX_FILES ==> Slot(d, k)[0] == 0)
  }

  /** The files' clusters are reserved, and no two share a cluster or a name. */
  ghost predicate Files(d: Image, n: nat)
    requires n <= MAX_FILES
  {
    && (forall k :: 0 <= k < n ==> 2 <= Cluster(d, k) < CLUSTERS && Fat(d, Cluster(d, k)) != 0)
    && (forall j, k :: 0 <= j < k < n ==> Cluster(d, j) != Cluster(d, k))
    && (forall j, k :: 0 <= j < k < n ==> Key(Slot(d, j)) != Key(Slot(d, k)))
  }

  /** The boot sector `Format` writes. */
  predicate IsBoot(b: seq<u8>)
    requires |b| == 512
  {
    && b[0] == 0xEB && b[1] == 0x3C && b[2] == 0x90
    && b[11] == 0x00 && b[12] == 0x02 && b[13] == 1 && b[14] == 1 && b[15] == 0 && b[16] == 2
    && b[17] == 0x00 && b[18] == 0x02 && b[19] == 0x00 && b[20] == 0xA0 && b[21] == 0xF8
    && b[22] == 160 && b[23] == 0 && b[510] == 0x55 && b[511] == 0xAA
  }

  /** A consistent volume of `n` files, whatever disk errors it has been through. */
  ghost predicate Vol(d: Image, n: nat)
    ensures Vol(d, n) ==> n <= MAX_FILES && Files(d, n) && IsBoot(d[0])
  {
    IsBoot(d[0]) && Dir(d, n) && Files(d, n)
  }

  /** The number of files is determined by the image. */
  lemma VolUnique(d: Image, n: nat, n': nat)
    requires Vol(d, n) && Vol(d, n')
    ensures n == n'
  {
    hide Slot, Files, IsBoot;
  }

  /** The first `n` slots, and the data of their files, are the same on both images. */
  ghost predicate Kept(d: Image, d': Image, n: nat)
    requires n <= MAX_FILES && Files(d, n)
  {
    forall k :: 0 <= k < n ==>
      && Slot(d', k) == Slot(d, k)
      && (DataSector(Cluster(d, k)) < DISK_SECTORS ==> d'[DataSector(Cluster(d, k))] == d[DataSector(Cluster(d, k))])
  }

  /** A write that leaves the directory alone and frees no cluster keeps the volume consistent. */
  lemma SameDirectory(d: Image, d': Image, n: nat)
    requires Vol(d, n) && d'[0] == d[0]
    requires forall k :: 0 <= k < MAX_FILES ==> Slot(d', k) == Slot(d, k)
    requires forall c :: 0 <= c < CLUSTERS && Fat(d, c) != 0 ==> Fat(d', c) != 0
    ensures Vol(d', n)
  {
    hide InUse, ClusterOf, Key, Fat, Slot;
    forall k | 0 <= k < MAX_FILES ensures Cluster(d', k) == Cluster(d, k) && Slot(d', k) == Slot(d, k) {}
    assert Dir(d', n);
    assert Files(d', n) by {
      forall k | 0 <= k < n ensures 2 <= Cluster(d', k) < CLUSTERS && Fat(d', Cluster(d', k)) != 0 {}
      forall j, k | 0 <= j < k < n ensures Cluster(d', j) != Cluster(d', k) { assert Cluster(d, j) != Cluster(d, k); }
      forall j, k | 0 <= j < k < n ensures Key(Slot(d', j)) != Key(Slot(d', k)) { assert Key(Slot(d, j)) != Key(Slot(d, k)); }
    }
  }

  lemma SetFatKeeps(d: Image, n: nat, c: nat, v: u16)
    requires Vol(d, n) && c < CLUSTERS && v != 0
    ensures Vol(SetFat(d, c, v), n) && Kept(d, SetFat(d, c, v), n)
  {
    hide SetFat, Fat, InUse, ClusterOf, Key;
    var d' := SetFat(d, c, v);
    forall k | 0 <= k < MAX_FILES ensures Slot(d', k) == Slot(d, k) { SetFatElsewhere(d, c, v, ROOT_START + k / 16); }
    forall c' | 0 <= c' < CLUSTERS ensures Fat(d, c') != 0 ==> Fat(d', c') != 0 { FatAfterSet(d, c, v, c'); }
    forall k | 0 <= k < n && DataSector(Cluster(d, k)) < DISK_SECTORS
      ensures d'[DataSector(Cluster(d, k))] == d[DataSector(Cluster(d, k))]
    {
      SetFatElsewhere(d, c, v, DataSector(Cluster(d, k)));
    }
    SetFatElsewhere(d, c, v, 0);
    SameDirectory(d, d', n);
  }

  lemma SetFatElsewhere(d: Image, c: nat, v: u16, s: nat)
    requires c < CLUSTERS && (s == 0 || FAT_START + FAT_SECTORS <= s < DISK_SECTORS)
    ensures SetFat(d, c, v)[s] == d[s]
  {}

  lemma MirrorKeeps(d: Image, n: nat, c: nat)
    requires Vol(d, n) && c < CLUSTERS
    ensures Vol(MirrorFat(d, c), n) && Kept(d, MirrorFat(d, c), n)
    ensures forall c' :: 0 <= c' < CLUSTERS ==> Fat(MirrorFat(d, c), c') == Fat(d, c')
  {
    hide InUse, ClusterOf, Key;
    var d' := MirrorFat(d, c);
    forall k | 0 <= k < MAX_FILES ensures Slot(d', k) == Slot(d, k) {}
    forall c' | 0 <= c' < CLUSTERS ensures Fat(d', c') == Fat(d, c') {}
    SameDirectory(d, d', n);
  }

  /** A data write touches no file but the one that owns the cluster. */
  lemma SetDataKeeps(d: Image, n: nat, c: nat, data: Sector)
    requires Vol(d, n) && 2 <= c < CLUSTERS
    ensures Vol(SetData(d, c, data), n)
    ensures forall k :: 0 <= k < n ==> Slot(SetData(d, c, data), k) == Slot(d, k)
    ensures forall k :: 0 <= k < n && Cluster(d, k) != c && DataSector(Cluster(d, k)) < DISK_SECTORS ==>
              SetData(d, c, data)[DataSector(Cluster(d, k))] == d[DataSector(Cluster(d, k))]
    ensures forall c' :: 0 <= c' < CLUSTERS ==> Fat(SetData(d, c, data), c') == Fat(d, c')
  {
    hide InUse, ClusterOf, Key;
    var d' := SetData(d, c, data);
    forall k | 0 <= k < MAX_FILES ensures Slot(d', k) == Slot(d, k) {}
    forall c' | 0 <= c' < CLUSTERS ensures Fat(d', c') == Fat(d, c') {}
    SameDirectory(d, d', n);
  }

  predicate FreshKey(d: Image, n: nat, key: seq<u8>)
    requires n <= MAX_FILES
  {
    forall k :: 0 <= k < n ==> Key(Slot(d, k)) != key
  }

  predicate FreshCluster(d: Image, n: nat, c: nat)
    requires n <= MAX_FILES
  {
    forall k :: 0 <= k < n ==> Cluster(d, k) != c
  }

  lemma SetSlotKeeps(d: Image, n: nat, key: seq<u8>, c: u16, size: u32)
    requires Vol(d, n) && n < MAX_FILES && |key| == 11 && Storable(key) && 2 <= c < CLUSTERS
    requires FreshKey(d, n, key) && FreshCluster(d, n, c) && Fat(d, c) != 0
    ensures var d' := SetSlot(d, n, Entry(key, c, size));
            && Vol(d', n + 1) && Kept(d, d', n) && Slot(d', n) == Entry(key, c, size)
            && forall c' :: 0 <= c' < CLUSTERS ==> Fat(d', c') == Fat(d, c')
  {
    hide InUse, ClusterOf, Key, Entry, SetSlot, Storable, SizeOf;
    var d' := SetSlot(d, n, Entry(key, c, size));
    forall k | 0 <= k < MAX_FILES ensures Slot(d', k) == if k == n then Entry(key, c, size) else Slot(d, k) {
      SlotAfterSet(d, n, Entry(key, c, size), k);
    }
    forall s | 0 <= s < DISK_SECTORS && !(ROOT_START <= s < DATA_START) ensures d'[s] == d[s] {
      SetSlotElsewhere(d, n, Entry(key, c, size), s);
    }
    forall c' | 0 <= c' < CLUSTERS ensures Fat(d', c') == Fat(d, c') {}
    EntryReadsBack(key, c, size);
    AddedSlot(d, d', n, Entry(key, c, size));
  }

  lemma AddedSlot(d: Image, d': Image, n: nat, e: seq<u8>)
    requires Vol(d, n) && n < MAX_FILES && |e| == 32 && InUse(e) && d'[0] == d[0]
    requires FreshKey(d, n, Key(e)) && FreshCluster(d, n, ClusterOf(e)) && 2 <= ClusterOf(e) < CLUSTERS && Fat(d, ClusterOf(e)) != 0
    requires forall k :: 0 <= k < MAX_FILES ==> Slot(d', k) == if k == n then e else Slot(d, k)
    requires forall c :: 0 <= c < CLUSTERS ==> Fat(d', c) == Fat(d, c)
    ensures Vol(d', n + 1)
  {
    hide InUse, ClusterOf, Key, Fat, Slot;
    forall k | 0 <= k < n ensures Cluster(d', k) == Cluster(d, k) && Slot(d', k) == Slot(d, k) {}
    assert Slot(d', n) == e && Cluster(d', n) == ClusterOf(e);
    assert Dir(d', n + 1);
    assert Files(d', n + 1) by {
      forall k | 0 <= k < n + 1 ensures 2 <= Cluster(d', k) < CLUSTERS && Fat(d', Cluster(d', k)) != 0 {}
      forall j, k | 0 <= j < k < n + 1 ensures Cluster(d', j) != Cluster(d', k) {
        if k < n { assert Cluster(d, j) != Cluster(d, k); } else { assert Cluster(d, j) != ClusterOf(e); }
      }
      forall j, k | 0 <= j < k < n + 1 ensures Key(Slot(d', j)) != Key(Slot(d', k)) {
        if k < n { assert Key(Slot(d, j)) != Key(Slot(d, k)); } else { assert Key(Slot(d, j)) != Key(e); }
      }
    }
  }

  /** A slot written under an unstorable name still reads as free. */
  lemma LostSlotKeeps(d: Image, n: nat, key: seq<u8>, c: u16, size: u32)
    requires Vol(d, n) && n < MAX_FILES && |key| == 11 && !Storable(key)
    ensures var d' := SetSlot(d, n, Entry(key, c, size));
            Vol(d', n) && Kept(d, d', n)
  {
    hide InUse, ClusterOf, Key, Entry, SetSlot, SizeOf;
    var e := Entry(key, c, size);
    var d' := SetSlot(d, n, e);
    assert e[0] == key[0] by { EntryReadsBack(key, c, size); FirstOfKey(e); }
    forall k | 0 <= k < MAX_FILES ensures Slot(d', k) == if k == n then e else Slot(d, k) {
      SlotAfterSet(d, n, e, k);
    }
    forall s | 0 <= s < DISK_SECTORS && !(ROOT_START <= s < DATA_START) ensures d'[s] == d[s] {
      SetSlotElsewhere(d, n, e, s);
    }
    forall c' | 0 <= c' < CLUSTERS ensures Fat(d', c') == Fat(d, c') {}
    SameFiles(d, d', n);
  }

  lemma FirstOfKey(e: seq<u8>)
    requires |e| == 32
    ensures |Key(e)| == 11 && Key(e)[0] == e[0]
  {}

  lemma SameFiles(d: Image, d': Image, n: nat)
    requires Vol(d, n) && n < MAX_FILES && d'[0] == d[0]
    requires forall k :: 0 <= k < MAX_FILES && k != n ==> Slot(d', k) == Slot(d, k)
    requires Slot(d', n)[0] == 0 || Slot(d', n)[0] == 0xE5
    requires forall c :: 0 <= c < CLUSTERS ==> Fat(d', c) == Fat(d, c)
    ensures Vol(d', n)
  {
    hide InUse, ClusterOf, Key, Fat, Slot;
    forall k | 0 <= k < n ensures Cluster(d', k) == Cluster(d, k) && Slot(d', k) == Slot(d, k) {}
    assert Dir(d', n);
    assert Files(d', n) by {
      forall k | 0 <= k < n ensures 2 <= Cluster(d', k) < CLUSTERS && Fat(d', Cluster(d', k)) != 0 {}
      forall j, k | 0 <= j < k < n ensures Cluster(d', j) != Cluster(d', k) { assert Cluster(d, j) != Cluster(d, k); }
      forall j, k | 0 <= j < k < n ensures Key(Slot(d', j)) != Key(Slot(d', k)) { assert Key(Slot(d, j)) != Key(Slot(d, k)); }
    }
  }

  /** No file of a consistent volume has an unstorable name. */
  lemma FilesAreStorable(d: Image, n: nat, key: seq<u8>)
    requires Vol(d, n) && |key| == 11 && !Storable(key)
    ensures FreshKey(d, n, key)
  {
    hide Slot;
    forall k | 0 <= k < n ensures Key(Slot(d, k)) != key { FirstOfKey(Slot(d, k)); }
  }

  lemma SetSlotElsewhere(d: Image, k: nat, e: seq<u8>, s: nat)
    requires k < MAX_FILES && |e| == 32 && s < DISK_SECTORS && !(ROOT_START <= s < DATA_START)
    ensures SetSlot(d, k, e)[s] == d[s]
  {}

  // ----- volumes that have only ever been on a reliable disk

  function FirstCopy(d: Image, s: nat): Sector
    requires s < FAT_SECTORS
  {
    d[FAT_START + s]
  }

  function SecondCopy(d: Image, s: nat): Sector
    requires s < FAT_SECTORS
  {
    d[FAT_START + FAT_SECTORS + s]
  }

  /** Both copies of the allocation table agree. */
  ghost predicate Mirrored(d: Image)
  {
    forall s :: 0 <= s < FAT_SECTORS ==> SecondCopy(d, s) == FirstCopy(d, s)
  }

  /** Exactly the first `m` clusters are marked, all as ends of chains. */
  ghost predicate Marked(d: Image, m: nat)
  {
    2 + m <= CLUSTERS && forall c :: 2 <= c < CLUSTERS ==> Fat(d, c) == if c < 2 + m then END_OF_CHAIN else 0
  }

  /** Both tables agree, and exactly the first `m` clusters are marked. */
  ghost predicate Tight(d: Image, n: nat, m: nat)
    ensures Tight(d, n, m) ==> Vol(d, n)
  {
    Vol(d, n) && Marked(d, m) && Mirrored(d)
  }

  /** The number of marked clusters is determined by the image. */
  lemma MarkedUnique(d: Image, m: nat, m': nat)
    requires Marked(d, m) && Marked(d, m')
    ensures m == m'
  {
    hide Marked;
    MarkedAt(d, m, 2 + Min(m, m'));
    MarkedAt(d, m', 2 + Min(m, m'));
  }

  lemma MarkedAt(d: Image, m: nat, c: nat)
    requires Marked(d, m) && 2 <= c
    ensures 2 + m <= CLUSTERS && (c < CLUSTERS ==> Fat(d, c) == if c < 2 + m then END_OF_CHAIN else 0)
  {}

  /** There is a free cluster. */
  ghost predicate HasFree(d: Image)
  {
    exists c :: 2 <= c < CLUSTERS && Fat(d, c) == 0
  }

  /** There is a free cluster whose data sector is on the disk. */
  ghost predicate HasRoom(d: Image)
  {
    exists c :: 2 <= c < CLUSTERS && DataSector(c) < DISK_SECTORS && Fat(d, c) == 0
  }

  /** The lowest free cluster, 0 if there is none. */
  ghost predicate Lowest(d: Image, c: nat)
  {
    && (c == 0 ==> forall x :: 2 <= x < CLUSTERS ==> Fat(d, x) != 0)
    && (c != 0 ==> 2 <= c < CLUSTERS && Fat(d, c) == 0 && forall x :: 2 <= x < c ==> Fat(d, x) != 0)
  }

  lemma LowestDecides(d: Image, c: nat)
    requires Lowest(d, c)
    ensures HasFree(d) <==> c != 0
    ensures HasRoom(d) <==> c != 0 && DataSector(c) < DISK_SECTORS
  {
    hide Fat;
  }

  /** The room left is determined by the number of marked clusters. */
  lemma MarkedDecides(d: Image, m: nat)
    requires Marked(d, m)
    ensures Lowest(d, if 2 + m < CLUSTERS then 2 + m else 0)
    ensures HasFree(d) <==> 2 + m < CLUSTERS
    ensures HasRoom(d) <==> DataSector(2 + m) < DISK_SECTORS
  {
    hide Fat;
    LowestDecides(d, if 2 + m < CLUSTERS then 2 + m else 0);
  }

  /** What a file holds; its data is not there if its cluster lies past the end of the disk. */
  datatype File = File(size: u32, data: Option<Sector>)

  function DataOf(d: Image, c: nat): Option<Sector>
    requires c >= 2
  {
    if DataSector(c) < DISK_SECTORS then Some(d[DataSector(c)]) else None
  }

  function FileAt(d: Image, k: nat): File
    requires k < MAX_FILES && 2 <= Cluster(d, k)
  {
    File(SizeOf(Slot(d, k)), DataOf(d, Cluster(d, k)))
  }

  ghost function Keys(d: Image, n: nat): set<seq<u8>>
    requires n <= MAX_FILES
  {
    set k | 0 <= k < n :: Key(Slot(d, k))
  }

  ghost function SlotFor(d: Image, n: nat, key: seq<u8>): nat
    requires n <= MAX_FILES && key in Keys(d, n)
    ensures SlotFor(d, n, key) < n && Key(Slot(d, SlotFor(d, n, key))) == key
  {
    var k :| 0 <= k < n && Key(Slot(d, k)) == key;
    k
  }

  /** The map from names to files that a volume stands for. */
  ghost function View(d: Image, n: nat): map<seq<u8>, File>
    requires n <= MAX_FILES && Files(d, n)
  {
    map key | key in Keys(d, n) :: FileAt(d, SlotFor(d, n, key))
  }

  lemma SlotForUnique(d: Image, n: nat, k: nat)
    requires Vol(d, n) && k < n
    ensures Key(Slot(d, k)) in Keys(d, n) && SlotFor(d, n, Key(Slot(d, k))) == k
  {
    hide Slot, Key;
  }

  lemma KeysStep(d: Image, n: nat)
    requires 0 < n <= MAX_FILES
    ensures Keys(d, n) == Keys(d, n - 1) + {Key(Slot(d, n - 1))}
  {
    hide Slot, Key;
    forall key | key in Keys(d, n) ensures key in Keys(d, n - 1) + {Key(Slot(d, n - 1))} {
      var k := SlotFor(d, n, key);
      assert k < n - 1 ==> Key(Slot(d, k)) in Keys(d, n - 1);
    }
  }

  lemma {:induction false} KeysCount(d: Image, n: nat)
    requires n <= MAX_FILES && forall j, k :: 0 <= j < k < n ==> Key(Slot(d, j)) != Key(Slot(d, k))
    ensures |Keys(d, n)| == n
  {
    hide Slot, Key;
    if n > 0 {
      KeysCount(d, n - 1);
      KeysStep(d, n);
      hide Keys;
      assert Key(Slot(d, n - 1)) !in Keys(d, n - 1);
    }
  }

  lemma MarkStep(d: Image, m: nat)
    requires Marked(d, m) && Mirrored(d) && 2 + m < CLUSTERS
    ensures var d' := MirrorFat(SetFat(d, 2 + m, END_OF_CHAIN), 2 + m);
            Marked(d', m + 1) && Mirrored(d')
  {
    hide Fat;
    var d1 := SetFat(d, 2 + m, END_OF_CHAIN);
    var d' := MirrorFat(d1, 2 + m);
    forall c | 0 <= c < CLUSTERS ensures Fat(d', c) == if c == 2 + m then END_OF_CHAIN else Fat(d, c) {
      FatAfterSet(d, 2 + m, END_OF_CHAIN, c);
      MirrorFatReads(d1, 2 + m, c);
    }
    forall s | 0 <= s < FAT_SECTORS ensures SecondCopy(d', s) == FirstCopy(d', s) {
      assert SecondCopy(d, s) == FirstCopy(d, s);
    }
  }

  lemma MirrorFatReads(d: Image, c: nat, c': nat)
    requires c < CLUSTERS && c' < CLUSTERS
    ensures Fat(MirrorFat(d, c), c') == Fat(d, c')
  {}

  lemma KeptChain(d: Image, d1: Image, d2: Image, n: nat)
    requires n <= MAX_FILES && Files(d, n) && Files(d1, n) && Kept(d, d1, n) && Kept(d1, d2, n)
    ensures Kept(d, d2, n)
  {
    hide Slot, ClusterOf;
    forall k | 0 <= k < n ensures Cluster(d1, k) == Cluster(d, k) {}
  }

  /** Writes to the directory or the data area leave the tables alone. */
  lemma TablesKept(d: Image, d': Image, m: nat)
    requires Marked(d, m) && Mirrored(d)
    requires forall s :: FAT_START <= s < ROOT_START ==> d'[s] == d[s]
    ensures Marked(d', m) && Mirrored(d')
  {
    forall c | 2 <= c < CLUSTERS ensures Fat(d', c) == Fat(d, c) {}
    forall s | 0 <= s < FAT_SECTORS ensures SecondCopy(d', s) == FirstCopy(d', s) {
      assert SecondCopy(d, s) == FirstCopy(d, s);
    }
  }

  lemma SetSlotTables(d: Image, k: nat, e: seq<u8>, m: nat)
    requires k < MAX_FILES && |e| == 32 && Marked(d, m) && Mirrored(d)
    ensures Marked(SetSlot(d, k, e), m) && Mirrored(SetSlot(d, k, e))
  {
    hide Fat, FirstCopy, SecondCopy;
    TablesKept(d, SetSlot(d, k, e), m);
  }

  lemma SetDataTables(d: Image, c: nat, data: Sector, m: nat)
    requires 2 <= c && Marked(d, m) && Mirrored(d)
    ensures Marked(SetData(d, c, data), m) && Mirrored(SetData(d, c, data))
  {
    hide Fat, FirstCopy, SecondCopy;
    TablesKept(d, SetData(d, c, data), m);
  }

  lemma KeysKept(d: Image, d': Image, n: nat)
    requires n <= MAX_FILES && forall k :: 0 <= k < n ==> Slot(d', k) == Slot(d, k)
    ensures Keys(d', n) == Keys(d, n)
  {
    hide Slot, Key;
    forall x | x in Keys(d', n) ensures x in Keys(d, n) { assert Key(Slot(d, SlotFor(d', n, x))) == x; }
    forall x | x in Keys(d, n) ensures x in Keys(d', n) { assert Key(Slot(d', SlotFor(d, n, x))) == x; }
  }

  lemma FileKept(d: Image, d': Image, n: nat, k: nat)
    requires n <= MAX_FILES && Files(d, n) && Kept(d, d', n) && k < n
    ensures Cluster(d', k) == Cluster(d, k) >= 2 && FileAt(d', k) == FileAt(d, k)
  {
    hide Slot, ClusterOf, SizeOf, Fat, Key;
    assert Slot(d', k) == Slot(d, k);
  }

  lemma SlotForKept(d: Image, d': Image, n: nat, key: seq<u8>)
    requires n < MAX_FILES && Vol(d, n) && Vol(d', n + 1) && Kept(d, d', n) && key in Keys(d, n)
    ensures key in Keys(d', n + 1) && SlotFor(d', n + 1, key) == SlotFor(d, n, key)
  {
    hide Slot, ClusterOf, Fat, InUse, Key, Dir, Keys;
    var k := SlotFor(d, n, key);
    assert Slot(d', k) == Slot(d, k);
    SlotForUnique(d', n + 1, k);
  }

  lemma NewFile(d: Image, n: nat, key: seq<u8>, c: u16, size: u32)
    requires n < MAX_FILES && |key| == 11 && Vol(d, n + 1) && Slot(d, n) == Entry(key, c, size)
    ensures key in Keys(d, n + 1) && SlotFor(d, n + 1, key) == n
    ensures Cluster(d, n) == c >= 2 && FileAt(d, n) == File(size, DataOf(d, c))
  {
    hide Slot, ClusterOf, Entry, Fat, InUse, Key, Dir, SizeOf;
    EntryReadsBack(key, c, size);
    SlotForUnique(d, n + 1, n);
  }

  lemma NewKeys(d: Image, d': Image, n: nat, key: seq<u8>, c: u16, size: u32)
    requires n < MAX_FILES && |key| == 11 && Vol(d, n) && Kept(d, d', n) && Slot(d', n) == Entry(key, c, size)
    ensures Keys(d', n + 1) == Keys(d, n) + {key}
  {
    hide Slot, ClusterOf, Entry, Fat, InUse, Key, Dir, SizeOf, Keys;
    EntryReadsBack(key, c, size);
    KeysStep(d', n + 1);
    KeysKept(d, d', n);
  }

  lemma OldFile(d: Image, d': Image, n: nat, x: seq<u8>)
    requires n < MAX_FILES && Vol(d, n) && Vol(d', n + 1) && Kept(d, d', n) && x in Keys(d, n)
    ensures x in Keys(d', n + 1) && SlotFor(d', n + 1, x) == SlotFor(d, n, x)
    ensures var k := SlotFor(d, n, x);
            Cluster(d', k) == Cluster(d, k) >= 2 && FileAt(d', k) == FileAt(d, k)
    ensures forall key :: FreshKey(d, n, key) ==> x != key
  {
    hide Slot, ClusterOf, Fat, InUse, Key, Dir, SizeOf, Keys, FileAt;
    SlotForKept(d, d', n, x);
    FileKept(d, d', n, SlotFor(d, n, x));
  }

  lemma ViewIsMap(d: Image, n: nat)
    requires n <= MAX_FILES && Files(d, n)
    ensures View(d, n).Keys == Keys(d, n)
    ensures forall x :: x in Keys(d, n) ==> Cluster(d, SlotFor(d, n, x)) >= 2
    ensures forall x :: x in Keys(d, n) ==> View(d, n)[x] == FileAt(d, SlotFor(d, n, x))
  {
    hide Slot, ClusterOf, Keys, FileAt, Fat, Key;
  }

  /** The map gains exactly the new file. */
  lemma ViewAfterCreate(d: Image, d': Image, n: nat, key: seq<u8>, c: u16, size: u32)
    requires n < MAX_FILES && |key| == 11 && Vol(d, n) && Vol(d', n + 1) && 2 <= c
    requires Kept(d, d', n) && Slot(d', n) == Entry(key, c, size) && FreshKey(d, n, key)
    ensures View(d', n + 1) == View(d, n)[key := File(size, DataOf(d', c))]
  {
    hide Slot, ClusterOf, Entry, Fat, InUse, Key, Dir, SizeOf, Keys, FileAt, View, Cluster, Kept, Files, Vol, DataOf;
    NewFile(d', n, key, c, size);
    NewKeys(d, d', n, key, c, size);
    forall x | x in Keys(d, n)
      ensures x != key && SlotFor(d', n + 1, x) == SlotFor(d, n, x)
      ensures Cluster(d', SlotFor(d, n, x)) == Cluster(d, SlotFor(d, n, x)) >= 2
      ensures FileAt(d', SlotFor(d, n, x)) == FileAt(d, SlotFor(d, n, x))
    {
      OldFile(d, d', n, x);
    }
    ViewIsMap(d, n);
    ViewIsMap(d', n + 1);
  }

  /** A cluster whose entry is zero belongs to no file. */
  lemma FreeIsFresh(d: Image, n: nat, c: nat)
    requires Vol(d, n) && c < CLUSTERS && Fat(d, c) == 0
    ensures FreshCluster(d, n, c)
  {
    hide Slot, ClusterOf, Fat, InUse, Key;
  }

  lemma KeptIsFresh(d: Image, d': Image, n: nat, c: nat, key: seq<u8>)
    requires n <= MAX_FILES && Files(d, n) && Kept(d, d', n)
    ensures FreshCluster(d, n, c) ==> FreshCluster(d', n, c)
    ensures FreshKey(d, n, key) ==> FreshKey(d', n, key)
  {
    hide Slot, ClusterOf, Fat, Key;
    forall k | 0 <= k < n ensures Cluster(d', k) == Cluster(d, k) && Slot(d', k) == Slot(d, k) {}
  }

  /** Reserving a cluster, with or without the second copy reaching the disk. */
  lemma ReserveKeeps(d: Image, d': Image, n: nat, c: nat)
    requires Vol(d, n) && 2 <= c < CLUSTERS && Fat(d, c) == 0
    requires d' == SetFat(d, c, END_OF_CHAIN) || d' == MirrorFat(SetFat(d, c, END_OF_CHAIN), c)
    ensures Vol(d', n) && Kept(d, d', n) && FreshCluster(d', n, c) && Fat(d', c) != 0
  {
    hide Slot, ClusterOf, Fat, Key, SetFat, MirrorFat, InUse, Dir, IsBoot;
    var d0 := SetFat(d, c, END_OF_CHAIN);
    FreeIsFresh(d, n, c);
    SetFatKeeps(d, n, c, END_OF_CHAIN);
    FatAfterSet(d, c, END_OF_CHAIN, c);
    if d' != d0 {
      MirrorKeeps(d0, n, c);
      KeptChain(d, d0, d', n);
    }
    KeptIsFresh(d, d', n, c, []);
  }

  /** Nothing changes for the map when every file is kept. */
  lemma ViewKept(d: Image, d': Image, n: nat)
    requires Vol(d, n) && Vol(d', n) && Kept(d, d', n)
    ensures View(d', n) == View(d, n)
  {
    hide Slot, ClusterOf, Fat, InUse, Key, Dir, SizeOf, Keys, FileAt, View;
    KeysKept(d, d', n);
    ViewIsMap(d, n);
    ViewIsMap(d', n);
    forall x | x in Keys(d, n)
      ensures SlotFor(d', n, x) == SlotFor(d, n, x) && View(d', n)[x] == View(d, n)[x]
    {
      var k := SlotFor(d, n, x);
      assert Slot(d', k) == Slot(d, k);
      SlotForUnique(d', n, k);
      FileKept(d, d', n, k);
    }
  }

  // ----- the format on disk, byte for byte

  /** A 16-bit number, low byte first. */
  function U16At(s: seq<u8>, i: nat): nat
    requires i + 2 <= |s|
  {
    var low: int, high: int := s[i], s[i + 1];
    low + 256 * high
  }

  /** Table entry `c` is the 16-bit number at byte `2 * c` of the table, slot `k` the 32 bytes at `32 * k` of the
      directory. */
  lemma OnDisk(d: Image, c: nat, k: nat)
    requires c < CLUSTERS && k < MAX_FILES
    ensures Fat(d, c) == U16At(d[1 + 2 * c / 512], 2 * c % 512)
    ensures Slot(d, k) == d[321 + 32 * k / 512][32 * k % 512..32 * k % 512 + 32]
    ensures c >= 2 ==> DataSector(c) == 353 + c - 2
  {
    assert 2 * c / 512 == c / 256 && 2 * c % 512 == 2 * (c % 256);
    assert 32 * k / 512 == k / 16 && 32 * k % 512 == 32 * (k % 16);
  }

  /** A written slot: the name in bytes 0 to 10, no attributes, the cluster at 26 and the size at 28, low bytes
      first. */
  lemma EntryLayout(key: seq<u8>, cluster: u16, size: u32)
    requires |key| == 11
    ensures var e := Entry(key, cluster, size);
            && e[0..11] == key && (forall i :: 11 <= i < 26 ==> e[i] == 0)
            && U16At(e, 26) == cluster && U16At(e, 28) + U16At(e, 30) * 0x1_0000 == size
  {
    EntryReadsBack(key, cluster, size);
  }

  /** The attribute that tells a volume label from a file is bit 3. */
  lemma LabelBit(e: seq<u8>)
    requires |e| == 32
    ensures InUse(e) <==> e[0] != 0 && e[0] != 0xE5 && Octets.ByteOf(e[11]) & 0x08 == 0
  {
    Octets.SplitJoin(Octets.Digits(e[11]));
    EighthHalf(e[11]);
  }

  lemma EighthHalf(n: nat)
    ensures Octets.Digits(n).b3 <==> n / 8 % 2 == 1
  {}

  /** The boot sector describes this layout. */
  lemma BootDescribes(b: Sector)
    requires IsBoot(b)
    ensures U16At(b, 11) == 512 && b[13] == 1 && U16At(b, 510) == 0xAA55
    ensures FAT_START == U16At(b, 14) && FAT_SECTORS == U16At(b, 22) && ROOT_START == U16At(b, 14) + b[16] * U16At(b, 22)
    ensures MAX_FILES == U16At(b, 17) && ROOT_SECTORS * 512 == U16At(b, 17) * 32 && DATA_START == ROOT_START + ROOT_SECTORS
    ensures DISK_SECTORS == U16At(b, 19) && CLUSTERS * 2 == FAT_SECTORS * 512
  {}
}
