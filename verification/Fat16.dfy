/** The FAT16 driver: mount, format, create and read, over a disk whose operations may fail. */
module Fat16 {
  import opened Basics
  import opened Fat16Image

  /** What becomes of an operation: it works, it fails, or, for a write, it reaches the drive and
      then fails because the flush is never acknowledged. */
  datatype Fate = Works | Fails | FailsLate

  /** An array of 512-byte sectors. `faults` says how the coming operations end; once it is
      exhausted every operation inside the disk works. */
  class Disk {
    var sectors: Image
    var faults: seq<Fate>

    predicate Reliable()
      reads this`faults
    {
      faults == []
    }

    constructor (image: Image, script: seq<Fate>)
      ensures sectors == image && faults == script
    {
      sectors, faults := image, script;
    }

    method Next() returns (fate: Fate)
      modifies this`faults
      ensures old(Reliable()) ==> fate == Works && Reliable()
    {
      if faults == [] { return Works; }
      fate := faults[0];
      faults := faults[1..];
    }

    method ReadSector(lba: nat, buf: array<u8>) returns (ok: bool)
      requires buf.Length == 512
      modifies this`faults, buf
      ensures ok ==> lba < DISK_SECTORS && buf[..] == sectors[lba]
      ensures !ok ==> buf[..] == old(buf[..])
      ensures old(Reliable()) ==> Reliable() && (ok <==> lba < DISK_SECTORS)
    {
      var fate := Next();
      if fate != Works || lba >= DISK_SECTORS { return false; }
      forall i | 0 <= i < 512 { buf[i] := sectors[lba][i]; }
      assert buf[..] == sectors[lba];
      return true;
    }

    method WriteSector(lba: nat, buf: array<u8>) returns (ok: bool)
      requires buf.Length == 512
      modifies this
      ensures ok ==> lba < DISK_SECTORS && sectors == old(sectors)[lba := buf[..]]
      ensures !ok ==> sectors == old(sectors) || (lba < DISK_SECTORS && sectors == old(sectors)[lba := buf[..]])
      ensures old(Reliable()) ==> Reliable() && (ok <==> lba < DISK_SECTORS)
    {
      var fate := Next();
      if fate == Fails || lba >= DISK_SECTORS { return false; }
      sectors := sectors[lba := buf[..]];
      return fate == Works;
    }
  }

  /** How a search ended: by coming to its end, a hit, an unreadable sector, or the end mark. */
  datatype Scan = Absent | Present | Broken | Ended

  class Volume {
    const disk: Disk
    const fatBuf: array<u8>
    var bytesPerSec: nat
    var secPerClust: nat
    var reservedSec: nat
    var numFATs: nat
    var rootEntCnt: nat
    var totSec16: nat
    var fatSz16: nat
    var fatStart: nat
    var rootStart: nat
    var dataStart: nat
    var rootSectors: nat
    var initialized: bool

    ghost predicate Buffered()
    {
      fatBuf.Length == 512
    }

    /** Mounted with the layout that `Format` writes. */
    ghost predicate Mounted()
      reads this
    {
      && Buffered() && initialized && secPerClust == 1 && fatSz16 == FAT_SECTORS && fatStart == FAT_START
      && rootStart == ROOT_START && rootSectors == ROOT_SECTORS && dataStart == DATA_START
    }

    constructor (d: Disk)
      ensures disk == d && Buffered() && fresh(fatBuf) && !initialized
    {
      disk := d;
      fatBuf := new u8[512](_ => 0);
      bytesPerSec, secPerClust, reservedSec, numFATs, rootEntCnt, totSec16, fatSz16 := 0, 0, 0, 0, 0, 0, 0;
      fatStart, rootStart, dataStart, rootSectors := 0, 0, 0, 0;
      initialized := false;
    }

    // ----- mounting and formatting

    /** Mount: read the parameter block and compute the layout. Mounting a volume that holds files
        makes them the contents; mounting again changes nothing. */
    method Init() returns (ok: bool)
      requires Buffered()
      modifies this, disk`faults, fatBuf
      ensures ok ==> initialized && Bpb(disk.sectors[0]) && Parameters(disk.sectors[0]) && Offsets()
      ensures ok && IsBoot(disk.sectors[0]) ==> Mounted()
      ensures forall n :: ok && Vol(disk.sectors, n) ==> Consistent() && count == n
      ensures forall n, m :: ok && Tight(disk.sectors, n, m) ==> marked == m
      ensures old(Consistent()) ==> Consistent() && Contents() == old(Contents())
      ensures old(Sound()) ==> Sound() && marked == old(marked)
      ensures old(disk.Reliable()) ==> disk.Reliable() && (ok <==> Bpb(disk.sectors[0]))
      ensures !ok ==> !initialized || initialized == old(initialized)
      ensures old(disk.Reliable()) && !ok ==> initialized == (old(initialized) && Signed(disk.sectors[0]))
      ensures old(disk.Reliable()) && Signed(disk.sectors[0]) ==> Parameters(disk.sectors[0])
      ensures !ok ==> fatStart == old(fatStart) && rootStart == old(rootStart)
                      && dataStart == old(dataStart) && rootSectors == old(rootSectors)
    {
      hide Tight, Vol, View;
      ok := disk.ReadSector(0, fatBuf);
      if !ok { return false; }
      assert fatBuf[..] == disk.sectors[0];
      if Consistent() { VolBoots(disk.sectors, count); }
      if fatBuf[510] != 0x55 || fatBuf[511] != 0xAA {
        initialized := false;
        return false;
      }
      ReadParameters();
      if bytesPerSec != 512 { return false; }
      ComputeOffsets();
      initialized := true;
      Recount();
      return true;
    }

    method ReadParameters()
      requires Buffered()
      modifies this`bytesPerSec, this`secPerClust, this`reservedSec, this`numFATs, this`rootEntCnt, this`totSec16, this`fatSz16
      ensures Parameters(fatBuf[..])
    {
      bytesPerSec := Word(fatBuf[11], fatBuf[12]);
      secPerClust := fatBuf[13];
      reservedSec := Word(fatBuf[14], fatBuf[15]);
      numFATs := fatBuf[16];
      rootEntCnt := Word(fatBuf[17], fatBuf[18]);
      totSec16 := Word(fatBuf[19], fatBuf[20]);
      fatSz16 := Word(fatBuf[22], fatBuf[23]);
    }

    /** The parameters are those of this boot sector. */
    ghost predicate Parameters(b: seq<u8>)
      reads this
      requires |b| == 512
    {
      && bytesPerSec == Word(b[11], b[12]) && secPerClust == b[13] && reservedSec == Word(b[14], b[15]) && numFATs == b[16]
      && rootEntCnt == Word(b[17], b[18]) && totSec16 == Word(b[19], b[20]) && fatSz16 == Word(b[22], b[23])
    }

    /** The tables follow the reserved sectors, the directory the tables, and the data the directory. */
    ghost predicate Offsets()
      reads this
    {
      && fatStart == reservedSec && rootStart == fatStart + numFATs * fatSz16
      && 512 * rootSectors - 511 <= rootEntCnt * 32 <= 512 * rootSectors && dataStart == rootStart + rootSectors
    }

    /** The offsets, in sectors, that follow from the parameters. */
    method ComputeOffsets()
      modifies this`fatStart, this`rootStart, this`rootSectors, this`dataStart
      ensures Offsets() && rootSectors == (rootEntCnt * 32 + 511) / 512
    {
      fatStart := reservedSec;
      rootStart := fatStart + numFATs * fatSz16;
      rootSectors := (rootEntCnt * 32 + 511) / 512;
      dataStart := rootStart + rootSectors;
    }

    /** Note how many files and marked clusters the disk has, if it is consistent. */
    ghost method Recount()
      modifies this`count, this`marked
      ensures forall n :: Vol(disk.sectors, n) ==> count == n
      ensures forall n, m :: Tight(disk.sectors, n, m) ==> marked == m
    {
      hide Vol, Marked, Mirrored;
      if n :| Vol(disk.sectors, n) {
        count := n;
        forall x | Vol(disk.sectors, x) ensures x == n { VolUnique(disk.sectors, x, n); }
      }
      if m :| Marked(disk.sectors, m) {
        marked := m;
        forall x | Marked(disk.sectors, x) ensures x == m { MarkedUnique(disk.sectors, x, m); }
      }
    }

    method FillBoot()
      requires Buffered()
      modifies fatBuf
      ensures IsBoot(fatBuf[..]) && Labelled(fatBuf[..])
    {
      FillLabel();
      FillParameters();
      fatBuf[510], fatBuf[511] := 0x55, 0xAA;
    }

    method FillParameters()
      requires Buffered()
      modifies fatBuf
      ensures forall i :: 0 <= i < 512 && !(11 <= i < 24) ==> fatBuf[i] == old(fatBuf[i])
      ensures fatBuf[11] == 0x00 && fatBuf[12] == 0x02 && fatBuf[13] == 1 && fatBuf[14] == 1 && fatBuf[15] == 0 && fatBuf[16] == 2
      ensures fatBuf[17] == 0x00 && fatBuf[18] == 0x02 && fatBuf[19] == 0x00 && fatBuf[20] == 0xA0 && fatBuf[21] == 0xF8
      ensures fatBuf[22] == 160 && fatBuf[23] == 0
    {
      fatBuf[11], fatBuf[12] := 0x00, 0x02;
      fatBuf[13] := 1;
      fatBuf[14], fatBuf[15] := 1, 0;
      fatBuf[16] := 2;
      fatBuf[17], fatBuf[18] := 0x00, 0x02;
      fatBuf[19], fatBuf[20] := 0x00, 0xA0;
      fatBuf[21] := 0xF8;
      fatBuf[22], fatBuf[23] := 160, 0;
    }

    /** The jump and the label; zeros after them. */
    method FillLabel()
      requires Buffered()
      modifies fatBuf
      ensures fatBuf[0] == 0xEB && fatBuf[1] == 0x3C && fatBuf[2] == 0x90
      ensures (forall i :: 3 <= i < 11 ==> fatBuf[i] == OEM[i - 3]) && forall i :: 11 <= i < 512 ==> fatBuf[i] == 0
    {
      for i := 0 to 512
        invariant forall j :: 0 <= j < i ==> fatBuf[j] == 0
      {
        fatBuf[i] := 0;
      }
      fatBuf[0], fatBuf[1], fatBuf[2] := 0xEB, 0x3C, 0x90;
      for i := 0 to 8
        invariant fatBuf[0] == 0xEB && fatBuf[1] == 0x3C && fatBuf[2] == 0x90
        invariant forall j :: 3 <= j < 3 + i ==> fatBuf[j] == OEM[j - 3]
        invariant forall j :: 11 <= j < 512 ==> fatBuf[j] == 0
      {
        fatBuf[3 + i] := OEM[i];
      }
    }

    /** Zero `many` sectors from `from` on. */
    method ZeroSectors(from: nat, many: nat) returns (ok: bool)
      requires Buffered() && fatBuf[..] == Blank() && from + many <= DISK_SECTORS
      modifies disk
      ensures ok ==> Zeroed(old(disk.sectors), disk.sectors, from, from + many)
      ensures !ok ==> exists k :: from <= k <= from + many && Zeroed(old(disk.sectors), disk.sectors, from, k)
      ensures old(disk.Reliable()) ==> ok && disk.Reliable()
    {
      for sec := 0 to many
        invariant Zeroed(old(disk.sectors), disk.sectors, from, from + sec)
        invariant old(disk.Reliable()) ==> disk.Reliable()
      {
        ghost var before := disk.sectors;
        ok := disk.WriteSector(from + sec, fatBuf);
        if disk.sectors != before { assert Zeroed(old(disk.sectors), disk.sectors, from, from + sec + 1); }
        if !ok { return false; }
        assert Zeroed(old(disk.sectors), disk.sectors, from, from + sec + 1);
      }
      return true;
    }

    /** A mounted volume that is formatted is empty, without being mounted again. */
    method Format() returns (ok: bool)
      requires Buffered()
      modifies disk, fatBuf, this`count, this`marked
      ensures ok ==> Formatted(disk.sectors) && Labelled(disk.sectors[0])
      ensures !ok ==> exists k :: 0 <= k <= DATA_START && FormattedUpTo(old(disk.sectors), disk.sectors, k)
      ensures ok ==> forall s :: DATA_START <= s < DISK_SECTORS ==> disk.sectors[s] == old(disk.sectors)[s]
      ensures ok && Mounted() ==> Consistent() && Contents() == map[] && marked == 0 && (disk.Reliable() ==> Sound())
      ensures old(disk.Reliable()) ==> ok && disk.Reliable()
    {
      hide IsBoot, Labelled, Tight, Vol, View, Zeroed, FormattedUpTo;
      ghost var d := disk.sectors;
      FillBoot();
      ok := disk.WriteSector(0, fatBuf);
      BootWritten(d, disk.sectors, fatBuf[..]);
      if !ok { return false; }
      for i := 0 to 512
        invariant forall j :: 0 <= j < i ==> fatBuf[j] == 0
        modifies fatBuf
      {
        fatBuf[i] := 0;
      }
      assert fatBuf[..] == Blank();
      ok := ZeroPart(d, 1, 160);
      if !ok { return false; }
      ok := ZeroPart(d, 1 + 160, 160);
      if !ok { return false; }
      ok := ZeroPart(d, 1 + 160 * 2, 32);
      if ok {
        count, marked := 0, 0;
        FullyFormatted(d, disk.sectors);
        FormattedIsTight(disk.sectors);
      }
    }

    /** Zero the next part of the disk that is being formatted. */
    method ZeroPart(ghost d: Image, from: nat, many: nat) returns (ok: bool)
      requires Buffered() && fatBuf[..] == Blank() && 0 < from && from + many <= DATA_START && FormattedUpTo(d, disk.sectors, from)
      modifies disk
      ensures ok ==> FormattedUpTo(d, disk.sectors, from + many)
      ensures !ok ==> exists k :: 0 <= k <= DATA_START && FormattedUpTo(d, disk.sectors, k)
      ensures old(disk.Reliable()) ==> ok && disk.Reliable()
    {
      hide Zeroed, FormattedUpTo;
      ok := ZeroSectors(from, many);
      ghost var k := from + many;
      if !ok { k :| from <= k <= from + many && Zeroed(old(disk.sectors), disk.sectors, from, k); }
      FormatGoesOn(d, old(disk.sectors), disk.sectors, from, k);
    }

    // ----- scanning the directory

    method Matches(off: nat, name: seq<u8>, ext: seq<u8>) returns (m: bool)
      requires Buffered() && off + 32 <= 512 && |name| == 8 && |ext| == 3
      ensures m <==> fatBuf[off..off + 11] == name + ext
    {
      for j := 0 to 8
        invariant fatBuf[off..off + j] == name[..j]
      {
        if fatBuf[off + j] != name[j] {
          assert fatBuf[off..off + 11][j] != (name + ext)[j];
          return false;
        }
      }
      for j := 0 to 3
        invariant fatBuf[off + 8..off + 8 + j] == ext[..j]
      {
        if fatBuf[off + 8 + j] != ext[j] {
          assert fatBuf[off..off + 11][8 + j] != (name + ext)[8 + j];
          return false;
        }
      }
      assert fatBuf[off..off + 11] == fatBuf[off..off + 8] + fatBuf[off + 8..off + 11];
      return true;
    }

    /** Search one directory sector in the buffer for a name. */
    method ScanSector(sec: nat, name: seq<u8>, ext: seq<u8>, ghost n: nat) returns (found: bool)
      requires Buffered() && sec < ROOT_SECTORS && |name| == 8 && |ext| == 3
      requires fatBuf[..] == disk.sectors[ROOT_START + sec] && Dir(disk.sectors, n)
      ensures found <==> exists k :: 16 * sec <= k < 16 * sec + 16 && k < n && Key(Slot(disk.sectors, k)) == name + ext
    {
      hide Slot, InUse;
      ghost var d := disk.sectors;
      for i := 0 to 16
        invariant forall k :: 16 * sec <= k < 16 * sec + i && k < n ==> Key(Slot(d, k)) != name + ext
      {
        var off := i * 32;
        ghost var k := 16 * sec + i;
        SlotInBuffer(d, sec, i, fatBuf[..]);
        SlotUse(d, n, k);
        if fatBuf[off] == 0x00 { return false; }
        if fatBuf[off] != 0xE5 && (fatBuf[off + 11] / 8) % 2 == 0 {
          var m := Matches(off, name, ext);
          if m { return true; }
        }
      }
      return false;
    }

    method CheckDuplicate(name: seq<u8>, ext: seq<u8>, ghost n: nat) returns (r: Scan)
      requires Mounted() && |name| == 8 && |ext| == 3 && Dir(disk.sectors, n)
      modifies disk`faults, fatBuf
      ensures r == Absent ==> FreshKey(disk.sectors, n, name + ext)
      ensures r == Present ==> !FreshKey(disk.sectors, n, name + ext)
      ensures r != Ended && (old(disk.Reliable()) ==> disk.Reliable() && r != Broken)
    {
      hide Slot, Key, InUse;
      for sec := 0 to rootSectors
        invariant forall k :: 0 <= k < 16 * sec && k < n ==> Key(Slot(disk.sectors, k)) != name + ext
        invariant old(disk.Reliable()) ==> disk.Reliable()
      {
        var ok := disk.ReadSector(rootStart + sec, fatBuf);
        if !ok { return Broken; }
        var found := ScanSector(sec, name, ext, n);
        if found { return Present; }
      }
      return Absent;
    }

    method FindFreeEntry(ghost n: nat) returns (r: Scan, dirSec: nat, dirOff: nat)
      requires Mounted() && Dir(disk.sectors, n)
      modifies disk`faults, fatBuf
      ensures r == Present ==> dirSec < ROOT_SECTORS && dirOff < 512 && dirOff % 32 == 0 && n == 16 * dirSec + dirOff / 32 < MAX_FILES
      ensures r == Absent ==> n == MAX_FILES
      ensures r != Ended && (old(disk.Reliable()) ==> disk.Reliable() && r != Broken)
    {
      hide Slot, InUse;
      dirSec, dirOff := 0, 0;
      for sec := 0 to rootSectors
        invariant 16 * sec <= n
        invariant old(disk.Reliable()) ==> disk.Reliable()
      {
        var ok := disk.ReadSector(rootStart + sec, fatBuf);
        if !ok { return Broken, 0, 0; }
        for i := 0 to 16
          invariant 16 * sec + i <= n
          modifies {}
        {
          SlotInBuffer(disk.sectors, sec, i, fatBuf[..]);
          SlotUse(disk.sectors, n, 16 * sec + i);
          if fatBuf[i * 32] == 0x00 || fatBuf[i * 32] == 0xE5 {
            return Present, sec, i * 32;
          }
        }
      }
      return Absent, 0, 0;
    }

    // ----- the allocation table

    method FindFreeCluster() returns (c: nat)
      requires Mounted()
      modifies disk`faults, fatBuf
      ensures c != 0 ==> 2 <= c < CLUSTERS && Fat(disk.sectors, c) == 0
      ensures c != 0 ==> forall x :: 2 <= x < c ==> Fat(disk.sectors, x) != 0
      ensures old(disk.Reliable()) ==> disk.Reliable()
      ensures old(disk.Reliable()) && c == 0 ==> forall x :: 2 <= x < CLUSTERS ==> Fat(disk.sectors, x) != 0
    {
      hide Fat;
      for sec := 0 to fatSz16
        invariant forall x :: 2 <= x < 256 * sec ==> Fat(disk.sectors, x) != 0
        invariant old(disk.Reliable()) ==> disk.Reliable()
      {
        var ok := disk.ReadSector(fatStart + sec, fatBuf);
        if !ok { return 0; }
        for i := 0 to 256
          invariant forall x :: 2 <= x < 256 * sec + i ==> Fat(disk.sectors, x) != 0
          modifies {}
        {
          var cluster := sec * 256 + i;
          FatInBuffer(disk.sectors, sec, i, fatBuf[..]);
          if cluster >= 2 && Word(fatBuf[i * 2], fatBuf[i * 2 + 1]) == 0 {
            return cluster;
          }
        }
      }
      return 0;
    }

    method SetFATEntry(cluster: u16, value: u16) returns (ok: bool)
      requires Mounted() && cluster < CLUSTERS
      modifies disk, fatBuf
      ensures ok ==> disk.sectors == SetFat(old(disk.sectors), cluster, value)
                     || disk.sectors == MirrorFat(SetFat(old(disk.sectors), cluster, value), cluster)
      ensures !ok ==> disk.sectors == old(disk.sectors) || disk.sectors == SetFat(old(disk.sectors), cluster, value)
      ensures old(disk.Reliable()) ==>
                ok && disk.Reliable() && disk.sectors == MirrorFat(SetFat(old(disk.sectors), cluster, value), cluster)
    {
      var fatOffset := cluster * 2;
      var sec, off := fatOffset / 512, fatOffset % 512;
      assert sec == cluster / 256 && off == 2 * (cluster % 256);
      ok := disk.ReadSector(fatStart + sec, fatBuf);
      if !ok { return false; }
      ghost var was := fatBuf[..];
      fatBuf[off] := value % 256;
      fatBuf[off + 1] := value / 256;
      ghost var low: seq<u8> := was[off := LowByte(value)];
      assert fatBuf[..] == low[off + 1 := HighByte(value)];
      ok := disk.WriteSector(fatStart + sec, fatBuf);
      assert disk.sectors == old(disk.sectors) || disk.sectors == SetFat(old(disk.sectors), cluster, value);
      if !ok { return false; }
      assert disk.sectors == SetFat(old(disk.sectors), cluster, value);
      var mirrored := disk.WriteSector(fatStart + fatSz16 + sec, fatBuf);
      return true;
    }

    // ----- writing a file

    method FillEntry(off: nat, name: seq<u8>, ext: seq<u8>, cluster: u16, dataLen: u32)
      requires Buffered() && off + 32 <= 512 && |name| == 8 && |ext| == 3
      modifies fatBuf
      ensures fatBuf[off..off + 32] == Entry(name + ext, cluster, dataLen)
      ensures fatBuf[..off] == old(fatBuf[..off]) && fatBuf[off + 32..] == old(fatBuf[off + 32..])
    {
      for i := 0 to 8
        invariant fatBuf[off..off + i] == name[..i]
        invariant fatBuf[..off] == old(fatBuf[..off]) && fatBuf[off + 32..] == old(fatBuf[off + 32..])
      {
        fatBuf[off + i] := name[i];
      }
      for i := 0 to 3
        invariant fatBuf[off..off + 8 + i] == name + ext[..i]
        invariant fatBuf[..off] == old(fatBuf[..off]) && fatBuf[off + 32..] == old(fatBuf[off + 32..])
      {
        fatBuf[off + 8 + i] := ext[i];
      }
      assert ext[..3] == ext;
      fatBuf[off + 11] := 0;
      for i := 12 to 26
        invariant fatBuf[off..off + i] == name + ext + seq(i - 11, _ => 0)
        invariant fatBuf[..off] == old(fatBuf[..off]) && fatBuf[off + 32..] == old(fatBuf[off + 32..])
      {
        fatBuf[off + i] := 0;
      }
      FillNumbers(off, name + ext, cluster, dataLen);
    }

    method FillNumbers(off: nat, ghost key: seq<u8>, cluster: u16, dataLen: u32)
      requires Buffered() && off + 32 <= 512 && |key| == 11
      requires fatBuf[off..off + 26] == key + seq(15, _ => 0)
      modifies fatBuf
      ensures fatBuf[off..off + 32] == Entry(key, cluster, dataLen)
      ensures fatBuf[..off] == old(fatBuf[..off]) && fatBuf[off + 32..] == old(fatBuf[off + 32..])
    {
      fatBuf[off + 26] := cluster % 256;
      fatBuf[off + 27] := cluster / 256;
      fatBuf[off + 28] := dataLen % 256;
      fatBuf[off + 29] := dataLen / 256 % 256;
      fatBuf[off + 30] := dataLen / 0x1_0000 % 256;
      fatBuf[off + 31] := dataLen / 0x100_0000;
      assert fatBuf[off..off + 26] == key + seq(15, _ => 0);
      assert fatBuf[off..off + 32] == fatBuf[off..off + 26]
                                      + [LowByte(cluster), cluster / 256]
                                      + [LowByte(dataLen), LowByte(dataLen / 256), LowByte(dataLen / 0x1_0000), dataLen / 0x100_0000];
    }

    method WriteEntry(dirSec: nat, dirOff: nat, name: seq<u8>, ext: seq<u8>, cluster: u16, dataLen: u32) returns (ok: bool)
      requires Mounted() && dirSec < ROOT_SECTORS && dirOff < 512 && dirOff % 32 == 0 && |name| == 8 && |ext| == 3
      modifies disk, fatBuf
      ensures ok ==> disk.sectors == SetSlot(old(disk.sectors), 16 * dirSec + dirOff / 32, Entry(name + ext, cluster, dataLen))
      ensures !ok ==> disk.sectors == old(disk.sectors)
                      || disk.sectors == SetSlot(old(disk.sectors), 16 * dirSec + dirOff / 32, Entry(name + ext, cluster, dataLen))
      ensures old(disk.Reliable()) ==> ok && disk.Reliable()
    {
      hide Entry;
      ok := disk.ReadSector(rootStart + dirSec, fatBuf);
      if !ok { return false; }
      ghost var was := fatBuf[..];
      FillEntry(dirOff, name, ext, cluster, dataLen);
      ghost var e := Entry(name + ext, cluster, dataLen);
      assert fatBuf[..] == fatBuf[..dirOff] + fatBuf[dirOff..dirOff + 32] + fatBuf[dirOff + 32..];
      assert fatBuf[..] == Splice(was, dirOff, e);
      ghost var k := 16 * dirSec + dirOff / 32;
      assert k / 16 == dirSec && 32 * (k % 16) == dirOff;
      ok := disk.WriteSector(rootStart + dirSec, fatBuf);
    }

    method WriteData(cluster: u16, data: seq<u8>, dataLen: u32) returns (ok: bool)
      requires Mounted() && 2 <= cluster && |data| == 512
      modifies disk, fatBuf
      ensures ok ==> DataSector(cluster) < DISK_SECTORS && disk.sectors == SetData(old(disk.sectors), cluster, Padded(data, dataLen))
      ensures !ok ==> disk.sectors == old(disk.sectors)
                      || disk.sectors == SetData(old(disk.sectors), cluster, Padded(data, dataLen))
      ensures ok ==> Holds(disk.sectors[DataSector(cluster)], data, dataLen)
      ensures forall s :: 0 <= s < DISK_SECTORS && s != DataSector(cluster) ==> disk.sectors[s] == old(disk.sectors[s])
      ensures old(disk.Reliable()) ==> disk.Reliable() && (ok <==> DataSector(cluster) < DISK_SECTORS)
    {
      PaddedHolds(data, dataLen);
      var dataSector := dataStart + (cluster - 2) * secPerClust;
      for i := 0 to 512
        invariant fatBuf[..i] == Padded(data, dataLen)[..i]
        modifies fatBuf
      {
        if i < dataLen {
          fatBuf[i] := data[i];
        } else {
          fatBuf[i] := 0;
        }
      }
      assert fatBuf[..] == Padded(data, dataLen);
      ok := disk.WriteSector(dataSector, fatBuf);
    }

    // ----- the operations

    ghost var count: nat   // files in the directory
    ghost var marked: nat  // clusters taken, while the disk is reliable

    /** A mounted volume, whatever disk errors it has been through. */
    ghost predicate Consistent()
      reads this, disk
    {
      Mounted() && Vol(disk.sectors, count)
    }

    /** A mounted volume on a disk that has never failed. */
    ghost predicate Sound()
      reads this, disk
    {
      Consistent() && disk.Reliable() && Tight(disk.sectors, count, marked)
    }

    /** The map from names to files. */
    ghost function Contents(): map<seq<u8>, File>
      reads this, disk
      requires Consistent()
    {
      View(disk.sectors, count)
    }

    /** Under any failures nothing but the named file can appear, and nothing else changes; success
        means it is there. On a disk that does not fail the outcome is exact, for every name. */
    method CreateFile(name: seq<u8>, ext: seq<u8>, data: seq<u8>, dataLen: u32) returns (ok: bool)
      requires Buffered() && |name| == 8 && |ext| == 3 && |data| == 512
      requires initialized ==> Consistent()
      modifies disk, fatBuf, this`count, this`marked
      ensures !initialized ==> !ok && disk.sectors == old(disk.sectors)
      ensures initialized ==> Consistent() && Kept(old(disk.sectors), disk.sectors, old(count))
      ensures initialized ==> Contents() == old(Contents()) || Gained(old(Contents()), Contents(), name + ext, dataLen)
      ensures !Storable(name + ext) && initialized ==> Contents() == old(Contents())
      ensures ok ==> name + ext !in old(Contents())
      ensures ok && Storable(name + ext) ==>
                Contents() == old(Contents())[name + ext := File(dataLen, Some(Padded(data, dataLen)))]
      ensures ok && Storable(name + ext) ==> name + ext in Contents() && Stores(Contents()[name + ext], data, dataLen)
      ensures initialized && old(disk.Reliable()) ==>
                (ok <==> name + ext !in old(Contents()) && |old(Contents())| < MAX_FILES && HasRoom(old(disk.sectors)))
      ensures initialized && old(disk.Reliable()) ==>
                disk.Reliable() && Contents() == After(old(Contents()), old(disk.sectors), name + ext, dataLen, Padded(data, dataLen))
      ensures initialized && old(Sound()) ==>
                Sound() && marked == old(marked) + (if name + ext !in old(Contents()) && HasFree(old(disk.sectors)) then 1 else 0)
    {
      hide Vol, Tight, View, Storable, Padded, FreshKey, Kept, HasFree, HasRoom, Holds;
      if !initialized { return false; }
      ghost var d, n := disk.sectors, count;
      VolParts(d, n);
      KeptSelf(d, n);
      FreshInView(d, n, name + ext);
      if !Storable(name + ext) { FilesAreStorable(d, n, name + ext); }
      var dup := CheckDuplicate(name, ext, count);
      if dup != Absent { return false; }
      PaddedHolds(data, dataLen);
      ok := CreateNew(name, ext, data, dataLen);
    }

    /** Take the lowest free cluster and mark it, before any directory entry can point to it. */
    method ReserveCluster() returns (c: u16)
      requires Consistent()
      modifies disk, fatBuf, this`marked
      ensures Consistent() && Kept(old(disk.sectors), disk.sectors, count)
      ensures c != 0 ==> 2 <= c < CLUSTERS && Fat(old(disk.sectors), c) == 0
                         && FreshCluster(disk.sectors, count, c) && Fat(disk.sectors, c) != 0
      ensures old(disk.Reliable()) ==> disk.Reliable() && Lowest(old(disk.sectors), c)
      ensures old(disk.Reliable()) && c != 0 ==> disk.sectors == MirrorFat(SetFat(old(disk.sectors), c, END_OF_CHAIN), c)
      ensures old(Sound()) ==> Sound() && marked == old(marked) + (if c != 0 then 1 else 0)
    {
      hide Vol, Marked, Mirrored, Fat, Kept, SetFat, MirrorFat;
      ghost var d, n := disk.sectors, count;
      VolParts(d, n);
      KeptSelf(d, n);
      c := FindFreeCluster();
      assert disk.sectors == d;
      if c == 0 { return 0; }
      var ok := SetFATEntry(c, END_OF_CHAIN);
      if ok || disk.sectors != d { ReserveKeeps(d, disk.sectors, n, c); }
      if !ok { return 0; }
      marked := marked + 1;
      if old(Sound()) {
        NextMark(d, old(marked), c);
        MarkStep(d, old(marked));
      }
    }

    /** `CreateFile` once the name is known to be new. */
    method CreateNew(name: seq<u8>, ext: seq<u8>, data: seq<u8>, dataLen: u32) returns (ok: bool)
      requires Consistent() && |name| == 8 && |ext| == 3 && |data| == 512
      requires FreshKey(disk.sectors, count, name + ext)
      modifies disk, fatBuf, this`count, this`marked
      ensures Consistent() && Kept(old(disk.sectors), disk.sectors, old(count))
      ensures Contents() == old(Contents()) || Gained(old(Contents()), Contents(), name + ext, dataLen)
      ensures !Storable(name + ext) ==> Contents() == old(Contents())
      ensures ok && Storable(name + ext) ==>
                Contents() == old(Contents())[name + ext := File(dataLen, Some(Padded(data, dataLen)))]
      ensures old(disk.Reliable()) ==> disk.Reliable() && (ok <==> old(count) < MAX_FILES && HasRoom(old(disk.sectors)))
      ensures old(disk.Reliable()) ==>
                Contents() == if old(count) < MAX_FILES && HasFree(old(disk.sectors)) && Storable(name + ext)
                              then old(Contents())[name + ext := Written(old(disk.sectors), dataLen, Padded(data, dataLen))]
                              else old(Contents())
      ensures old(Sound()) ==> Sound() && marked == old(marked) + (if HasFree(old(disk.sectors)) then 1 else 0)
    {
      hide Vol, Marked, Mirrored, Fat, Kept, SetFat, MirrorFat, Entry, Padded, Storable, SetSlot, FreshKey, FreshCluster, SetData,
           View, Lowest, HasFree, HasRoom;
      ghost var d, n, key := disk.sectors, count, name + ext;
      VolParts(d, n);
      var cluster := ReserveCluster();
      ghost var d1 := disk.sectors;
      if old(disk.Reliable()) { LowestDecides(d, cluster); }
      if cluster == 0 {
        ViewKept(d, d1, n);
        return false;
      }
      KeptIsFresh(d, d1, n, cluster, key);
      ok := AddEntry(name, ext, cluster, dataLen);
      ghost var d2 := disk.sectors;
      KeptChain(d, d1, d2, n);
      if !ok {
        ViewStep(d, n, d2, count, key, cluster, dataLen);
        return false;
      }
      if old(Sound()) { SetSlotTables(d1, n, Entry(key, cluster, dataLen), marked); }
      ok := WriteData(cluster, data, dataLen);
      if ok || disk.sectors != d2 {
        DataKeeps(d2, count, n, cluster, Padded(data, dataLen));
        KeptChain(d, d2, disk.sectors, n);
        if old(Sound()) { SetDataTables(d2, cluster, Padded(data, dataLen), marked); }
      }
      if ok { DataIsThere(d2, cluster, Padded(data, dataLen)); }
      ViewStep(d, n, disk.sectors, count, key, cluster, dataLen);
    }

    /** Find a free directory slot and write the entry there. */
    method AddEntry(name: seq<u8>, ext: seq<u8>, cluster: u16, dataLen: u32) returns (ok: bool)
      requires Consistent() && |name| == 8 && |ext| == 3 && 2 <= cluster < CLUSTERS && Fat(disk.sectors, cluster) != 0
      requires FreshKey(disk.sectors, count, name + ext) && FreshCluster(disk.sectors, count, cluster)
      modifies disk, fatBuf, this`count
      ensures Consistent() && Files(disk.sectors, old(count))
      ensures Kept(old(disk.sectors), disk.sectors, old(count)) && FreshCluster(disk.sectors, old(count), cluster)
      ensures count == old(count) || (Storable(name + ext) && count == old(count) + 1)
      ensures ok ==> old(count) < MAX_FILES && count == old(count) + (if Storable(name + ext) then 1 else 0)
      ensures ok ==> disk.sectors == SetSlot(old(disk.sectors), old(count), Entry(name + ext, cluster, dataLen))
      ensures count != old(count) ==> count <= MAX_FILES && Slot(disk.sectors, old(count)) == Entry(name + ext, cluster, dataLen)
      ensures old(disk.Reliable()) ==> disk.Reliable() && (ok <==> old(count) < MAX_FILES)
      ensures old(disk.Reliable()) && !ok ==> disk.sectors == old(disk.sectors) && count == old(count)
    {
      hide Vol, Fat, Kept, Entry, Storable, SetSlot, FreshKey, FreshCluster;
      ghost var d, n, key := disk.sectors, count, name + ext;
      VolParts(d, n);
      KeptSelf(d, n);
      var scan, dirSec, dirOff := FindFreeEntry(count);
      if scan != Present { return false; }
      ok := WriteEntry(dirSec, dirOff, name, ext, cluster, dataLen);
      if ok || disk.sectors != d {
        if Storable(key) {
          SetSlotKeeps(d, n, key, cluster, dataLen);
          count := count + 1;
        } else {
          LostSlotKeeps(d, n, key, cluster, dataLen);
        }
      }
      VolParts(disk.sectors, count);
      KeptIsFresh(d, disk.sectors, n, cluster, key);
    }

    /** Search one directory sector for a file. */
    method FindInSector(sec: nat, name: seq<u8>, ext: seq<u8>, ghost n: nat) returns (r: Scan, i: nat)
      requires Buffered() && sec < ROOT_SECTORS && |name| == 8 && |ext| == 3
      requires fatBuf[..] == disk.sectors[ROOT_START + sec] && Dir(disk.sectors, n)
      ensures r == Present ==> i < 16 && 16 * sec + i < n && Key(Slot(disk.sectors, 16 * sec + i)) == name + ext
      ensures r == Ended ==> n <= 16 * sec + 16
      ensures r != Present ==> forall k :: 16 * sec <= k < 16 * sec + 16 && k < n ==> Key(Slot(disk.sectors, k)) != name + ext
    {
      hide Slot, InUse;
      ghost var d := disk.sectors;
      i := 0;
      while i < 16
        invariant i <= 16
        invariant forall k :: 16 * sec <= k < 16 * sec + i && k < n ==> Key(Slot(d, k)) != name + ext
      {
        var off := i * 32;
        SlotInBuffer(d, sec, i, fatBuf[..]);
        SlotUse(d, n, 16 * sec + i);
        if fatBuf[off] == 0x00 { return Ended, 0; }
        if fatBuf[off] != 0xE5 {
          var m := Matches(off, name, ext);
          if m { return Present, i; }
        }
        i := i + 1;
      }
      return Absent, 0;
    }

    method ReadFile(name: seq<u8>, ext: seq<u8>, outBuf: array<u8>) returns (size: u32, ok: bool)
      requires Buffered() && |name| == 8 && |ext| == 3 && outBuf.Length == 512
      requires initialized ==> Consistent()
      modifies disk`faults, fatBuf, outBuf
      ensures !initialized ==> !ok
      ensures !ok ==> size == 0
      ensures initialized ==> Consistent() && Contents() == old(Contents())
      ensures ok ==> name + ext in Contents() && Contents()[name + ext] == File(size, Some(outBuf[..]))
      ensures old(disk.Reliable()) ==> disk.Reliable()
      ensures initialized && old(disk.Reliable()) ==> (ok <==> name + ext in Contents() && Contents()[name + ext].data.Some?)
      ensures initialized && old(Sound()) ==> Sound()
    {
      hide Vol, Tight, View, Slot, Key, SizeOf, ClusterOf, Fat, InUse;
      if !initialized { return 0, false; }
      ghost var d, n := disk.sectors, count;
      VolParts(d, n);
      FreshInView(d, n, name + ext);
      for sec := 0 to rootSectors
        invariant disk.sectors == d && count == n
        invariant forall k :: 0 <= k < 16 * sec && k < n ==> Key(Slot(d, k)) != name + ext
        invariant old(disk.Reliable()) ==> disk.Reliable()
      {
        var readable := disk.ReadSector(rootStart + sec, fatBuf);
        if !readable { return 0, false; }
        var r, i := FindInSector(sec, name, ext, n);
        if r == Ended { return 0, false; }
        if r == Present {
          size, ok := ReadFound(sec, i, name + ext, outBuf);
          return;
        }
      }
      return 0, false;
    }

    /** Read the data of the file whose slot is in the buffer. */
    method ReadFound(sec: nat, i: nat, ghost key: seq<u8>, outBuf: array<u8>) returns (size: u32, ok: bool)
      requires Consistent() && outBuf.Length == 512 && sec < ROOT_SECTORS && i < 16 && 16 * sec + i < count
      requires fatBuf[..] == disk.sectors[ROOT_START + sec] && Key(Slot(disk.sectors, 16 * sec + i)) == key
      modifies disk`faults, outBuf
      ensures !ok ==> size == 0
      ensures key in Contents() && (ok ==> Contents()[key] == File(size, Some(outBuf[..])))
      ensures old(disk.Reliable()) ==> disk.Reliable() && (ok <==> Contents()[key].data.Some?)
    {
      hide View, Slot, Key, SizeOf, ClusterOf, Fat, Vol;
      ghost var d, k := disk.sectors, 16 * sec + i;
      VolParts(d, count);
      FieldsInBuffer(d, sec, i, fatBuf[..]);
      var cluster := Word(fatBuf[i * 32 + 26], fatBuf[i * 32 + 27]);
      size := Long(fatBuf[i * 32 + 28], fatBuf[i * 32 + 29], fatBuf[i * 32 + 30], fatBuf[i * 32 + 31]);
      assert cluster == Cluster(d, k);
      ok := disk.ReadSector(dataStart + (cluster - 2) * secPerClust, outBuf);
      FileInView(d, count, k);
      if !ok { return 0, false; }
    }
  }

  /** A boot sector `Init` accepts: signed, with 512-byte sectors. */
  predicate Bpb(b: Sector)
  {
    Signed(b) && Word(b[11], b[12]) == 512
  }

  predicate Signed(b: Sector) { b[510] == 0x55 && b[511] == 0xAA }

  /** "MSWIN4.1". */
  const OEM: seq<u8> := [0x4D, 0x53, 0x57, 0x49, 0x4E, 0x34, 0x2E, 0x31]

  /** The rest of the boot sector: the label, and zeros. */
  predicate Labelled(b: seq<u8>)
    requires |b| == 512
  {
    (forall i :: 3 <= i < 11 ==> b[i] == OEM[i - 3]) && forall i :: 24 <= i < 510 ==> b[i] == 0
  }

  /** Exactly the sectors from `from` to below `to` have been zeroed. */
  ghost predicate Zeroed(d: Image, d': Image, from: nat, to: nat)
  {
    forall s :: 0 <= s < DISK_SECTORS ==> d'[s] == if from <= s < to then Blank() else d[s]
  }

  /** The first `k` sectors are those of a fresh volume, the others are as they were. */
  ghost predicate FormattedUpTo(d: Image, d': Image, k: nat)
  {
    && (k > 0 ==> IsBoot(d'[0]) && Labelled(d'[0])) && (forall s :: 1 <= s < k && s < DISK_SECTORS ==> d'[s] == Blank())
    && forall s :: k <= s < DISK_SECTORS ==> d'[s] == d[s]
  }

  lemma BootWritten(d: Image, d': Image, boot: seq<u8>)
    requires |boot| == 512 && IsBoot(boot) && Labelled(boot) && (d' == d || d' == d[0 := boot])
    ensures FormattedUpTo(d, d', if d' == d[0 := boot] then 1 else 0)
  {
    hide IsBoot, Labelled;
  }

  lemma FullyFormatted(d: Image, d': Image)
    requires FormattedUpTo(d, d', DATA_START)
    ensures Formatted(d') && Labelled(d'[0]) && forall s :: DATA_START <= s < DISK_SECTORS ==> d'[s] == d[s]
  {
    hide IsBoot, Labelled;
  }

  lemma FormatGoesOn(d: Image, d1: Image, d2: Image, from: nat, k: nat)
    requires FormattedUpTo(d, d1, from) && 0 < from <= k <= DATA_START && Zeroed(d1, d2, from, k)
    ensures FormattedUpTo(d, d2, k)
  {
    hide IsBoot, Labelled;
  }

  /** A fresh volume: boot sector, two zeroed tables and a zeroed directory. */
  ghost predicate Formatted(d: Image)
  {
    IsBoot(d[0]) && forall s :: FAT_START <= s < DATA_START ==> d[s] == Blank()
  }

  /** A fresh volume is an empty map. */
  lemma FormattedIsTight(d: Image)
    requires Formatted(d)
    ensures Tight(d, 0, 0) && View(d, 0) == map[]
  {
    hide Slot, Fat, FirstCopy, SecondCopy, InUse;
    forall k | 0 <= k < MAX_FILES ensures Slot(d, k)[0] == 0 { BlankSlot(d, k); }
    forall c | 0 <= c < CLUSTERS ensures Fat(d, c) == 0 { BlankFat(d, c); }
    forall s | 0 <= s < FAT_SECTORS ensures SecondCopy(d, s) == FirstCopy(d, s) { BlankCopies(d, s); }
    assert Keys(d, 0) == {};
  }

  lemma BlankSlot(d: Image, k: nat)
    requires Formatted(d) && k < MAX_FILES
    ensures Slot(d, k)[0] == 0
  {
    hide IsBoot;
    assert d[ROOT_START + k / 16] == Blank();
  }

  lemma BlankFat(d: Image, c: nat)
    requires Formatted(d) && c < CLUSTERS
    ensures Fat(d, c) == 0
  {
    hide IsBoot;
    assert d[FAT_START + c / 256] == Blank();
  }

  lemma BlankCopies(d: Image, s: nat)
    requires Formatted(d) && s < FAT_SECTORS
    ensures SecondCopy(d, s) == FirstCopy(d, s)
  {
    hide IsBoot;
  }

  /** The map has one file more, of this name and size. */
  ghost predicate Gained(before: map<seq<u8>, File>, now: map<seq<u8>, File>, key: seq<u8>, size: u32)
  {
    key in now && key !in before && now == before[key := now[key]] && now[key].size == size
  }

  /** A file as it is written when the lowest free cluster is taken: without data if that lies past
      the end of the disk. */
  ghost function Written(d: Image, size: u32, data: Sector): File
  {
    File(size, if HasRoom(d) then Some(data) else None)
  }

  /** What creating a file makes of the map, on a disk that does not fail. */
  ghost function After(files: map<seq<u8>, File>, d: Image, key: seq<u8>, size: u32, data: Sector): map<seq<u8>, File>
    requires |key| == 11
  {
    if key !in files && |files| < MAX_FILES && HasFree(d) && Storable(key) then files[key := Written(d, size, data)] else files
  }

  lemma VolBoots(d: Image, n: nat)
    requires Vol(d, n)
    ensures IsBoot(d[0])
  {}

  /** The lowest free cluster comes right after the marked ones. */
  lemma NextMark(d: Image, m: nat, c: nat)
    requires Marked(d, m) && Lowest(d, c) && c != 0
    ensures c == 2 + m
  {
    hide Fat;
    assert forall x :: 2 <= x < 2 + m ==> Fat(d, x) != 0;
    if 2 + m < CLUSTERS { assert Fat(d, 2 + m) == 0; }
  }

  /** One attempt to create a file, as the map sees it. */
  lemma ViewStep(d: Image, n: nat, d': Image, n': nat, key: seq<u8>, c: u16, size: u32)
    requires Vol(d, n) && Vol(d', n') && Kept(d, d', n) && |key| == 11 && 2 <= c && FreshKey(d, n, key)
    requires n' == n || (n' == n + 1 <= MAX_FILES && Slot(d', n) == Entry(key, c, size))
    ensures n' == n ==> View(d', n') == View(d, n)
    ensures n' != n ==> key !in View(d, n) && View(d', n') == View(d, n)[key := File(size, DataOf(d', c))]
  {
    hide Vol, View, Kept, FreshKey, Slot, Entry, DataOf;
    if n' == n {
      ViewKept(d, d', n);
    } else {
      FreshInView(d, n, key);
      ViewAfterCreate(d, d', n, key, c, size);
    }
  }

  lemma VolParts(d: Image, n: nat)
    requires Vol(d, n)
    ensures IsBoot(d[0]) && Dir(d, n) && Files(d, n) && (0 < n ==> Files(d, n - 1))
  {
    hide Slot, Fat, InUse, ClusterOf, Key;
  }

  lemma DataKeeps(d: Image, count: nat, n: nat, c: nat, data: Sector)
    requires n <= count <= n + 1 && Vol(d, count) && 2 <= c < CLUSTERS && FreshCluster(d, n, c)
    ensures Files(d, n) && Vol(SetData(d, c, data), count) && Kept(d, SetData(d, c, data), n)
    ensures count == n + 1 ==> Slot(SetData(d, c, data), n) == Slot(d, n)
  {
    hide Slot, Fat, InUse, ClusterOf, Key, SetData, Dir;
    SetDataKeeps(d, count, c, data);
  }

  lemma DataIsThere(d: Image, c: nat, data: Sector)
    requires 2 <= c && DataSector(c) < DISK_SECTORS
    ensures SetData(d, c, data)[DataSector(c)] == data
  {}

  lemma KeptSelf(d: Image, n: nat)
    requires n <= MAX_FILES && Files(d, n)
    ensures Kept(d, d, n)
  {}

  /** A name is new to the directory exactly when it is new to the map. */
  lemma FreshInView(d: Image, n: nat, key: seq<u8>)
    requires Vol(d, n)
    ensures FreshKey(d, n, key) <==> key !in View(d, n)
    ensures |View(d, n)| == n
  {
    hide Slot, Key, FileAt, Fat, ClusterOf;
    KeysCount(d, n);
    ViewIsMap(d, n);
    if key in Keys(d, n) { assert Key(Slot(d, SlotFor(d, n, key))) == key; }
  }

  /** A cluster's sector holds the data, zero-filled. */
  function Padded(data: seq<u8>, dataLen: nat): (s: Sector)
    requires |data| == 512
  {
    seq(512, i requires 0 <= i < 512 => if i < dataLen then data[i] else 0)
  }

  /** The sector begins with the first `len` bytes of the data, all of it if there are no more, and is zero
      from there on. */
  predicate Holds(s: Sector, data: seq<u8>, len: nat)
    requires |data| == 512
  {
    && s[..Min(len, 512)] == data[..Min(len, 512)]
    && forall i :: Min(len, 512) <= i < 512 ==> s[i] == 0
  }

  /** The file has this size, and its sector this data. */
  predicate Stores(file: File, data: seq<u8>, len: nat)
    requires |data| == 512
  {
    file.size == len && file.data.Some? && Holds(file.data.value, data, len)
  }

  lemma PaddedHolds(data: seq<u8>, len: nat)
    requires |data| == 512
    ensures Holds(Padded(data, len), data, len)
  {}

  lemma FatInBuffer(d: Image, sec: nat, i: nat, buf: seq<u8>)
    requires sec < FAT_SECTORS && i < 256 && |buf| == 512 && buf == d[FAT_START + sec]
    ensures Fat(d, 256 * sec + i) == Word(buf[2 * i], buf[2 * i + 1])
  {
    var c := 256 * sec + i;
    assert c / 256 == sec && c % 256 == i;
  }

  lemma SlotInBuffer(d: Image, sec: nat, i: nat, buf: seq<u8>)
    requires sec < ROOT_SECTORS && i < 16 && |buf| == 512 && buf == d[ROOT_START + sec]
    ensures var k, off := 16 * sec + i, 32 * i;
            Slot(d, k) == buf[off..off + 32] && Slot(d, k)[0] == buf[off] && Slot(d, k)[11] == buf[off + 11]
            && Key(Slot(d, k)) == buf[off..off + 11]
  {
    var k, off := 16 * sec + i, 32 * i;
    assert k / 16 == sec && k % 16 == i;
    assert buf[off..off + 32][..11] == buf[off..off + 11];
  }

  lemma FieldsInBuffer(d: Image, sec: nat, i: nat, buf: seq<u8>)
    requires sec < ROOT_SECTORS && i < 16 && |buf| == 512 && buf == d[ROOT_START + sec]
    ensures var e, off := Slot(d, 16 * sec + i), 32 * i;
            ClusterOf(e) == Word(buf[off + 26], buf[off + 27])
            && SizeOf(e) == Long(buf[off + 28], buf[off + 29], buf[off + 30], buf[off + 31])
  {
    var k, off := 16 * sec + i, 32 * i;
    assert k / 16 == sec && k % 16 == i;
  }

  /** The map's entry for the name in slot `k` is file `k`. */
  lemma FileInView(d: Image, n: nat, k: nat)
    requires Vol(d, n) && k < n
    ensures Cluster(d, k) >= 2 && Key(Slot(d, k)) in View(d, n) && View(d, n)[Key(Slot(d, k))] == FileAt(d, k)
  {
    hide Slot, Key, SizeOf, ClusterOf, Fat, InUse, FileAt, Dir;
    SlotForUnique(d, n, k);
    ViewIsMap(d, n);
  }

  lemma SlotUse(d: Image, n: nat, k: nat)
    requires Dir(d, n) && k < MAX_FILES
    ensures var e := Slot(d, k);
            if k < n then e[0] != 0 && e[0] != 0xE5 && (e[11] / 8) % 2 == 0 else e[0] == 0 || e[0] == 0xE5
  {
    hide Slot;
  }

  // ----- whole sessions on a disk that does not fail

  datatype Op =
    | FormatDisk
    | Mount
    | Create(name: seq<u8>, ext: seq<u8>, data: seq<u8>, len: u32)
    | Read(name: seq<u8>, ext: seq<u8>)

  datatype Reply = Done(ok: bool) | Got(file: Option<File>)

  predicate WellFormed(op: Op)
  {
    match op
    case Create(name, ext, data, _) => |name| == 8 && |ext| == 3 && |data| == 512
    case Read(name, ext) => |name| == 8 && |ext| == 3
    case _ => true
  }

  /** The simple volume: a map of files, and how many clusters have been taken for good. */
  datatype Simple = Simple(files: map<seq<u8>, File>, taken: nat)

  const EMPTY := Simple(map[], 0)

  predicate Room(s: Simple) { DataSector(2 + s.taken) < DISK_SECTORS }

  predicate Free(s: Simple) { 2 + s.taken < CLUSTERS }

  /** Creating takes a cluster unless the name is known, stores the file unless the directory is full
      or the name unstorable, and succeeds if there was room for it all. */
  function Apply(s: Simple, op: Op): Simple
    requires WellFormed(op)
  {
    match op
    case FormatDisk => EMPTY
    case Create(name, ext, data, len) =>
      var key := name + ext;
      if key in s.files || !Free(s) then s
      else if |s.files| < MAX_FILES && Storable(key)
      then Simple(s.files[key := File(len, if Room(s) then Some(Padded(data, len)) else None)], s.taken + 1)
      else Simple(s.files, s.taken + 1)
    case _ => s
  }

  function Answer(s: Simple, op: Op): Reply
  {
    match op
    case Create(name, ext, _, _) => Done(name + ext !in s.files && |s.files| < MAX_FILES && Room(s))
    case Read(name, ext) =>
      Got(if name + ext in s.files && s.files[name + ext].data.Some? then Some(s.files[name + ext]) else None)
    case _ => Done(true)
  }

  function StateAfter(ops: seq<Op>): Simple
    requires forall i :: 0 <= i < |ops| ==> WellFormed(ops[i])
  {
    if ops == [] then EMPTY else Apply(StateAfter(ops[..|ops| - 1]), ops[|ops| - 1])
  }

  /** The volume stands for this simple one. */
  ghost predicate Stands(v: Volume, s: Simple)
    reads v, v.disk
  {
    v.Sound() && v.Contents() == s.files && v.marked == s.taken
  }

  /** One operation answers, and leaves the volume, as the simple one says. */
  method Perform(v: Volume, op: Op, ghost s: Simple) returns (reply: Reply)
    requires WellFormed(op) && Stands(v, s)
    modifies v, v.disk, v.fatBuf
    ensures reply == Answer(s, op) && Stands(v, Apply(s, op))
  {
    hide Vol, View, Storable, Padded, Kept, Lowest, Mirrored, Fat;
    ghost var d := v.disk.sectors;
    MarkedDecides(d, v.marked);
    match op
    case FormatDisk =>
      var ok := v.Format();
      reply := Done(ok);
    case Mount =>
      VolBoots(d, v.count);
      var ok := v.Init();
      reply := Done(ok);
    case Create(name, ext, data, len) =>
      var ok := v.CreateFile(name, ext, data, len);
      reply := Done(ok);
    case Read(name, ext) =>
      var buf := new u8[512](_ => 0);
      var size, ok := v.ReadFile(name, ext, buf);
      reply := Got(if ok then Some(File(size, Some(buf[..]))) else None);
  }

  method Start(v: Volume)
    requires v.Buffered() && v.disk.Reliable()
    modifies v, v.disk, v.fatBuf
    ensures Stands(v, EMPTY)
  {
    hide Vol, View, Marked, Mirrored;
    var ok := v.Format();
    FormattedIsTight(v.disk.sectors);
    VolBoots(v.disk.sectors, 0);
    ok := v.Init();
  }

  /** Operation `i` created the file that operation `j` reads, and nothing was formatted in between. */
  predicate Created(ops: seq<Op>, replies: seq<Reply>, i: nat, j: nat)
    requires i < j < |ops| && |replies| == |ops|
    ensures Created(ops, replies, i, j) ==> ops[i].Create? && ops[j].Read?
  {
    && ops[i].Create? && ops[j].Read? && ops[i].name == ops[j].name && ops[i].ext == ops[j].ext
    && replies[i] == Done(true) && forall k :: i < k < j ==> !ops[k].FormatDisk?
  }

  /** Every answer is the simple volume's. */
  ghost predicate Answered(ops: seq<Op>, replies: seq<Reply>)
    requires forall i :: 0 <= i < |ops| ==> WellFormed(ops[i])
  {
    |replies| == |ops| && forall i :: 0 <= i < |ops| ==> replies[i] == Answer(StateAfter(ops[..i]), ops[i])
  }

  lemma StateStep(ops: seq<Op>, i: nat)
    requires i < |ops| && forall k :: 0 <= k < |ops| ==> WellFormed(ops[k])
    ensures StateAfter(ops[..i + 1]) == Apply(StateAfter(ops[..i]), ops[i])
  {
    hide Apply;
    assert ops[..i + 1][..i] == ops[..i];
  }

  /** A created file is there, with its data. */
  lemma CreateStores(s: Simple, op: Op)
    requires WellFormed(op) && op.Create? && Answer(s, op) == Done(true) && Storable(op.name + op.ext)
    ensures op.name + op.ext in Apply(s, op).files && Stores(Apply(s, op).files[op.name + op.ext], op.data, op.len)
  {
    hide Padded, Holds, Storable;
    PaddedHolds(op.data, op.len);
  }

  /** It stays as it is until the volume is formatted. */
  lemma {:induction false} FileStays(ops: seq<Op>, i: nat, j: nat)
    requires i < j <= |ops| && (forall k :: 0 <= k < |ops| ==> WellFormed(ops[k])) && ops[i].Create? && WellFormed(ops[i])
    requires Answer(StateAfter(ops[..i]), ops[i]) == Done(true) && Storable(ops[i].name + ops[i].ext)
    requires forall k :: i < k < j ==> !ops[k].FormatDisk?
    ensures var key := ops[i].name + ops[i].ext;
            key in StateAfter(ops[..j]).files && Stores(StateAfter(ops[..j]).files[key], ops[i].data, ops[i].len)
    decreases j
  {
    hide StateAfter, Padded, Holds, Storable, Answer;
    StateStep(ops, j - 1);
    if j == i + 1 {
      CreateStores(StateAfter(ops[..i]), ops[i]);
    } else {
      FileStays(ops, i, j - 1);
      FileSurvives(StateAfter(ops[..j - 1]), ops[j - 1], ops[i].name + ops[i].ext);
    }
  }

  lemma FileSurvives(s: Simple, op: Op, key: seq<u8>)
    requires WellFormed(op) && !op.FormatDisk? && key in s.files
    ensures key in Apply(s, op).files && Apply(s, op).files[key] == s.files[key]
  {
    hide Padded, Storable;
  }

  /** What is read back is what was created: every read, after a create that succeeded under a storable name,
      gives that size and data, however many operations other than formatting lie between. */
  lemma CreatedIsRead(ops: seq<Op>, replies: seq<Reply>, i: nat, j: nat)
    requires (forall k :: 0 <= k < |ops| ==> WellFormed(ops[k])) && Answered(ops, replies)
    requires i < j < |ops| && Created(ops, replies, i, j) && Storable(ops[i].name + ops[i].ext)
    ensures replies[j].Got? && replies[j].file.Some? && Stores(replies[j].file.value, ops[i].data, ops[i].len)
    ensures ops[i].len <= 512 ==> replies[j].file.value.data.value[..ops[i].len] == ops[i].data[..ops[i].len]
  {
    hide StateAfter, Padded, Storable, Apply;
    FileStays(ops, i, j);
  }

  /** The operation that put a file into the map. */
  lemma {:induction false} Origin(ops: seq<Op>, n: nat, key: seq<u8>) returns (i: nat)
    requires n <= |ops| && forall k :: 0 <= k < |ops| ==> WellFormed(ops[k])
    requires key in StateAfter(ops[..n]).files && StateAfter(ops[..n]).files[key].data.Some?
    ensures i < n && ops[i].Create? && key == ops[i].name + ops[i].ext && Storable(key)
    ensures Answer(StateAfter(ops[..i]), ops[i]) == Done(true) && forall k :: i < k < n ==> !ops[k].FormatDisk?
    decreases n
  {
    hide StateAfter, Padded, Storable;
    if n == 0 {
      NothingYet(ops);
      assert false;
    } else {
      StateStep(ops, n - 1);
      var s := StateAfter(ops[..n - 1]);
      if key in s.files {
        FormatForgets(s, ops[n - 1]);
        FileSurvives(s, ops[n - 1], key);
        i := Origin(ops, n - 1, key);
      } else {
        i := n - 1;
      }
    }
  }

  lemma NothingYet(ops: seq<Op>)
    ensures StateAfter(ops[..0]) == EMPTY
  {}

  lemma FormatForgets(s: Simple, op: Op)
    requires WellFormed(op) && Apply(s, op).files != map[]
    ensures !op.FormatDisk?
  {
    hide Padded, Storable;
  }

  /** Nothing else is read: whatever a read gives was created before, under that name, and holds its data. */
  lemma ReadWasCreated(ops: seq<Op>, replies: seq<Reply>, j: nat) returns (i: nat)
    requires (forall k :: 0 <= k < |ops| ==> WellFormed(ops[k])) && Answered(ops, replies)
    requires j < |ops| && ops[j].Read? && replies[j].Got? && replies[j].file.Some?
    ensures i < j && Created(ops, replies, i, j) && Storable(ops[i].name + ops[i].ext)
    ensures Stores(replies[j].file.value, ops[i].data, ops[i].len)
  {
    hide StateAfter, Padded, Storable, Apply, Stores;
    i := Origin(ops, j, ops[j].name + ops[j].ext);
    SameNames(ops[i].name, ops[i].ext, ops[j].name, ops[j].ext);
    CreatedIsRead(ops, replies, i, j);
  }

  lemma SameNames(name: seq<u8>, ext: seq<u8>, name': seq<u8>, ext': seq<u8>)
    requires |name| == |name'| && name + ext == name' + ext'
    ensures name == name' && ext == ext'
  {
    assert name == (name + ext)[..|name|] && name' == (name' + ext')[..|name|];
    assert ext == (name + ext)[|name|..] && ext' == (name' + ext')[|name|..];
  }

  /** From formatting and mounting on, every sequence of operations, formatting and mounting again
      included, is answered as by the simple volume. */
  method Session(v: Volume, ops: seq<Op>) returns (replies: seq<Reply>)
    requires v.Buffered() && v.disk.Reliable() && forall i :: 0 <= i < |ops| ==> WellFormed(ops[i])
    modifies v, v.disk, v.fatBuf
    ensures Answered(ops, replies) && Stands(v, StateAfter(ops))
    ensures forall i, j :: 0 <= i < j < |ops| && Created(ops, replies, i, j) && Storable(ops[i].name + ops[i].ext) ==>
              replies[j].Got? && replies[j].file.Some? && Stores(replies[j].file.value, ops[i].data, ops[i].len)
    ensures forall j :: 0 <= j < |ops| && replies[j].Got? && replies[j].file.Some? ==>
              exists i :: 0 <= i < j && Created(ops, replies, i, j) && Stores(replies[j].file.value, ops[i].data, ops[i].len)
  {
    hide Stands, Apply, Answer, Created, Stores, Storable, StateAfter;
    Start(v);
    NothingYet(ops);
    replies := [];
    for i := 0 to |ops|
      invariant |replies| == i && Stands(v, StateAfter(ops[..i]))
      invariant forall j :: 0 <= j < i ==> replies[j] == Answer(StateAfter(ops[..j]), ops[j])
    {
      var reply := Perform(v, ops[i], StateAfter(ops[..i]));
      replies := replies + [reply];
      StateStep(ops, i);
    }
    assert ops[..|ops|] == ops;
    ReadsAgree(ops, replies);
  }

  lemma ReadsAgree(ops: seq<Op>, replies: seq<Reply>)
    requires (forall k :: 0 <= k < |ops| ==> WellFormed(ops[k])) && Answered(ops, replies)
    ensures forall i, j :: 0 <= i < j < |ops| && Created(ops, replies, i, j) && Storable(ops[i].name + ops[i].ext) ==>
              replies[j].Got? && replies[j].file.Some? && Stores(replies[j].file.value, ops[i].data, ops[i].len)
    ensures forall j :: 0 <= j < |ops| && replies[j].Got? && replies[j].file.Some? ==>
              exists i :: 0 <= i < j && Created(ops, replies, i, j) && Stores(replies[j].file.value, ops[i].data, ops[i].len)
  {
    hide Apply, Answer, Created, Stores, Storable, StateAfter;
    forall i, j | 0 <= i < j < |ops| && Created(ops, replies, i, j) && Storable(ops[i].name + ops[i].ext)
      ensures replies[j].Got? && replies[j].file.Some? && Stores(replies[j].file.value, ops[i].data, ops[i].len)
    {
      CreatedIsRead(ops, replies, i, j);
    }
    forall j | 0 <= j < |ops| && replies[j].Got? && replies[j].file.Some?
      ensures exists i :: 0 <= i < j && Created(ops, replies, i, j) && Stores(replies[j].file.value, ops[i].data, ops[i].len)
    {
      OnlyReadsGet(ops, replies, j);
      var i := ReadWasCreated(ops, replies, j);
    }
  }

  lemma OnlyReadsGet(ops: seq<Op>, replies: seq<Reply>, j: nat)
    requires (forall k :: 0 <= k < |ops| ==> WellFormed(ops[k])) && Answered(ops, replies) && j < |ops| && replies[j].Got?
    ensures ops[j].Read?
  {
    hide StateAfter;
  }

  /** The clusters of files are marked as ends of chains in both tables, belong to one file each, and
      are on the disk as long as no more than the disk holds have been taken. */
  lemma ClustersAreMarked(d: Image, n: nat, m: nat, j: nat, k: nat)
    requires Tight(d, n, m) && j < k < n
    ensures Cluster(d, j) != Cluster(d, k) && 2 <= Cluster(d, k) < 2 + m && Fat(d, Cluster(d, k)) == END_OF_CHAIN
    ensures SecondCopy(d, Cluster(d, k) / 256) == FirstCopy(d, Cluster(d, k) / 256)
    ensures DataSector(1 + m) < DISK_SECTORS ==> DataSector(Cluster(d, k)) < DISK_SECTORS
  {
    hide Slot, Fat, Key, ClusterOf, IsBoot, Dir;
    VolParts(d, n);
    MarkedAt(d, m, Cluster(d, k));
  }
}
