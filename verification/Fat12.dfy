/** The FAT12 driver (kernel/fat12.c) over the sector cache, tied call by call to FatVolume. */
module Fat12 {
  import opened Bytes
  import opened FatEntries
  import opened FatNames
  import opened FatChains
  import opened FatVolume
  import opened FatTheorems
  import opened FatLayout
  import opened Disk

  /** fat83_to_str */
  method Fat83ToStr(raw: Raw83) returns (out: seq<u8>)
    ensures out == ToStr(raw)
  {
    out := [];
    var i := 0;
    while i < 8 && raw[i] != SPACE
      invariant 0 <= i <= 8
      invariant out == raw[..i] && SPACE !in out
    {
      out := out + [raw[i]];
      i := i + 1;
    }
    UntilSpaceIs(raw, 8, out);
    if raw[8] != SPACE {
      ghost var base := out;
      out := out + [DOT];
      i := 8;
      while i < 11 && raw[i] != SPACE
        invariant 8 <= i <= 11
        invariant out == base + [DOT] + raw[8..i] && SPACE !in raw[8..i]
      {
        out := out + [raw[i]];
        assert raw[8..i + 1] == raw[8..i] + [raw[i]];
        i := i + 1;
      }
      DropTake(raw, 8, i);
      UntilSpaceIs(raw[8..], 3, raw[8..i]);
    }
  }

  lemma DropTake(s: Raw83, from: nat, to: nat)
    requires from <= to <= 11
    ensures s[from..][..to - from] == s[from..to]
  {
  }

  /** str_to_fat83: blanks the field, finds the first dot, then copies both parts in upper case. */
  method StrToFat83(name: Name) returns (out: Raw83)
    ensures out == To83(name)
  {
    hide To83;
    out := seq(11, _ => SPACE);
    var dot := 0;
    while dot < |name| && name[dot] != DOT
      invariant 0 <= dot <= |name|
      invariant dot + FirstDot(name[dot..]) == FirstDot(name)
    {
      dot := dot + 1;
    }
    var b, e := Take(Base(name), 8), Take(Ext(name), 3);
    var baseLen := if dot > 8 then 8 else dot;
    var i := 0;
    while i < baseLen
      invariant 0 <= i <= baseLen == |b|
      invariant forall k :: 0 <= k < 11 ==> out[k] == if k < i then Upper(b[k]) else SPACE
    {
      out := out[i := Upper(name[i])];
      i := i + 1;
    }
    if dot < |name| {
      var extLen := |name| - dot - 1;
      if extLen > 3 {
        extLen := 3;
      }
      i := 0;
      while i < extLen
        invariant 0 <= i <= extLen == |e|
        invariant forall k :: 0 <= k < 8 ==> out[k] == if k < |b| then Upper(b[k]) else SPACE
        invariant forall k :: 8 <= k < 11 ==> out[k] == if k - 8 < i then Upper(e[k - 8]) else SPACE
      {
        out := out[8 + i := Upper(name[dot + 1 + i])];
        i := i + 1;
      }
    }
    FieldIs(name, b, e, out);
  }

  /** The eleven bytes of the field, one by one. */
  lemma FieldIs(name: Name, b: seq<u8>, e: seq<u8>, out: Raw83)
    requires b == Take(Base(name), 8) && e == Take(Ext(name), 3)
    requires forall k :: 0 <= k < 8 ==> out[k] == if k < |b| then Upper(b[k]) else SPACE
    requires forall k :: 8 <= k < 11 ==> out[k] == if k - 8 < |e| then Upper(e[k - 8]) else SPACE
    ensures out == To83(name)
  {
  }

  /** The name exists and its file has clusters. */
  ghost predicate FreesClusters(v: Volume, name: Name)
  {
    FindFromFirst(v.dir, name, 0);
    Find(v.dir, name).Some? && InRange(FirstCluster(v.dir[Find(v.dir, name).value]))
  }

  /** The 32 bytes of a new entry: blank, then name, attribute, first cluster and size. */
  method MakeEntry(name: Name, first: u16, size: u32) returns (e: Entry)
    ensures e == NewEntry(name, first, size)
  {
    var raw := StrToFat83(name);
    e := raw + [ARCHIVE] + Zeros(20);
    e := PutLE32(PutLE16(e, 26, first), 28, size);
  }

  lemma FindFromEnd(dir: seq<Entry>, name: Name)
    ensures FindFrom(dir, name, |dir|) == None
  {
  }

  lemma FreeSlotEnd(dir: seq<Entry>)
    ensures FreeSlotFrom(dir, |dir|) == None
  {
  }

  /** The inner loop of find_entry over one sector; done is the number of its first slot. */
  method ScanSector(sector: Sector, per: nat, name: Name, ghost dir: seq<Entry>, ghost done: nat, ghost target: Option<nat>)
    returns (ended: bool, hit: nat)
    requires per <= 16 && done + per <= |dir|
    requires forall i :: 0 <= i < per ==> dir[done + i] == SlotBytes(sector, i)
    requires FindFrom(dir, name, done) == target
    ensures ended ==> target == None
    ensures !ended && hit < per ==> target == Some(done + hit)
    ensures !ended && hit >= per ==> FindFrom(dir, name, done + per) == target
  {
    hit := 0;
    while hit < per
      invariant 0 <= hit <= per
      invariant FindFrom(dir, name, done + hit) == target
    {
      var e := SlotBytes(sector, hit);
      assert e == dir[done + hit];
      if e[0] == END {
        return true, hit;
      }
      if e[0] == DELETED || e[11] / 8 % 2 == 1 {
        hit := hit + 1;
        continue;
      }
      var fatName := Fat83ToStr(RawName(e));
      var same := NamesMatch(fatName, name);
      if same {
        return false, hit;
      }
      hit := hit + 1;
    }
    ended := false;
  }

  /** The inner loop of alloc_root_entry over one sector. */
  method ScanFree(sector: Sector, per: nat, ghost dir: seq<Entry>, ghost done: nat, ghost target: Option<nat>)
    returns (hit: nat)
    requires per <= 16 && done + per <= |dir|
    requires forall i :: 0 <= i < per ==> dir[done + i] == SlotBytes(sector, i)
    requires FreeSlotFrom(dir, done) == target
    ensures hit < per ==> target == Some(done + hit)
    ensures hit >= per ==> FreeSlotFrom(dir, done + per) == target
  {
    hit := 0;
    while hit < per
      invariant 0 <= hit <= per
      invariant FreeSlotFrom(dir, done + hit) == target
    {
      assert SlotBytes(sector, hit) == dir[done + hit];
      var first := sector[hit * 32];
      if first == END || first == DELETED {
        return;
      }
      hit := hit + 1;
    }
  }

  class Driver {
    const disk: Cache
    const fatData: array<u8>
    var geo: Geometry
    var fatDirty: bool
    var ready: bool

    /** The boot sector the volume was mounted from. */
    ghost var boot: Sector

    /** The driver's objects are its own and the drive answers reliably. */
    ghost predicate Attached()
      reads this, fatData, disk, disk.slots, disk.ata
    {
      && fatData.Length == FAT_BYTES && (fatData as object) != disk.slots
      && disk.Valid() && disk.Healthy() && |disk.ata.sectors| <= LBA_LIMIT
    }

    ghost predicate Mounted()
      reads this, fatData, disk, disk.slots, disk.ata
    {
      && Attached() && ready
      && Good(geo, |disk.View()|) && disk.View()[0] == boot
      && (!fatDirty ==> FirstCopy(Table(), disk.View(), geo))
    }

    /** The geometry is the one a new mount computes. */
    ghost predicate FromBoot()
      reads this
    {
      boot[510] == 0x55 && boot[511] == 0xAA && geo == Parse(boot)
    }

    function Table(): FatTable
      reads fatData
      requires fatData.Length == FAT_BYTES
    {
      fatData[..]
    }

    ghost function Fat(): (f: seq<nat>)
      reads this, fatData, disk, disk.slots, disk.ata
      requires Mounted()
    {
      Entries(Table(), geo.Clusters() + 2)
    }

    /** The volume as the driver sees it now. */
    ghost function Abs(): Volume
      reads this, fatData, disk, disk.slots, disk.ata
      requires Mounted()
    {
      VolumeOf(Table(), disk.View(), geo)
    }

    /** The statics of the driver at boot. */
    constructor (disk: Cache)
      requires disk.Valid() && disk.Healthy() && |disk.ata.sectors| <= LBA_LIMIT
      ensures Attached() && !ready && this.disk == disk && fresh(fatData)
    {
      this.disk := disk;
      fatData := new u8[FAT_BYTES](_ => 0);
      geo := Geometry(0, 0, 0, 0, 0, 0, 0, 0);
      fatDirty, ready := false, false;
      boot := Zeros(512);
    }

    method CopyIn(at: nat, s: Sector)
      requires fatData.Length == FAT_BYTES && (at == 0 || at == 512)
      modifies fatData
      ensures fatData[..] == old(fatData[..at]) + s + old(fatData[at + 512..])
    {
      forall k | 0 <= k < 512 {
        fatData[at + k] := s[k];
      }
    }

    /** fat12_init */
    method Init() returns (ok: bool)
      requires Attached()
      requires var v := disk.View();
               |v| > 0 && v[0][510] == 0x55 && v[0][511] == 0xAA ==> Supported(Parse(v[0]), |v|)
      modifies this, fatData, disk.slots, disk.ata
      ensures old(disk.AllClean()) ==> disk.AllClean() && disk.ata.sectors == old(disk.ata.sectors)
      ensures Attached() && disk.View() == old(disk.View())
      ensures ok <==> |disk.View()| > 0 && disk.View()[0][510] == 0x55 && disk.View()[0][511] == 0xAA
      ensures ok ==> Mounted() && !fatDirty && FromBoot()
      ensures !ok ==> ready == old(ready)
    {
      var got, sector := disk.ReadSector(0, Zeros(512));
      if !got || |disk.ata.sectors| == 0 {
        return false;
      }
      if sector[510] != 0x55 || sector[511] != 0xAA {
        return false;
      }
      geo := Parse(sector);
      boot := sector;
      ParseKeepsAreasApart(sector, |disk.View()|);
      LoadTable();
      fatDirty, ready := false, true;
      ok := true;
    }

    /** Reading the first one or two sectors of the table into the cached bytes. */
    method LoadTable()
      requires Attached() && Good(geo, |disk.View()|)
      modifies fatData, disk.slots, disk.ata
      ensures old(disk.AllClean()) ==> disk.AllClean() && disk.ata.sectors == old(disk.ata.sectors)
      ensures Attached() && disk.View() == old(disk.View())
      ensures FirstCopy(Table(), disk.View(), geo)
    {
      LoadPart(0, geo.fatStart);
      assert fatData[..512] == fatData[0..512];
      if geo.fatSectors > 1 {
        LoadPart(512, geo.fatStart + 1);
        assert fatData[512..] == fatData[512..512 + 512];
      }
    }

    method LoadPart(at: nat, lba: nat)
      requires Attached() && (at == 0 || at == 512) && lba < |disk.View()|
      modifies fatData, disk.slots, disk.ata
      ensures old(disk.AllClean()) ==> disk.AllClean() && disk.ata.sectors == old(disk.ata.sectors)
      ensures Attached() && disk.View() == old(disk.View())
      ensures fatData[at..at + 512] == disk.View()[lba]
      ensures fatData[..at] == old(fatData[..at]) && fatData[at + 512..] == old(fatData[at + 512..])
    {
      var got, s := disk.ReadSector(lba, fatData[at..at + 512]);
      CopyIn(at, s);
    }

    /** fat12_get */
    method Get(c: nat) returns (v: nat)
      requires Mounted() && c < |Fat()|
      ensures v == Fat()[c]
    {
      v := GetEntry(fatData[..], c);
    }

    /** fat12_set */
    method Set(c: nat, v: nat)
      requires Mounted() && c < |Fat()| && v < 4096
      modifies `fatDirty, fatData
      ensures Mounted() && fatDirty
      ensures Fat() == old(Fat())[c := v]
      ensures disk.View() == old(disk.View())
    {
      var o, odd := Offset(c), c % 2 == 1;
      ghost var before := fatData[..];
      fatData[o], fatData[o + 1] := PackLow(odd, fatData[o], v), PackHigh(odd, fatData[o + 1], v);
      assert fatData[..] == SetEntry(before, c, v);
      EntriesAfterSet(before, geo.Clusters() + 2, c, v);
      fatDirty := true;
    }

    /** fat12_alloc_cluster */
    method AllocCluster() returns (c: nat)
      requires Mounted()
      ensures c == FirstFree(Fat(), 2)
    {
      c := 2;
      while c < geo.totalSectors - geo.dataStart + 2
        invariant 2 <= c <= |Fat()|
        invariant FirstFree(Fat(), c) == FirstFree(Fat(), 2)
      {
        var v := Get(c);
        if v == 0 {
          return;
        }
        c := c + 1;
      }
      c := 0;
    }

    /** free_chain: ends on any table whose links stay in range. */
    method FreeFrom(first: nat)
      requires Mounted() && LinksBounded(Fat()) && Linkable(Fat(), first)
      modifies `fatDirty, fatData
      ensures Mounted() && Fat() == FreeChain(old(Fat()), first)
      ensures InRange(first) || old(fatDirty) ==> fatDirty
      ensures disk.View() == old(disk.View())
    {
      hide Attached, Good, Supported, Cache.Valid, Cache.Healthy, Cache.AllClean, Cache.View, DirOf, DataOf, Entries,
           FreeChain, NonZeros;
      var cluster := first;
      while InRange(cluster)
        invariant Mounted() && disk.View() == old(disk.View())
        invariant LinksBounded(Fat()) && Linkable(Fat(), cluster)
        invariant FreeChain(Fat(), cluster) == FreeChain(old(Fat()), first)
        invariant cluster == first || fatDirty
        invariant old(fatDirty) ==> fatDirty
        decreases NonZeros(Fat()), if InRange(cluster) then 1 else 0
      {
        var next := Get(cluster);
        FreeChainStep(Fat(), cluster);
        Set(cluster, 0);
        cluster := next;
      }
      FreeChainStep(Fat(), cluster);
    }

    /** fat_flush */
    method FlushTable()
      requires Mounted()
      modifies `fatDirty, disk.slots, disk.ata
      ensures Mounted() && !fatDirty && Abs() == old(Abs())
      ensures old(fatDirty) ==> TableOnDisk(Table(), disk.View(), geo)
      ensures !old(fatDirty) ==> disk.View() == old(disk.View())
    {
      if !fatDirty {
        return;
      }
      PutCopies();
      fatDirty := false;
    }

    /** Both copies of the table, sector by sector. */
    method PutCopies()
      requires Mounted() && fatDirty
      modifies disk.slots, disk.ata
      ensures Mounted() && Abs() == old(Abs())
      ensures TableOnDisk(Table(), disk.View(), geo)
    {
      hide Attached, Cache.Valid, Cache.Healthy, Cache.AllClean, Cache.View, DirOf, DataOf, Entries;
      PutCopy(geo.fatStart);
      if geo.fats > 1 {
        PutCopy(geo.fatStart + geo.fatSectors);
      }
    }

    /** The sector writes of fat_flush for one copy of the table. */
    method PutCopy(start: nat)
      requires Mounted() && fatDirty && 1 <= start < geo.rootStart
      requires geo.fatSectors > 1 ==> start + 1 < geo.rootStart
      modifies disk.slots, disk.ata
      ensures Mounted() && Abs() == old(Abs())
      ensures disk.View()[start] == fatData[..512]
      ensures geo.fatSectors > 1 ==> disk.View()[start + 1] == fatData[512..]
      ensures |disk.View()| == |old(disk.View())|
      ensures forall l :: 0 <= l < |disk.View()| && l != start && !(geo.fatSectors > 1 && l == start + 1) ==> disk.View()[l] == old(disk.View())[l]
    {
      PutTableSector(start, fatData[..512]);
      if geo.fatSectors > 1 {
        PutTableSector(start + 1, fatData[512..]);
      }
    }

    /** One disk_write_sector of fat_flush: below the directory and above the boot sector, so the volume stands. */
    method PutTableSector(lba: nat, s: Sector)
      requires Mounted() && fatDirty && 1 <= lba < geo.rootStart
      modifies disk.slots, disk.ata
      ensures Mounted() && disk.View() == old(disk.View())[lba := s] && Abs() == old(Abs())
    {
      TableSectorWritten(disk.View(), geo, lba, s);
      var ok := disk.WriteSector(lba, s);
    }

    /** One directory sector, as find_entry and alloc_root_entry fetch it. */
    method Fetch(lba: nat) returns (sector: Sector)
      requires Mounted() && lba < |disk.View()|
      modifies disk.slots, disk.ata
      ensures old(disk.AllClean()) ==> disk.AllClean()
      ensures Mounted() && disk.View() == old(disk.View()) && sector == disk.View()[lba]
    {
      var got, s := disk.ReadSector(lba, Zeros(512));
      sector := s;
    }

    /** The outcome of a search: the place on disk of the slot found. */
    ghost predicate Placed(r: Option<nat>, found: bool, lba: nat, idx: nat)
      reads this
    {
      && (found <==> r.Some?)
      && (found ==> idx < 16 && geo.rootStart <= lba && (lba - geo.rootStart) * 16 + idx == r.value)
    }

    /** The place of the slot found and its entry. */
    ghost predicate Located(dir: seq<Entry>, r: Option<nat>, found: bool, entry: Entry, lba: nat, idx: nat)
      reads this
    {
      && Placed(r, found, lba, idx)
      && (found ==> r.value < |dir| && entry == dir[r.value])
    }

    /** find_entry: the slot number is the sector's offset from the directory times 16 plus the index in it. */
    method FindEntry(name: Name) returns (found: bool, entry: Entry, lba: nat, idx: nat)
      requires Mounted()
      modifies disk.slots, disk.ata
      ensures old(disk.AllClean()) ==> disk.AllClean()
      ensures Mounted() && disk.View() == old(disk.View())
      ensures Located(DirOf(disk.View(), geo), Find(DirOf(disk.View(), geo), name), found, entry, lba, idx)
    {
      hide FindFrom, EntryName, SlotBytes, Attached, Good, Cache.Valid, Cache.Healthy, Cache.AllClean, Cache.View;
      ghost var view := disk.View();
      ghost var dir := DirOf(view, geo);
      ghost var target := Find(dir, name);
      entry := Zeros(32);
      lba, idx := geo.rootStart, 0;
      var left := geo.rootCount;
      while left > 0
        invariant Mounted() && disk.View() == view && (old(disk.AllClean()) ==> disk.AllClean())
        invariant 0 <= left <= geo.rootCount && geo.rootStart <= lba
        invariant left > 0 ==> (lba - geo.rootStart) * 16 == geo.rootCount - left
        invariant FindFrom(dir, name, geo.rootCount - left) == target
      {
        ghost var done := geo.rootCount - left;
        SectorSlots(view, geo, lba, done);
        var sector := Fetch(lba);
        var per := 16;
        if per > left {
          per := left;
        }
        left := left - per;
        var ended, hit := ScanSector(sector, per, name, dir, done, target);
        if ended {
          return false, entry, lba, idx;
        }
        if hit < per {
          assert dir[done + hit] == SlotBytes(sector, hit);
          return true, SlotBytes(sector, hit), lba, hit;
        }
        lba := lba + 1;
      }
      FindFromEnd(dir, name);
      found := false;
    }

    /** alloc_root_entry */
    method AllocRootEntry() returns (found: bool, lba: nat, idx: nat)
      requires Mounted()
      modifies disk.slots, disk.ata
      ensures old(disk.AllClean()) ==> disk.AllClean()
      ensures Mounted() && disk.View() == old(disk.View())
      ensures Placed(FreeSlot(DirOf(disk.View(), geo)), found, lba, idx)
    {
      hide FreeSlotFrom, SlotBytes, Attached, Good, Cache.Valid, Cache.Healthy, Cache.AllClean, Cache.View;
      ghost var view := disk.View();
      ghost var dir := DirOf(view, geo);
      ghost var target := FreeSlot(dir);
      ghost var g := geo;
      found, lba, idx := false, geo.rootStart, 0;
      var left := geo.rootCount;
      while left > 0
        invariant Mounted() && disk.View() == view && geo == g && (old(disk.AllClean()) ==> disk.AllClean())
        invariant 0 <= left <= g.rootCount && g.rootStart <= lba
        invariant left > 0 ==> (lba - g.rootStart) * 16 == g.rootCount - left
        invariant FreeSlotFrom(dir, g.rootCount - left) == target
      {
        ghost var done := g.rootCount - left;
        SectorSlots(view, g, lba, done);
        var sector := Fetch(lba);
        var per := 16;
        if per > left {
          per := left;
        }
        left := left - per;
        var hit := ScanFree(sector, per, dir, done, target);
        if hit < per {
          return true, lba, hit;
        }
        lba := lba + 1;
      }
      FreeSlotEnd(dir);
    }

    /** A directory sector read, changed in one slot and written back. */
    method RewriteSlot(lba: nat, idx: nat, e: Entry)
      requires Mounted() && idx < 16 && geo.rootStart <= lba && (lba - geo.rootStart) * 16 + idx < geo.rootCount
      modifies disk.slots, disk.ata
      ensures old(disk.AllClean()) ==> disk.AllClean()
      ensures Mounted()
      ensures Abs() == old(Abs()).(dir := old(Abs()).dir[(lba - geo.rootStart) * 16 + idx := e])
      ensures TablesKept(old(disk.View()), disk.View(), geo)
    {
      hide DirOf, DataOf, Entries, PutSlot, SlotBytes;
      ghost var view := disk.View();
      SlotWritten(Table(), view, geo, lba, idx, e);
      var sector := Fetch(lba);
      var ok := disk.WriteSector(lba, PutSlot(sector, idx, e));
    }

    /** The drive holds everything that is seen, the table included. */
    ghost predicate Synced()
      reads this, fatData, disk, disk.slots, disk.ata
      requires Mounted()
    {
      !fatDirty && disk.AllClean() && disk.ata.sectors == disk.View()
    }

    /** The disk_cache_flush that ends a write or delete. */
    method FlushDisk()
      requires Mounted() && !fatDirty
      modifies disk.slots, disk.ata
      ensures Mounted() && Synced() && disk.View() == old(disk.View())
    {
      ghost var lost := disk.Flush();
    }

    /** fat12_exists */
    method Exists(path: Name) returns (found: bool)
      requires Attached() && (ready ==> Mounted())
      modifies disk.slots, disk.ata
      ensures Attached() && (ready ==> Mounted() && Abs() == old(Abs()))
      ensures found <==> ready && Find(Abs().dir, NameOf(path)).Some?
    {
      if !ready {
        return false;
      }
      var f, entry, lba, idx := FindEntry(NameOf(path));
      found := f;
    }

    /** memcpy of the first n bytes of a sector into the caller's buffer. */
    method CopyOut(buf: array<u8>, at: nat, sector: Sector, n: nat)
      requires n <= 512 && at + n <= buf.Length
      modifies buf
      ensures buf[..] == old(buf[..at]) + sector[..n] + old(buf[at + n..])
    {
      forall k | 0 <= k < n {
        buf[at + k] := sector[k];
      }
    }

    /** The loop of fat12_read along the chain s. */
    method ReadChain(first: nat, size: nat, buf: array<u8>, ghost s: seq<nat>) returns (written: nat)
      requires Mounted() && IsChain(Fat(), first, s)
      requires buf != fatData && (buf as object) != disk.slots
      requires forall k :: 0 <= k < |s| ==> 2 <= s[k] < geo.Clusters() + 2
      modifies buf, disk.slots, disk.ata
      ensures Mounted() && disk.View() == old(disk.View())
      ensures written == Min(Min(512 * |s|, size), buf.Length)
      ensures buf[..written] == Concat(DataOf(disk.View(), geo), s)[..written]
      ensures buf[written..] == old(buf[written..])
    {
      hide Attached, Good, Supported, Cache.Valid, Cache.Healthy, Cache.AllClean, Cache.View, Concat;
      ghost var view, f := disk.View(), Fat();
      ghost var p := 0;
      var cluster := first;
      written := 0;
      while InRange(cluster) && written < buf.Length
        invariant Mounted() && disk.View() == view && Fat() == f
        invariant 0 <= p <= |s| && IsChain(f, cluster, s[p..])
        invariant written == Min(Min(512 * p, size), buf.Length)
        invariant buf[..written] == Concat(DataOf(view, geo), s)[..written] && buf[written..] == old(buf[written..])
        decreases |s| - p
      {
        assert s[p] == cluster;
        written, cluster := ReadBlock(cluster, size, buf, written, s, p);
        assert s[p..][1..] == s[p + 1..];
        p := p + 1;
      }
    }

    /** One round of that loop: the p-th sector, cut to the buffer and to the file size. */
    method ReadBlock(cluster: nat, size: nat, buf: array<u8>, at: nat, ghost s: seq<nat>, ghost p: nat) returns (written: nat, next: nat)
      requires Mounted() && buf != fatData && (buf as object) != disk.slots
      requires forall k :: 0 <= k < |s| ==> 2 <= s[k] < geo.Clusters() + 2
      requires p < |s| && s[p] == cluster && at < buf.Length && at == Min(512 * p, size)
      requires buf[..at] == Concat(DataOf(disk.View(), geo), s)[..at]
      modifies buf, disk.slots, disk.ata
      ensures Mounted() && disk.View() == old(disk.View())
      ensures next == Fat()[cluster]
      ensures at <= written == Min(Min(512 * p + 512, size), buf.Length)
      ensures buf[..written] == Concat(DataOf(disk.View(), geo), s)[..written]
      ensures buf[written..] == old(buf[written..])
    {
      hide Attached, Good, Supported, Cache.Valid, Cache.Healthy, Cache.AllClean, Cache.View, Concat;
      next := Get(cluster);
      var sector := FetchCluster(cluster);
      var toCopy := 512;
      if at + toCopy > buf.Length {
        toCopy := buf.Length - at;
      }
      if at + toCopy > size {
        toCopy := size - at;
      }
      ghost var data := DataOf(disk.View(), geo);
      ConcatAt(data, s, p);
      ghost var before := buf[..];
      CopyOut(buf, at, sector, toCopy);
      ExtendPrefix(before, buf[..], Concat(data, s), at, toCopy, sector, 512 * p);
      written := at + toCopy;
    }

    /** The data sector of a cluster. */
    method FetchCluster(c: nat) returns (sector: Sector)
      requires Mounted() && 2 <= c < geo.Clusters() + 2
      modifies disk.slots, disk.ata
      ensures Mounted() && disk.View() == old(disk.View()) && sector == DataOf(disk.View(), geo)[c - 2]
    {
      sector := Fetch(geo.dataStart + c - 2);
    }

    /** fat12_read: the bytes of the file, as many as fit the buffer; the rest of the buffer is untouched. */
    method Read(path: Name, buf: array<u8>) returns (n: nat)
      requires Attached() && (ready ==> Mounted() && WellFormed(Abs()))
      requires buf != fatData && (buf as object) != disk.slots
      modifies buf, disk.slots, disk.ata
      ensures Attached() && (ready ==> Mounted() && Abs() == old(Abs()))
      ensures n <= buf.Length && buf[n..] == old(buf[n..])
      ensures !ready ==> n == 0
      ensures ready ==> buf[..n] == ReadPath(old(Abs()), path, buf.Length)
    {
      hide WellFormed, Attached, Good, Supported, Cache.Valid, Cache.Healthy, Cache.AllClean, Cache.View, Concat, Find,
           ReadBytes;
      if !ready {
        return 0;
      }
      ghost var v := Abs();
      var found, entry, lba, idx := FindEntry(NameOf(path));
      if !found {
        ReadMissing(v, NameOf(path), buf.Length);
        return 0;
      }
      ghost var i := Find(v.dir, NameOf(path)).value;
      FoundFile(v, NameOf(path));
      n := ReadChain(FirstCluster(entry), FileSize(entry), buf, Chain(v, i));
      ReadFound(v, NameOf(path), buf.Length);
    }

    /** The deletion that opens fat12_write and is all of fat12_delete: frees the chain, marks the slot. */
    method DropOld(name: Name) returns (found: bool)
      requires Mounted() && WellFormed(Abs())
      modifies `fatDirty, fatData, disk.slots, disk.ata
      ensures old(disk.AllClean()) ==> disk.AllClean()
      ensures Mounted()
      ensures found <==> Find(old(Abs()).dir, name).Some?
      ensures Abs() == EraseNamed(old(Abs()), name)
      ensures FreesClusters(old(Abs()), name) || old(fatDirty) ==> fatDirty
      ensures TablesKept(old(disk.View()), disk.View(), geo)
    {
      hide WellFormed, Attached, Good, Supported, Cache.Valid, Cache.Healthy, Cache.AllClean, Cache.View, Find;
      ghost var v := Abs();
      var f, entry, lba, idx := FindEntry(name);
      found := f;
      EraseNamedIs(v, name);
      if found {
        FoundFile(v, name);
        FreeFrom(FirstCluster(entry));
        RewriteSlot(lba, idx, entry[0 := DELETED]);
      }
    }

    /** The allocation loop of fat12_write; it frees what it took when the disk is full. */
    method BuildChain(needed: nat) returns (ok: bool, first: nat)
      requires Mounted() && LinksBounded(Fat()) && |Fat()| >= 2
      modifies `fatDirty, fatData
      ensures Mounted() && disk.View() == old(disk.View())
      ensures var a := AllocChain(old(Fat()), needed, 0, 0);
              Fat() == a.fat && ok == a.ok && first == a.first
      ensures ok && needed > 0 ==> fatDirty
    {
      hide Attached, Good, Supported, Cache.Valid, Cache.Healthy, Cache.AllClean, Cache.View, LinksBounded, Entries,
           FirstFree, FreeChain, AddCluster;
      ghost var view, goal := disk.View(), AllocChain(Fat(), needed, 0, 0);
      first := 0;
      var prev: nat, c: nat := 0, 0;
      while c < needed
        invariant Mounted() && disk.View() == view && 0 <= c <= needed
        invariant LinksBounded(Fat()) && first < |Fat()| && prev < |Fat()| && |Fat()| >= 2
        invariant AllocChain(Fat(), needed - c, first, prev) == goal
        invariant c > 0 ==> fatDirty
      {
        AllocUnfolds(Fat(), needed - c, first, prev);
        var nc := AllocCluster();
        if nc == 0 {
          if first != 0 {
            FreeFrom(first);
          }
          return false, first;
        }
        Append(prev, nc);
        if prev == 0 {
          first := nc;
        }
        prev := nc;
        c := c + 1;
      }
      AllocDone(Fat(), first, prev);
      ok := true;
    }

    /** Marking a new end of chain and linking it behind prev. */
    method Append(prev: nat, nc: nat)
      requires Mounted() && prev < |Fat()| && nc < |Fat()| < 4096
      modifies `fatDirty, fatData
      ensures Mounted() && fatDirty && disk.View() == old(disk.View())
      ensures Fat() == AddCluster(old(Fat()), prev, nc)
    {
      Set(nc, END_OF_CHAIN);
      if prev != 0 {
        Set(prev, nc);
      }
    }

    /** One data sector. */
    method PutCluster(c: nat, block: Sector)
      requires Mounted() && 2 <= c < geo.Clusters() + 2
      modifies disk.slots, disk.ata
      ensures old(disk.AllClean()) ==> disk.AllClean()
      ensures Mounted()
      ensures Abs() == old(Abs()).(data := old(Abs()).data[c - 2 := block])
      ensures TablesKept(old(disk.View()), disk.View(), geo)
    {
      DataSectorWritten(disk.View(), geo, c, block);
      var ok := disk.WriteSector(geo.dataStart + c - 2, block);
    }

    /** The data loop of fat12_write: one zero-filled sector per cluster along the chain s. */
    method StoreBytes(first: nat, bytes: seq<u8>, ghost s: seq<nat>) returns (written: nat)
      requires Mounted() && Shape(Abs()) && Linkable(Fat(), first)
      requires IsChain(Fat(), first, s) && |bytes| <= 512 * |s|
      modifies disk.slots, disk.ata
      ensures old(disk.AllClean()) ==> disk.AllClean()
      ensures Mounted() && written == |bytes|
      ensures Abs() == old(Abs()).(data := StoreFrom(old(Fat()), old(Abs()).data, first, bytes))
      ensures TablesKept(old(disk.View()), disk.View(), geo)
    {
      hide Attached, Good, Supported, Cache.Valid, Cache.Healthy, Cache.AllClean, Cache.View, LinksBounded, Entries,
           Block, DataOf, DirOf, StoreFrom, IsChain;
      ghost var view := disk.View();
      assert TablesKept(view, view, geo);
      hide TablesKept;
      assert s[0..] == s && bytes[0..] == bytes;
      ghost var v, goal := Abs(), StoreFrom(Fat(), Abs().data, first, bytes);
      ghost var p := 0;
      var cluster := first;
      written := 0;
      while InRange(cluster) && written < |bytes|
        invariant Mounted() && written <= |bytes| && (old(disk.AllClean()) ==> disk.AllClean())
        invariant Abs().fat == v.fat && Abs().dir == v.dir && Shape(Abs()) && Linkable(v.fat, cluster)
        invariant StoreFrom(v.fat, Abs().data, cluster, bytes[written..]) == goal
        invariant 0 <= p <= |s| && IsChain(v.fat, cluster, s[p..]) && |bytes| - written <= 512 * (|s| - p)
        invariant TablesKept(view, disk.View(), geo)
        decreases |bytes| - written
      {
        ghost var before := disk.View();
        StoreUnfolds(v.fat, Abs().data, cluster, bytes, written);
        ChainUnfolds(v.fat, cluster, s, p);
        PutCluster(cluster, Block(bytes[written..]));
        TablesKeptTwice(view, before, disk.View(), geo);
        written := written + Min(512, |bytes| - written);
        cluster := Get(cluster);
        p := p + 1;
      }
      ChainUnfolds(v.fat, cluster, s, p);
      assert bytes[written..] == [];
      StoreEnds(v.fat, Abs().data, cluster);
    }

    /** fat12_write. A zero-length file is created and yet reported as 0, like a failure. */
    method Write(path: Name, bytes: seq<u8>) returns (n: nat)
      requires Attached() && (ready ==> Mounted() && WellFormed(Abs()))
      requires |bytes| + 511 < 0x1_0000_0000
      modifies `fatDirty, fatData, disk.slots, disk.ata
      ensures old(disk.AllClean()) ==> disk.AllClean()
      ensures Attached() && (ready ==> Mounted())
      ensures !ready ==> n == 0
      ensures ready ==> var r := FatVolume.Write(old(Abs()), path, bytes);
                        && Abs() == r.volume
                        && n == (if r.outcome == Written then |bytes| else 0)
                        && (r.outcome == Written ==> Synced() && TableOnDisk(Table(), disk.View(), geo))
                        && (r.outcome != Written ==> TablesKept(old(disk.View()), disk.View(), geo))
    {
      if !ready {
        return 0;
      }
      ghost var v := Abs();
      hide TablesKept;
      ghost var view := disk.View();
      var name := NameOf(path);
      var found := DropOld(name);
      ghost var e, between := Abs(), disk.View();
      EraseNamedConserves(v, name);
      n := WriteNew(name, bytes);
      if FatVolume.Write(v, path, bytes).outcome != Written {
        TablesKeptTwice(view, between, disk.View(), geo);
      }
    }

    /** fat12_write behind the deletion of an older file. */
    method WriteNew(name: Name, bytes: seq<u8>) returns (n: nat)
      requires Mounted() && WellFormed(Abs()) && |bytes| + 511 < 0x1_0000_0000
      modifies `fatDirty, fatData, disk.slots, disk.ata
      ensures old(disk.AllClean()) ==> disk.AllClean()
      ensures Mounted()
      ensures var r := WriteFresh(old(Abs()), name, bytes);
              && Abs() == r.volume
              && n == (if r.outcome == Written then |bytes| else 0)
              && (r.outcome == Written ==> Synced() && TableOnDisk(Table(), disk.View(), geo))
              && (r.outcome != Written ==> TablesKept(old(disk.View()), disk.View(), geo))
    {
      assert TablesKept(disk.View(), disk.View(), geo);
      hide TablesKept;
      hide WellFormed, Attached, Good, Supported, Cache.Valid, Cache.Healthy, Cache.AllClean, Cache.View, AllocChain,
           StoreFrom, FreeSlotFrom, FreeChain, Synced, Chain, WriteFresh, Fill, TableOnDisk, Entries, NewEntry, IsChain,
           DirOf, DataOf, ClustersNeeded, LinksBounded, Shape;
      ghost var v := Abs();
      var needed := Needed(|bytes|);
      ghost var t := WriteFreshCases(v, name, bytes);
      var ok, first := BuildChain(needed);
      assert Abs() == v.(fat := AllocChain(v.fat, needed, 0, 0).fat);
      if !ok {
        return 0;
      }
      n := FillChain(name, first, bytes, t);
    }

    /** How many clusters a file of the size takes. */
    method Needed(size: nat) returns (needed: nat)
      ensures needed == ClustersNeeded(size) && needed > 0
    {
      needed := (size + 511) / 512;
      if needed == 0 {
        needed := 1;
      }
    }

    /** The data loop and the end of fat12_write, on a chain s that holds the bytes. */
    method FillChain(name: Name, first: nat, bytes: seq<u8>, ghost s: seq<nat>) returns (n: nat)
      requires Mounted() && Shape(Abs()) && |Fat()| <= 0xFF0 && first < |Fat()| && fatDirty && |bytes| < 0x1_0000_0000
      requires IsChain(Fat(), first, s) && |bytes| <= 512 * |s|
      modifies `fatDirty, fatData, disk.slots, disk.ata
      ensures old(disk.AllClean()) ==> disk.AllClean()
      ensures Mounted()
      ensures var r := Fill(old(Abs()), name, first, bytes);
              && Abs() == r.volume
              && n == (if r.outcome == Written then |bytes| else 0)
              && (r.outcome == Written ==> Synced() && TableOnDisk(Table(), disk.View(), geo))
              && (r.outcome != Written ==> TablesKept(old(disk.View()), disk.View(), geo))
    {
      hide Attached, Good, Supported, Cache.Valid, Cache.Healthy, Cache.AllClean, Cache.View, StoreFrom, FreeSlotFrom,
           FreeChain, Synced, TableOnDisk, Entries, NewEntry, TablesKept;
      n := StoreBytes(first, bytes, s);
      var entered := Enter(name, first, |bytes|);
      if !entered {
        n := 0;
      }
    }

    /** The end of fat12_write: a directory entry for the chain, or else the chain is freed again. */
    method Enter(name: Name, first: nat, size: u32) returns (ok: bool)
      requires Mounted() && LinksBounded(Fat()) && first < |Fat()| <= 0xFF0 && fatDirty
      modifies `fatDirty, fatData, disk.slots, disk.ata
      ensures old(disk.AllClean()) ==> disk.AllClean()
      ensures Mounted()
      ensures var v := old(Abs());
              match FreeSlot(v.dir)
              case None => !ok && Abs() == v.(fat := FreeChain(v.fat, first)) && disk.View() == old(disk.View())
              case Some(slot) =>
                && ok && Synced() && TableOnDisk(Table(), disk.View(), geo)
                && Abs() == v.(dir := v.dir[slot := NewEntry(name, first, size)])
    {
      hide Attached, Good, Supported, Cache.Valid, Cache.Healthy, Cache.AllClean, Cache.View, FreeSlotFrom, FreeChain,
           LinksBounded, NewEntry, Synced, Entries;
      var placed, lba, idx := AllocRootEntry();
      if !placed {
        FreeFrom(first);
        return false;
      }
      var e := MakeEntry(name, first, size);
      RewriteSlot(lba, idx, e);
      FlushTable();
      FlushDisk();
      ok := true;
    }

    /** fat12_delete */
    method Delete(path: Name) returns (ok: bool)
      requires Attached() && (ready ==> Mounted() && WellFormed(Abs()))
      modifies `fatDirty, fatData, disk.slots, disk.ata
      ensures old(disk.AllClean()) ==> disk.AllClean()
      ensures Attached() && (ready ==> Mounted())
      ensures !ready ==> !ok
      ensures ready ==> && ok == Find(old(Abs()).dir, NameOf(path)).Some?
                        && Abs() == FatVolume.Delete(old(Abs()), path)
                        && (!ok ==> TablesKept(old(disk.View()), disk.View(), geo))
                        && (ok ==> Synced())
                        && (ok && (old(fatDirty) || FreesClusters(old(Abs()), NameOf(path))) ==>
                              TableOnDisk(Table(), disk.View(), geo))
    {
      hide WellFormed, Attached, Cache.Valid, Cache.Healthy, Cache.AllClean, Cache.View, TableOnDisk, TablesKept,
           Entries, DirOf, DataOf;
      if !ready {
        return false;
      }
      ok := DropOld(NameOf(path));
      if !ok {
        return;
      }
      FlushTable();
      FlushDisk();
    }

    /** disk_init and fat12_init after a reboot: an empty cache over the same drive. */
    static method Boot(ata: Ata) returns (d: Driver, ok: bool)
      requires ata.Reliable() && |ata.sectors| <= LBA_LIMIT
      requires |ata.sectors| > 0 && ata.sectors[0][510] == 0x55 && ata.sectors[0][511] == 0xAA ==>
                 Supported(Parse(ata.sectors[0]), |ata.sectors|)
      modifies ata
      ensures fresh(d) && fresh(d.fatData) && fresh(d.disk) && fresh(d.disk.slots) && d.disk.ata == ata
      ensures ok <==> |ata.sectors| > 0 && ata.sectors[0][510] == 0x55 && ata.sectors[0][511] == 0xAA
      ensures ata.sectors == old(ata.sectors) && d.Attached() && d.disk.View() == ata.sectors && d.disk.AllClean()
      ensures ok ==> d.Mounted() && !d.fatDirty && d.FromBoot()
    {
      var cache := new Cache(ata, true);
      d := new Driver(cache);
      ok := d.Init();
    }

    /** fat12_init once more. */
    method Remount()
      requires Mounted() && FromBoot()
      modifies this, fatData, disk.slots, disk.ata
      ensures Mounted() && !fatDirty && FromBoot() && geo == old(geo) && disk.View() == old(disk.View())
    {
      var ok := Init();
    }

    /** Remount equality: after a reboot the driver sees the volume this one left on the drive. */
    method Reboot() returns (d: Driver)
      requires Mounted() && FromBoot() && Synced()
      modifies disk.ata
      ensures fresh(d) && d.Mounted() && d.FromBoot()
      ensures fresh(d.fatData) && fresh(d.disk.slots) && d.disk.ata == disk.ata
      ensures Mounted() && Abs() == old(Abs()) && d.Abs() == Abs()
    {
      var d', ok := Boot(disk.ata);
      d := d';
      RemountAgrees(Table(), d.Table(), disk.View(), geo);
    }
  }

  /** What fat12_write reports as written is on the drive: after a reboot fat12_read finds it, in any letter case, with
      or without a slash on either side. */
  method WriteRebootRead(d: Driver, path: Name, ghost name: Name, bytes: seq<u8>, query: Name, ghost other: Name, buf: array<u8>)
    returns (n: nat, m: nat)
    requires d.Mounted() && d.FromBoot() && WellFormed(d.Abs()) && |bytes| + 511 < 0x1_0000_0000
    requires Denotes(path, name) && Denotes(query, other) && Fits83(name) && Visible(name) && SameName(other, name)
    requires buf != d.fatData && (buf as object) != d.disk.slots
    modifies d`fatDirty, d.fatData, d.disk.slots, d.disk.ata, buf
    ensures n == 0 || n == |bytes|
    ensures n > 0 ==> m == Min(|bytes|, buf.Length) && buf[..m] == bytes[..m]
  {
    hide WellFormed, Driver.Attached, Good, Supported, Cache.Valid, Cache.Healthy, Cache.AllClean, Cache.View, Parse;
    ghost var v := d.Abs();
    n := d.Write(path, bytes);
    m := 0;
    if n > 0 {
      PathReadsBack(v, path, name, bytes, query, other, buf.Length);
      var again := d.Reboot();
      m := again.Read(query, buf);
    }
  }

  /** The sector of the p-th cluster is the p-th block of the file. */
  lemma {:induction false} ConcatAt(data: seq<Sector>, s: seq<nat>, p: nat)
    requires forall k :: 0 <= k < |s| ==> 2 <= s[k] < |data| + 2
    requires p < |s|
    ensures Concat(data, s)[512 * p..512 * p + 512] == data[s[p] - 2]
    decreases p
  {
    if p > 0 {
      ConcatAt(data, s[1..], p - 1);
      assert Concat(data, s)[512 * p..512 * p + 512] == Concat(data, s[1..])[512 * (p - 1)..512 * (p - 1) + 512];
    }
  }

  /** Copying the next block extends the prefix already delivered. */
  lemma ExtendPrefix(before: seq<u8>, after: seq<u8>, whole: seq<u8>, written: nat, n: nat, sector: Sector, at: nat)
    requires at + 512 <= |whole| && whole[at..at + 512] == sector && n <= 512
    requires written + n <= |before| && written <= at && (n > 0 ==> written == at)
    requires before[..written] == whole[..written]
    requires after == before[..written] + sector[..n] + before[written + n..]
    ensures after[..written + n] == whole[..written + n] && after[written + n..] == before[written + n..]
  {
    if n > 0 {
      assert whole[at..at + n] == sector[..n];
      assert whole[..written + n] == whole[..written] + whole[at..at + n];
    } else {
      assert sector[..n] == [];
    }
  }

  /** The first match of a search is a live file, and its chain lies in the data area. */
  lemma FoundFile(v: Volume, name: Name)
    requires WellFormed(v) && Find(v.dir, name).Some?
    ensures var i := Find(v.dir, name).value;
            && Sane(v) && Live(v.dir, i)
            && IsChain(v.fat, FirstCluster(v.dir[i]), Chain(v, i))
            && Linkable(v.fat, FirstCluster(v.dir[i]))
            && (forall k :: 0 <= k < |Chain(v, i)| ==> 2 <= Chain(v, i)[k] < |v.data| + 2)
  {
    FindFromFirst(v.dir, name, 0);
    var i := Find(v.dir, name).value;
    ChainInData(v, FirstCluster(v.dir[i]), Chain(v, i));
    FreeChainOfChain(v.fat, FirstCluster(v.dir[i]), Chain(v, i));
  }

  lemma ReadFound(v: Volume, name: Name, cap: nat)
    requires WellFormed(v) && Find(v.dir, name).Some?
    ensures var i := Find(v.dir, name).value;
            && Live(v.dir, i)
            && (forall k :: 0 <= k < |Chain(v, i)| ==> 2 <= Chain(v, i)[k] < |v.data| + 2)
            && ReadBytes(v, name, cap) == Concat(v.data, Chain(v, i))[..Min(Min(512 * |Chain(v, i)|, FileSize(v.dir[i])), cap)]
  {
    FoundFile(v, name);
    FindFromFirst(v.dir, name, 0);
  }

  lemma ReadMissing(v: Volume, name: Name, cap: nat)
    requires WellFormed(v) && Find(v.dir, name).None?
    ensures ReadBytes(v, name, cap) == []
  {
  }

  lemma EraseNamedIs(v: Volume, name: Name)
    requires WellFormed(v)
    ensures Find(v.dir, name).None? ==> EraseNamed(v, name) == v
    ensures Find(v.dir, name).Some? ==>
              var i := Find(v.dir, name).value;
              && Live(v.dir, i) && LinksBounded(v.fat) && Linkable(v.fat, FirstCluster(v.dir[i]))
              && EraseNamed(v, name) ==
                 Volume(FreeChain(v.fat, FirstCluster(v.dir[i])), v.dir[i := v.dir[i][0 := DELETED]], v.data)
  {
    FindFromFirst(v.dir, name, 0);
    if Find(v.dir, name).Some? {
      FoundFile(v, name);
    }
  }

  lemma AllocUnfolds(f: seq<nat>, n: nat, first: nat, prev: nat)
    requires LinksBounded(f) && first < |f| && prev < |f| && n > 0
    ensures var nc := FirstFree(f, 2);
            && (nc == 0 ==> AllocChain(f, n, first, prev) == Allocation(if first != 0 then FreeChain(f, first) else f, first, false))
            && (nc != 0 ==> nc < |f| < 4096 && LinksBounded(AddCluster(f, prev, nc))
                            && AllocChain(f, n, first, prev) == AllocChain(AddCluster(f, prev, nc), n - 1, if prev == 0 then nc else first, nc))
  {
  }

  lemma AllocDone(f: seq<nat>, first: nat, prev: nat)
    requires LinksBounded(f) && first < |f| && prev < |f|
    ensures AllocChain(f, 0, first, prev) == Allocation(f, first, true)
  {
  }

  lemma ChainUnfolds(f: seq<nat>, c: nat, s: seq<nat>, p: nat)
    requires p <= |s| && IsChain(f, c, s[p..])
    ensures InRange(c) <==> p < |s|
    ensures InRange(c) ==> c < |f| && IsChain(f, f[c], s[p + 1..])
  {
    assert p < |s| ==> s[p..][1..] == s[p + 1..];
  }

  lemma StoreEnds(f: seq<nat>, data: seq<Sector>, c: nat)
    requires |f| == |data| + 2 && LinksBounded(f) && Linkable(f, c)
    ensures StoreFrom(f, data, c, []) == data
  {
  }

  lemma StoreUnfolds(f: seq<nat>, data: seq<Sector>, c: nat, bytes: seq<u8>, written: nat)
    requires |f| == |data| + 2 && LinksBounded(f) && Linkable(f, c) && InRange(c) && written < |bytes|
    ensures Linkable(f, f[c])
    ensures StoreFrom(f, data, c, bytes[written..]) ==
            StoreFrom(f, data[c - 2 := Block(bytes[written..])], f[c], bytes[written + Min(512, |bytes| - written)..])
  {
    assert bytes[written..][Min(512, |bytes| - written)..] == bytes[written + Min(512, |bytes| - written)..];
  }

  /** The three ends of a write, as the driver reaches them. */
  lemma WriteFreshCases(v: Volume, name: Name, bytes: seq<u8>) returns (t: seq<nat>)
    requires WellFormed(v) && |bytes| < 0x1_0000_0000
    ensures LinksBounded(v.fat) && 2 <= |v.fat| == |v.data| + 2
    ensures var a := AllocChain(v.fat, ClustersNeeded(|bytes|), 0, 0);
            var r := WriteFresh(v, name, bytes);
            && Shape(v.(fat := a.fat)) && |a.fat| == |v.fat| <= 0xFF0 && a.first < |a.fat|
            && (!a.ok ==> r == WriteResult(v.(fat := a.fat), DiskFull))
            && (a.ok ==> IsChain(a.fat, a.first, t) && |bytes| <= 512 * |t|
                         && r == Fill(v.(fat := a.fat), name, a.first, bytes))
  {
    t := LayFresh(v.fat, ClustersNeeded(|bytes|));
  }
}
