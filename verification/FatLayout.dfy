/** Where a FAT12 volume keeps its tables, directory and clusters on the disk (kernel/fat12.c, fat12_init). */
module FatLayout {
  import opened Bytes
  import opened FatEntries
  import opened FatVolume

  datatype Geometry = Geometry(
    sectorsPerCluster: nat,
    fats: nat,
    fatSectors: nat,
    fatStart: nat,
    rootCount: nat,
    rootStart: nat,
    dataStart: nat,
    totalSectors: nat)
  {
    /** total_clusters, with one sector per cluster */
    function Clusters(): nat
      requires totalSectors >= dataStart
    {
      totalSectors - dataStart
    }
  }

  /** The BIOS parameter block fields fat12_init reads, and the positions it derives from them. */
  function Parse(boot: Sector): Geometry
  {
    var fats, fatSectors, fatStart, rootCount := boot[16], LE16(boot, 22), LE16(boot, 14), LE16(boot, 17);
    var rootStart := fatStart + fats * fatSectors;
    Geometry(
      boot[13], fats, fatSectors, fatStart, rootCount, rootStart,
      rootStart + (rootCount * 32 + 511) / 512,
      if LE16(boot, 19) != 0 then LE16(boot, 19) else LE32(boot, 32))
  }

  /** The boot sector of a volume with two tables of two sectors and 224 directory entries, 360 sectors in all: the
      tables start at sector 1, the directory at 5, the clusters at 19. */
  lemma ParsesFloppy(boot: Sector)
    requires boot[13] == 1 && boot[14..17] == [1, 0, 2] && boot[17..20] == [224, 0, 0x68] && boot[20..24] == [1, 0, 2, 0]
    ensures Parse(boot) == Geometry(1, 2, 2, 1, 224, 5, 19, 360)
  {
    hide LE32;
    assert boot[14] == boot[14..17][0] && boot[15] == boot[14..17][1] && boot[16] == boot[14..17][2];
    assert boot[17] == boot[17..20][0] && boot[18] == boot[17..20][1] && boot[19] == boot[17..20][2];
    assert boot[20] == boot[20..24][0] && boot[22] == boot[20..24][2] && boot[23] == boot[20..24][3];
  }

  /** Where the short sector count is zero the long one counts. */
  lemma ParsesLongCount(boot: Sector)
    requires boot[19] == 0 && boot[20] == 0
    ensures Parse(boot).totalSectors ==
            boot[32] as int + 0x100 * boot[33] as int + 0x1_0000 * boot[34] as int + 0x100_0000 * boot[35] as int
  {
  }

  /** A volume with one sector per cluster, on a disk of n sectors, whose table the driver's 1024 bytes can hold. */
  predicate Supported(g: Geometry, n: nat)
  {
    && g.sectorsPerCluster == 1
    && 1 <= g.fats && 1 <= g.fatSectors && 1 <= g.fatStart
    && g.dataStart <= g.totalSectors <= n
    && g.Clusters() + 2 <= (if g.fatSectors == 1 then ONE_SECTOR_ENTRIES else FAT_ENTRIES)
  }

  /** The sectors of the first two table copies lie before the root directory. */
  predicate FitsBelowRoot(g: Geometry)
  {
    && g.fatStart < g.rootStart
    && (g.fatSectors > 1 ==> g.fatStart + 1 < g.rootStart)
    && (g.fats > 1 ==> g.fatStart + g.fatSectors < g.rootStart)
    && (g.fats > 1 && g.fatSectors > 1 ==> g.fatStart + g.fatSectors + 1 < g.rootStart)
  }

  /** A supported volume whose tables, directory and clusters follow one another without overlap. */
  predicate Good(g: Geometry, n: nat)
  {
    && Supported(g, n)
    && FitsBelowRoot(g)
    && g.rootStart <= g.dataStart
    && g.rootCount <= 16 * (g.dataStart - g.rootStart)
  }

  /** The positions fat12_init computes keep the areas apart. */
  lemma ParseKeepsAreasApart(boot: Sector, n: nat)
    requires Supported(Parse(boot), n)
    ensures Good(Parse(boot), n)
  {
    var g := Parse(boot);
    CopiesFit(g.fats, g.fatSectors);
    DirectorySectors(g.rootCount);
  }

  lemma CopiesFit(fats: nat, sectors: nat)
    requires fats >= 1 && sectors >= 1
    ensures fats * sectors >= sectors
    ensures fats > 1 ==> fats * sectors >= 2 * sectors
  {
    assert fats * sectors == sectors + (fats - 1) * sectors;
  }

  lemma DirectorySectors(count: nat)
    ensures count <= 16 * ((count * 32 + 511) / 512)
  {
  }

  /** The 32 bytes of slot i of a directory sector. */
  function SlotBytes(s: Sector, i: nat): Entry
    requires i < 16
  {
    s[i * 32..i * 32 + 32]
  }

  function DirOf(view: seq<Sector>, g: Geometry): (d: seq<Entry>)
    requires Good(g, |view|)
    ensures |d| == g.rootCount
    ensures forall k :: 0 <= k < |d| ==> g.rootStart + k / 16 < g.dataStart && d[k] == SlotBytes(view[g.rootStart + k / 16], k % 16)
  {
    seq(g.rootCount, k requires 0 <= k < g.rootCount => SlotBytes(view[g.rootStart + k / 16], k % 16))
  }

  function DataOf(view: seq<Sector>, g: Geometry): (d: seq<Sector>)
    requires Good(g, |view|)
    ensures |d| == g.Clusters()
  {
    view[g.dataStart..g.totalSectors]
  }

  /** The volume a driver with this table sees. */
  function VolumeOf(table: FatTable, view: seq<Sector>, g: Geometry): Volume
    requires Good(g, |view|)
  {
    Volume(Entries(table, g.Clusters() + 2), DirOf(view, g), DataOf(view, g))
  }

  /** The first copy of the table on disk holds the cached bytes. */
  predicate FirstCopy(table: FatTable, view: seq<Sector>, g: Geometry)
    requires Good(g, |view|)
  {
    && view[g.fatStart] == table[..512]
    && (g.fatSectors > 1 ==> view[g.fatStart + 1] == table[512..])
  }

  predicate SecondCopy(table: FatTable, view: seq<Sector>, g: Geometry)
    requires Good(g, |view|) && g.fats > 1
  {
    && view[g.fatStart + g.fatSectors] == table[..512]
    && (g.fatSectors > 1 ==> view[g.fatStart + g.fatSectors + 1] == table[512..])
  }

  /** Both copies hold the cached bytes. */
  predicate TableOnDisk(table: FatTable, view: seq<Sector>, g: Geometry)
    requires Good(g, |view|)
  {
    FirstCopy(table, view, g) && (g.fats > 1 ==> SecondCopy(table, view, g))
  }

  /** Byte b of the cached table is byte b of each copy on the disk. */
  lemma TableBytes(table: FatTable, view: seq<Sector>, g: Geometry, b: nat)
    requires Good(g, |view|) && b < 1024 && b < 512 * g.fatSectors
    ensures FirstCopy(table, view, g) ==> view[g.fatStart + b / 512][b % 512] == table[b]
    ensures g.fats > 1 && SecondCopy(table, view, g) ==> view[g.fatStart + g.fatSectors + b / 512][b % 512] == table[b]
  {
    assert b < 512 ==> b / 512 == 0 && table[..512][b % 512] == table[b];
    assert b >= 512 ==> b / 512 == 1 && table[512..][b % 512] == table[b];
  }

  /** The directory is one string of 32-byte entries over consecutive sectors. */
  lemma DirBytes(view: seq<Sector>, g: Geometry, k: nat, b: nat)
    requires Good(g, |view|) && k < g.rootCount && b < 32
    ensures g.rootStart + (32 * k + b) / 512 < |view|
    ensures DirOf(view, g)[k][b] == view[g.rootStart + (32 * k + b) / 512][(32 * k + b) % 512]
  {
    InSector(k / 16, k % 16, b);
    assert k == 16 * (k / 16) + k % 16;
    assert DirOf(view, g)[k] == SlotBytes(view[g.rootStart + k / 16], k % 16);
  }

  lemma InSector(s: nat, i: nat, b: nat)
    requires i < 16 && b < 32
    ensures (32 * (16 * s + i) + b) / 512 == s && (32 * (16 * s + i) + b) % 512 == 32 * i + b
  {
  }

  /** No sector in front of the directory was written: the boot sector and the copies of the table are as before. */
  ghost predicate TablesKept(view: seq<Sector>, view': seq<Sector>, g: Geometry)
  {
    |view'| == |view| && forall l :: 0 <= l < |view| && l < g.rootStart ==> view'[l] == view[l]
  }

  lemma TablesKeptTwice(a: seq<Sector>, b: seq<Sector>, c: seq<Sector>, g: Geometry)
    requires TablesKept(a, b, g) && TablesKept(b, c, g)
    ensures TablesKept(a, c, g)
  {
  }

  /** A sector before the directory belongs to neither the directory nor the data. */
  lemma TableSectorWritten(view: seq<Sector>, g: Geometry, lba: nat, s: Sector)
    requires Good(g, |view|) && lba < g.rootStart
    ensures DirOf(view[lba := s], g) == DirOf(view, g)
    ensures DataOf(view[lba := s], g) == DataOf(view, g)
  {
  }

  /** A data sector holds one cluster and nothing of the directory. */
  lemma DataSectorWritten(view: seq<Sector>, g: Geometry, c: nat, s: Sector)
    requires Good(g, |view|) && 2 <= c < g.Clusters() + 2
    ensures DirOf(view[g.dataStart + c - 2 := s], g) == DirOf(view, g)
    ensures DataOf(view[g.dataStart + c - 2 := s], g) == DataOf(view, g)[c - 2 := s]
  {
  }

  function PutSlot(s: Sector, i: nat, e: Entry): Sector
    requires i < 16
  {
    s[..i * 32] + e + s[i * 32 + 32..]
  }

  lemma PutSlotAt(s: Sector, i: nat, e: Entry, j: nat)
    requires i < 16 && j < 16
    ensures SlotBytes(PutSlot(s, i, e), j) == if j == i then e else SlotBytes(s, j)
  {
    var t := PutSlot(s, i, e);
    if j < i {
      assert j * 32 + 32 <= i * 32;
    } else if j > i {
      assert i * 32 + 32 <= j * 32;
    }
  }

  /** Rewriting one slot of a directory sector changes one entry and no cluster. */
  lemma DirSlotWritten(view: seq<Sector>, g: Geometry, k: nat, e: Entry)
    requires Good(g, |view|) && k < g.rootCount
    ensures g.rootStart + k / 16 < g.dataStart
    ensures var lba := g.rootStart + k / 16;
            var view' := view[lba := PutSlot(view[lba], k % 16, e)];
            DirOf(view', g) == DirOf(view, g)[k := e] && DataOf(view', g) == DataOf(view, g)
  {
    var lba := g.rootStart + k / 16;
    assert DirOf(view, g)[k] == SlotBytes(view[lba], k % 16);
    var view' := view[lba := PutSlot(view[lba], k % 16, e)];
    forall j | 0 <= j < g.rootCount
      ensures DirOf(view', g)[j] == DirOf(view, g)[k := e][j]
    {
      PutSlotAt(view[lba], k % 16, e, j % 16);
      assert j / 16 == k / 16 && j % 16 == k % 16 ==> j == k;
    }
  }

  /** The same for a sector number and an index in it, as the driver names a slot. */
  lemma SlotWritten(table: FatTable, view: seq<Sector>, g: Geometry, lba: nat, i: nat, e: Entry)
    requires Good(g, |view|) && i < 16 && g.rootStart <= lba && (lba - g.rootStart) * 16 + i < g.rootCount
    ensures 0 < lba < |view|
    ensures var k := (lba - g.rootStart) * 16 + i;
            var view' := view[lba := PutSlot(view[lba], i, e)];
            && view'[0] == view[0]
            && VolumeOf(table, view', g) == VolumeOf(table, view, g).(dir := DirOf(view, g)[k := e])
            && DirOf(view, g)[k] == SlotBytes(view[lba], i)
  {
    var k := (lba - g.rootStart) * 16 + i;
    assert k / 16 == lba - g.rootStart && k % 16 == i;
    DirSlotWritten(view, g, k, e);
  }

  /** The slots of the directory sector at lba, the first of which has number done. */
  lemma SectorSlots(view: seq<Sector>, g: Geometry, lba: nat, done: nat)
    requires Good(g, |view|) && done < g.rootCount && g.rootStart <= lba && (lba - g.rootStart) * 16 == done
    ensures 0 < lba < |view|
    ensures forall i :: 0 <= i < 16 && done + i < g.rootCount ==> DirOf(view, g)[done + i] == SlotBytes(view[lba], i)
  {
    forall i | 0 <= i < 16 && done + i < g.rootCount
      ensures DirOf(view, g)[done + i] == SlotBytes(view[lba], i)
    {
      assert (done + i) / 16 == lba - g.rootStart && (done + i) % 16 == i;
    }
    assert done / 16 == lba - g.rootStart;
    assert g.rootStart + done / 16 < g.dataStart;
  }

  /** Mounting again: whichever copy of the table is read back, it decodes to the same volume. */
  lemma RemountAgrees(table: FatTable, again: FatTable, view: seq<Sector>, g: Geometry)
    requires Good(g, |view|)
    requires (FirstCopy(table, view, g) && FirstCopy(again, view, g))
             || (g.fats > 1 && SecondCopy(table, view, g) && SecondCopy(again, view, g))
    ensures VolumeOf(again, view, g) == VolumeOf(table, view, g)
  {
    if g.fatSectors > 1 {
      assert table == table[..512] + table[512..] && again == again[..512] + again[512..];
    } else {
      EntriesFromPrefix(table, again, g.Clusters() + 2, 512);
    }
  }

  /** Mounting where only sectors behind the tables were written: the old table over the new directory and data. */
  lemma RemountWithOldTable(table: FatTable, again: FatTable, view: seq<Sector>, view': seq<Sector>, g: Geometry)
    requires Good(g, |view|) && TablesKept(view, view', g)
    requires FirstCopy(table, view, g) && FirstCopy(again, view', g)
    ensures VolumeOf(again, view', g) == VolumeOf(table, view', g)
  {
    RemountAgrees(table, again, view', g);
  }
}
