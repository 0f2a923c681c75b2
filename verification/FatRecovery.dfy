/** What a mount finds between two calls of the driver: the drive may lag behind the cached table, but never by a file
    (kernel/fat12.c:42-116, 312-406). */
module FatRecovery {
  import opened Bytes
  import opened FatNames
  import opened FatEntries
  import opened FatVolume
  import opened FatTheorems
  import opened FatRuns
  import opened FatListing
  import opened FatLayout
  import opened Disk
  import opened Fat12

  // ---------------------------------------------------------------- a table that lags behind

  /** u is v with an older table: the same directory and data, and the same chain for every file. Clusters that v has
      freed may still be marked in u. */
  ghost predicate Lags(u: Volume, v: Volume)
  {
    && WellFormed(u) && WellFormed(v)
    && u.dir == v.dir && u.data == v.data && |u.fat| == |v.fat|
    && forall i: nat :: Live(v.dir, i) ==> Chain(u, i) == Chain(v, i)
  }

  lemma LagsSlot(u: Volume, v: Volume, i: nat)
    requires Lags(u, v) && i < |v.dir|
    ensures FatListing.SlotOf(u, i) == FatListing.SlotOf(v, i)
  {
    if Live(v.dir, i) {
      SameFile(u, v, i);
    }
  }

  /** Every slot reads the same. */
  lemma LagsReads(u: Volume, v: Volume)
    requires Lags(u, v)
    ensures ListingOf(u).slots == ListingOf(v).slots
  {
    hide FatListing.SlotOf;
    forall i | 0 <= i < |v.dir| ensures FatListing.SlotOf(u, i) == FatListing.SlotOf(v, i) {
      LagsSlot(u, v, i);
    }
  }

  /** A write that fails leaves the older table further behind, by the clusters of the file that is gone. */
  lemma FailureLags(u: Volume, v: Volume, path: Name, bytes: seq<u8>, m: Volume)
    requires Lags(u, v) && |bytes| < 0x1_0000_0000
    requires FatVolume.Write(v, path, bytes).outcome != Written
    requires var w := FatVolume.Write(v, path, bytes).volume; m.fat == u.fat && m.dir == w.dir && m.data == w.data
    ensures Lags(m, FatVolume.Write(v, path, bytes).volume) && LeftOnDisk(u, NameOf(path), m)
  {
    var name := NameOf(path);
    var e, w := EraseNamed(v, name), FatVolume.Write(v, path, bytes).volume;
    EraseNamedConserves(v, name);
    FailedWriteParts(v, path, bytes);
    SameErasure(u, v, name);
    FailedWriteOnDisk(u, name, m);
    WriteKeepsWellFormed(v, path, bytes);
    forall j: nat | Live(w.dir, j) ensures Chain(m, j) == Chain(w, j) {
      FailureKeepsChain(v, path, bytes, j);
      LeftChain(u, name, m, j);
    }
  }

  /** What erasing does to the directory does not depend on the table. */
  lemma SameErasure(u: Volume, v: Volume, name: seq<u8>)
    requires Sane(u) && Sane(v) && u.dir == v.dir
    ensures EraseNamed(u, name).dir == EraseNamed(v, name).dir
  {
    FindFromFirst(v.dir, name, 0);
  }

  lemma FailureKeepsChain(v: Volume, path: Name, bytes: seq<u8>, j: nat)
    requires WellFormed(v) && |bytes| < 0x1_0000_0000 && FatVolume.Write(v, path, bytes).outcome != Written
    ensures WellFormed(FatVolume.Write(v, path, bytes).volume)
    ensures var w := FatVolume.Write(v, path, bytes).volume;
            Live(w.dir, j) ==> Live(v.dir, j) && Chain(w, j) == Chain(v, j)
  {
    var name := NameOf(path);
    var e, w := EraseNamed(v, name), FatVolume.Write(v, path, bytes).volume;
    FailedWriteParts(v, path, bytes);
    SameTableWellFormed(e, w);
    FindFromFirst(v.dir, name, 0);
    if Live(w.dir, j) && Find(v.dir, name).Some? {
      var i := Find(v.dir, name).value;
      EraseLive(v.dir, i, j);
      EraseKeepsChain(v, i, j);
    }
  }

  lemma LeftChain(u: Volume, name: seq<u8>, m: Volume, j: nat)
    requires WellFormed(u) && LeftOnDisk(u, name, m) && Live(m.dir, j)
    ensures WellFormed(m) && Live(u.dir, j) && Chain(m, j) == Chain(u, j)
  {
    FindFromFirst(u.dir, name, 0);
    if Find(u.dir, name).None? {
      SameTableWellFormed(u, m);
    } else {
      LeftWellFormed(u, name, m);
    }
  }

  // ---------------------------------------------------------------- the drive under a mounted driver

  /** The table that a mount reads. */
  function DriveTable(view: seq<Sector>, g: Geometry): FatTable
    requires Good(g, |view|)
  {
    view[g.fatStart] + if g.fatSectors > 1 then view[g.fatStart + 1] else Zeros(512)
  }

  lemma DriveTableIs(view: seq<Sector>, g: Geometry)
    requires Good(g, |view|)
    ensures FirstCopy(DriveTable(view, g), view, g)
  {
  }

  lemma DriveTableKept(view: seq<Sector>, view': seq<Sector>, g: Geometry)
    requires Good(g, |view|) && TablesKept(view, view', g)
    ensures Good(g, |view'|) && DriveTable(view', g) == DriveTable(view, g)
  {
  }

  /** The volume that a mount would see now. */
  ghost function OnDrive(d: Driver): Volume
    requires d.Mounted()
    reads d, d.fatData, d.disk, d.disk.slots, d.disk.ata
  {
    VolumeOf(DriveTable(d.disk.View(), d.geo), d.disk.View(), d.geo)
  }

  /** Nothing is owed to the drive but the table, and that lags at most. */
  ghost predicate Recoverable(d: Driver)
    reads d, d.fatData, d.disk, d.disk.slots, d.disk.ata
  {
    d.Mounted() && d.FromBoot() && d.disk.AllClean() && Lags(OnDrive(d), d.Abs())
  }

  lemma FlushedIsOnDrive(d: Driver)
    requires d.Mounted() && FirstCopy(d.Table(), d.disk.View(), d.geo)
    ensures OnDrive(d) == d.Abs()
  {
    hide Cache.View, Cache.Valid, Cache.Healthy, Good, Entries, DirOf, DataOf;
    DriveTableIs(d.disk.View(), d.geo);
    RemountAgrees(d.Table(), DriveTable(d.disk.View(), d.geo), d.disk.View(), d.geo);
  }

  lemma NoLag(v: Volume)
    requires WellFormed(v)
    ensures Lags(v, v)
  {
  }

  /** A driver that has just mounted a well-formed volume from a clean cache is recoverable, and so is one whose last
      call flushed. */
  lemma CleanIsRecoverable(d: Driver)
    requires d.Mounted() && d.FromBoot() && !d.fatDirty && d.disk.AllClean() && WellFormed(d.Abs())
    ensures Recoverable(d)
  {
    hide Lags, WellFormed, VolumeOf, Cache.AllClean, Cache.View, Good;
    FlushedIsOnDrive(d);
    NoLag(d.Abs());
  }

  /** Operations whose size the driver's rounding can take. */
  predicate Rounds(op: Op) { op.WriteOp? ==> |op.bytes| + 511 < 0x1_0000_0000 }

  /** One call: the driver does what Step says and stays recoverable, whether the call succeeds or fails. */
  method Apply(d: Driver, op: Op)
    requires Recoverable(d) && Rounds(op)
    modifies d`fatDirty, d.fatData, d.disk.slots, d.disk.ata
    ensures Recoverable(d) && d.Abs() == Step(old(d.Abs()), op)
  {
    hide WellFormed, Cache.Valid, Cache.Healthy, Cache.View, Cache.AllClean, Good, TablesKept, TableOnDisk, VolumeOf,
         DriveTable, FirstCopy;
    ghost var u, v, view := OnDrive(d), d.Abs(), d.disk.View();
    StepKeepsWellFormed(v, op);
    match op {
      case WriteOp(path, bytes) =>
        var n := d.Write(path, bytes);
        if !d.fatDirty {
          CleanIsRecoverable(d);
        } else {
          AfterFailure(d, u, v, path, bytes, view);
        }
      case DeleteOp(path) =>
        var ok := d.Delete(path);
        if ok {
          CleanIsRecoverable(d);
        } else {
          NothingDeleted(d, u, v, path, view);
        }
    }
  }

  lemma AfterFailure(d: Driver, u: Volume, v: Volume, path: Name, bytes: seq<u8>, view: seq<Sector>)
    requires d.Mounted() && d.FromBoot() && d.disk.AllClean() && Good(d.geo, |view|)
    requires Lags(u, v) && |bytes| < 0x1_0000_0000 && u == VolumeOf(DriveTable(view, d.geo), view, d.geo)
    requires FatVolume.Write(v, path, bytes).outcome != Written && d.Abs() == FatVolume.Write(v, path, bytes).volume
    requires TablesKept(view, d.disk.View(), d.geo)
    ensures Recoverable(d) && LeftOnDisk(u, NameOf(path), OnDrive(d))
  {
    DriveTableKept(view, d.disk.View(), d.geo);
    FailureLags(u, v, path, bytes, OnDrive(d));
  }

  lemma NothingDeleted(d: Driver, u: Volume, v: Volume, path: Name, view: seq<Sector>)
    requires d.Mounted() && d.FromBoot() && d.disk.AllClean() && Good(d.geo, |view|)
    requires Lags(u, v) && u == VolumeOf(DriveTable(view, d.geo), view, d.geo)
    requires Find(v.dir, NameOf(path)).None? && d.Abs() == FatVolume.Delete(v, path)
    requires TablesKept(view, d.disk.View(), d.geo)
    ensures Recoverable(d)
  {
    DriveTableKept(view, d.disk.View(), d.geo);
    assert d.Abs() == v;
    assert OnDrive(d) == u;
  }

  // ---------------------------------------------------------------- runs and reboots

  /** A run of calls through the driver. */
  method ApplyAll(d: Driver, ops: seq<Op>)
    requires Recoverable(d) && forall k :: 0 <= k < |ops| ==> Rounds(ops[k])
    modifies d`fatDirty, d.fatData, d.disk.slots, d.disk.ata
    ensures Recoverable(d) && WellFormed(d.Abs())
    ensures WellFormed(old(d.Abs())) && ListingOf(d.Abs()) == DoAll(ListingOf(old(d.Abs())), ops)
  {
    assert WellFormed(d.Abs());
    hide Recoverable, ListingOf, Do;
    ghost var goal := DoAll(ListingOf(d.Abs()), ops);
    var i := 0;
    assert ops[0..] == ops;
    while i < |ops|
      invariant i <= |ops| && RecoverableStands(d)
      invariant DoAll(ListingOf(d.Abs()), ops[i..]) == goal
    {
      ghost var v := d.Abs();
      StepRefinesList(v, ops[i]);
      assert ops[i..][0] == ops[i] && ops[i..][1..] == ops[i + 1..];
      Apply(d, ops[i]);
      RecoverableParts(d);
      i := i + 1;
    }
    assert ops[i..] == [];
  }

  ghost predicate RecoverableStands(d: Driver)
    reads d, d.fatData, d.disk, d.disk.slots, d.disk.ata
  {
    Recoverable(d) && d.Mounted() && WellFormed(d.Abs())
  }

  lemma RecoverableParts(d: Driver)
    requires Recoverable(d)
    ensures RecoverableStands(d)
  {
  }

  /** Any run of writes and deletes through the driver, of any names and with any failures, and then a reboot: the volume
      mounted is well formed, and its directory holds slot by slot what the run makes of the list at its start, so every
      name reads as the list says. Only free clusters may be missing. */
  method RunThenReboot(d: Driver, ops: seq<Op>) returns (again: Driver)
    requires Recoverable(d) && forall k :: 0 <= k < |ops| ==> Rounds(ops[k])
    modifies d`fatDirty, d.fatData, d.disk.slots, d.disk.ata
    ensures fresh(again) && Recoverable(again) && WellFormed(again.Abs()) && WellFormed(old(d.Abs()))
    ensures var l := DoAll(ListingOf(old(d.Abs())), ops);
            && ListingOf(again.Abs()).slots == l.slots
            && forall q :: Contents(again.Abs(), q) == ReadName(l, q)
  {
    assert WellFormed(d.Abs());
    ApplyAll(d, ops);
    ghost var u, v := OnDrive(d), d.Abs();
    assert Lags(u, v);
    hide Recoverable, Driver.Mounted, Driver.Attached, VolumeOf, OnDrive, ListingOf, Contents, ReadName, DoAll;
    LagsAll(u, v);
    again := BootAgain(d);
  }

  lemma LagsAll(u: Volume, v: Volume)
    requires Lags(u, v)
    ensures WellFormed(u) && ListingOf(u).slots == ListingOf(v).slots
    ensures forall q :: Contents(u, q) == ReadName(ListingOf(v), q)
  {
    LagsReads(u, v);
    forall q ensures Contents(u, q) == ReadName(ListingOf(v), q) {
      ReadRefines(u, q);
    }
  }

  /** A reboot: a fresh driver over the same drive sees what was on it. */
  method BootAgain(d: Driver) returns (again: Driver)
    requires Recoverable(d)
    modifies d.disk.ata
    ensures fresh(again) && Recoverable(again) && again.Abs() == old(OnDrive(d))
  {
    ghost var u := OnDrive(d);
    assert WellFormed(u);
    hide Lags, WellFormed, Entries, DirOf, DataOf;
    d.disk.CleanViewIsDisk();
    var ok;
    again, ok := Driver.Boot(d.disk.ata);
    RemountAgrees(again.Table(), DriveTable(again.disk.View(), again.geo), again.disk.View(), again.geo);
    assert again.Abs() == u;
    CleanIsRecoverable(again);
  }

  /** What a write that fails leaves behind on a driver that has not been rebooted: mounted again, the volume is well
      formed, the file that was to be replaced has lost its entry, and clusters have leaked exactly if it had any. */
  method FailedWriteRemount(d: Driver, path: Name, bytes: seq<u8>) returns (n: nat)
    requires Recoverable(d) && |bytes| + 511 < 0x1_0000_0000
    modifies d, d.fatData, d.disk.slots, d.disk.ata
    ensures var u := old(OnDrive(d));
            WellFormed(u) &&
            (FatVolume.Write(old(d.Abs()), path, bytes).outcome != Written ==>
              && n == 0 && d.Mounted() && !d.fatDirty && WellFormed(d.Abs())
              && LeftOnDisk(u, NameOf(path), d.Abs())
              && (SameOrphans(u, d.Abs()) <==> OldLength(u, NameOf(path)) == 0))
  {
    ghost var u, v, view := OnDrive(d), d.Abs(), d.disk.View();
    n := d.Write(path, bytes);
    if n == 0 {
      ghost var failed := FatVolume.Write(v, path, bytes).outcome != Written;
      if failed {
        AfterFailure(d, u, v, path, bytes, view);
        FailedWriteOnDisk(u, NameOf(path), OnDrive(d));
      }
      ghost var m := OnDrive(d);
      d.Remount();
      FlushedIsOnDrive(d);
      assert d.Abs() == m;
    }
  }
}
