/** The sector cache over the ATA disk (kernel/disk.c over kernel/ata.c). */
module Disk {
  import opened Bytes

  const CACHE_SLOTS := 16

  /** Sectors the 28-bit ATA command can address. */
  const LBA_LIMIT := 0x1000_0000

  /** The drive: sectors, and for each command issued whether it fails and what a failed transfer leaves behind. */
  class Ata {
    var sectors: seq<Sector>
    var issued: nat
    const fails: nat -> bool
    const residue: nat -> Sector

    constructor (sectors: seq<Sector>, fails: nat -> bool, residue: nat -> Sector)
      ensures this.sectors == sectors && issued == 0 && this.fails == fails && this.residue == residue
    {
      this.sectors, issued, this.fails, this.residue := sectors, 0, fails, residue;
    }

    /** The next command on lba succeeds. */
    predicate Ready(lba: nat)
      reads this
    {
      lba < |sectors| && !fails(issued)
    }

    /** No command from now on fails on a sector that exists. */
    ghost predicate Reliable()
      reads this
    {
      forall n: nat :: n >= issued ==> !fails(n)
    }

    /** ata_read of one sector; on failure the buffer holds rubbish. */
    method Read(lba: nat) returns (ok: bool, data: Sector)
      modifies this`issued
      ensures ok == old(Ready(lba))
      ensures data == if ok then sectors[lba] else residue(old(issued))
      ensures issued == old(issued) + 1
    {
      ok := lba < |sectors| && !fails(issued);
      data := if ok then sectors[lba] else residue(issued);
      issued := issued + 1;
    }

    /** ata_write of one sector; on failure the sector may be left with anything. */
    method Write(lba: nat, data: Sector) returns (ok: bool)
      modifies this
      ensures ok == old(Ready(lba))
      ensures lba < |old(sectors)| ==> sectors == old(sectors)[lba := if ok then data else residue(old(issued))]
      ensures lba >= |old(sectors)| ==> sectors == old(sectors)
      ensures issued == old(issued) + 1
    {
      ok := lba < |sectors| && !fails(issued);
      if lba < |sectors| {
        sectors := sectors[lba := if ok then data else residue(issued)];
      }
      issued := issued + 1;
    }
  }

  datatype Slot = Slot(lba: nat, data: Sector, valid: bool, dirty: bool)

  // ---------------------------------------------------------------- the view through the cache

  predicate Holds(slots: seq<Slot>, i: int, lba: nat)
  {
    0 <= i < |slots| && slots[i].valid && slots[i].lba == lba
  }

  ghost predicate Cached(slots: seq<Slot>, lba: nat)
  {
    exists i :: Holds(slots, i, lba)
  }

  /** The slots with slot i dropped. */
  function Without(slots: seq<Slot>, i: nat): seq<Slot>
    requires i < |slots|
  {
    slots[i := slots[i].(valid := false)]
  }

  /** Each sector occupies at most one valid slot. */
  predicate OneSlotEach(slots: seq<Slot>)
  {
    forall i, j :: 0 <= i < |slots| && 0 <= j < |slots| && slots[i].valid && slots[j].valid && slots[i].lba == slots[j].lba ==> i == j
  }

  /** A clean slot agrees with the disk. */
  predicate CleanAgrees(slots: seq<Slot>, sectors: seq<Sector>)
  {
    forall i :: 0 <= i < |slots| && slots[i].valid && !slots[i].dirty && slots[i].lba < |sectors| ==>
                  slots[i].data == sectors[slots[i].lba]
  }

  /** The sector a reader sees: the cached copy if there is one, else the disk's. */
  ghost function Seen(slots: seq<Slot>, sectors: seq<Sector>, lba: nat): Sector
    requires lba < |sectors|
  {
    if Cached(slots, lba) then
      var i :| Holds(slots, i, lba);
      slots[i].data
    else sectors[lba]
  }

  ghost function ViewOf(slots: seq<Slot>, sectors: seq<Sector>): (v: seq<Sector>)
    ensures |v| == |sectors|
    ensures forall l :: 0 <= l < |v| ==> v[l] == Seen(slots, sectors, l)
  {
    seq(|sectors|, l requires 0 <= l < |sectors| => Seen(slots, sectors, l))
  }

  lemma SeenSlot(slots: seq<Slot>, sectors: seq<Sector>, i: nat)
    requires OneSlotEach(slots) && i < |slots| && slots[i].valid && slots[i].lba < |sectors|
    ensures Seen(slots, sectors, slots[i].lba) == slots[i].data
  {
    assert Holds(slots, i, slots[i].lba);
    var j :| Holds(slots, j, slots[i].lba) && Seen(slots, sectors, slots[i].lba) == slots[j].data;
    assert Holds(slots, j, slots[i].lba);
    assert 0 <= j < |slots|;
    assert i == j;
  }

  lemma StillUncached(slots: seq<Slot>, i: nat, s: Slot, lba: nat)
    requires !Cached(slots, lba) && i < |slots| && !s.valid
    ensures !Cached(slots[i := s], lba)
  {
    var t := slots[i := s];
    forall j
      ensures !Holds(t, j, lba)
    {
      assert !Holds(slots, j, lba);
    }
  }

  /** Replacing an invalid or clean slot by a clean copy of an uncached sector, or by an invalid slot, is
      invisible. */
  lemma ReplaceInvisible(slots: seq<Slot>, sectors: seq<Sector>, i: nat, s: Slot)
    requires OneSlotEach(slots) && CleanAgrees(slots, sectors) && i < |slots|
    requires slots[i].valid ==> !slots[i].dirty || slots[i].lba >= |sectors|
    requires s.valid ==> !s.dirty && !Cached(slots, s.lba) && (s.lba < |sectors| ==> s.data == sectors[s.lba])
    ensures OneSlotEach(slots[i := s]) && CleanAgrees(slots[i := s], sectors)
    ensures ViewOf(slots[i := s], sectors) == ViewOf(slots, sectors)
  {
    var t := slots[i := s];
    assert forall j :: 0 <= j < |slots| && slots[j].valid ==> Holds(slots, j, slots[j].lba);
    forall l | 0 <= l < |sectors|
      ensures Seen(t, sectors, l) == Seen(slots, sectors, l)
    {
      if k :| 0 <= k < |t| && Holds(t, k, l) {
        SeenSlot(t, sectors, k);
        if k != i {
          SeenSlot(slots, sectors, k);
        }
      } else {
        if k :| 0 <= k < |slots| && Holds(slots, k, l) {
          SeenSlot(slots, sectors, k);
          assert k != i ==> Holds(t, k, l);
        }
      }
    }
  }

  /** Writing a sector through: the slot's data and the disk's copy move together. */
  lemma WriteVisible(slots: seq<Slot>, sectors: seq<Sector>, sectors': seq<Sector>, i: nat, s: Slot)
    requires OneSlotEach(slots) && CleanAgrees(slots, sectors) && i < |slots| && s.valid
    requires forall j :: Holds(slots, j, s.lba) ==> j == i
    requires slots[i].valid ==> slots[i].lba == s.lba || !slots[i].dirty || slots[i].lba >= |sectors|
    requires |sectors'| == |sectors|
    requires forall l :: 0 <= l < |sectors| && l != s.lba ==> sectors'[l] == sectors[l]
    requires !s.dirty && s.lba < |sectors| ==> s.data == sectors'[s.lba]
    ensures OneSlotEach(slots[i := s]) && CleanAgrees(slots[i := s], sectors')
    ensures s.lba < |sectors| ==> ViewOf(slots[i := s], sectors') == ViewOf(slots, sectors)[s.lba := s.data]
    ensures s.lba >= |sectors| ==> ViewOf(slots[i := s], sectors') == ViewOf(slots, sectors)
  {
    var t := slots[i := s];
    assert forall j :: 0 <= j < |slots| && slots[j].valid ==> Holds(slots, j, slots[j].lba);
    assert OneSlotEach(t);
    forall l | 0 <= l < |sectors|
      ensures Seen(t, sectors', l) == if l == s.lba then s.data else Seen(slots, sectors, l)
    {
      if k :| 0 <= k < |t| && Holds(t, k, l) {
        SeenSlot(t, sectors', k);
        if k != i {
          SeenSlot(slots, sectors, k);
        }
      } else {
        assert l == s.lba ==> Holds(t, i, l);
        if k :| 0 <= k < |slots| && Holds(slots, k, l) {
          SeenSlot(slots, sectors, k);
          assert k != i ==> Holds(t, k, l);
        }
      }
    }
  }

  /** The static cache of kernel/disk.c and its flag for a drive that answered at start-up. */
  class Cache {
    const slots: array<Slot>
    const ata: Ata
    var present: bool

    ghost predicate Valid()
      reads this, slots, ata
    {
      && slots.Length == CACHE_SLOTS
      && OneSlotEach(slots[..])
      && CleanAgrees(slots[..], ata.sectors)
    }

    /** What the rest of the kernel reads: one sector for every sector of the drive. */
    ghost function View(): (v: seq<Sector>)
      reads this, slots, ata
      ensures |v| == |ata.sectors|
    {
      ViewOf(slots[..], ata.sectors)
    }

    /** No write is owed to the drive. */
    ghost predicate AllClean()
      reads this, slots
    {
      forall i :: 0 <= i < slots.Length && slots[i].valid ==> !slots[i].dirty
    }

    /** disk_init with the answer of ata_init. */
    constructor (ata: Ata, present: bool)
      ensures Valid() && fresh(slots) && slots.Length == 16 && this.ata == ata && this.present == present
      ensures AllClean() && View() == ata.sectors
    {
      this.ata := ata;
      this.present := present;
      slots := new Slot[CACHE_SLOTS](_ => Slot(0, Zeros(512), false, false));
    }

    /** A clean cache shows exactly the drive. */
    lemma CleanViewIsDisk()
      requires Valid() && AllClean()
      ensures View() == ata.sectors
    {
      forall l | 0 <= l < |ata.sectors|
        ensures Seen(slots[..], ata.sectors, l) == ata.sectors[l]
      {
        if i :| 0 <= i < slots.Length && Holds(slots[..], i, l) {
          SeenSlot(slots[..], ata.sectors, i);
        }
      }
    }

    /** cache_find: the slot that holds lba, or -1. */
    method Find(lba: nat) returns (i: int)
      requires Valid()
      ensures i == -1 ==> !Cached(slots[..], lba)
      ensures i != -1 ==> Holds(slots[..], i, lba)
    {
      i := 0;
      while i < CACHE_SLOTS
        invariant 0 <= i <= CACHE_SLOTS
        invariant forall j :: 0 <= j < i ==> !Holds(slots[..], j, lba)
      {
        if slots[i].valid && slots[i].lba == lba {
          return;
        }
        i := i + 1;
      }
      i := -1;
    }

    /** The write-back that evicting for an uncached sector would issue now would be lost. */
    predicate EvictionLoses()
      reads this, slots, ata
      requires slots.Length == CACHE_SLOTS
    {
      && (forall i :: 0 <= i < CACHE_SLOTS ==> slots[i].valid)
      && slots[0].dirty && slots[0].lba < |ata.sectors|
      && !(present && ata.Ready(slots[0].lba))
    }

    /** cache_evict: frees a slot for lba, the first invalid one or else slot 0. It has not been filled yet, so the
        other slots stand for the view. */
    method Evict(lba: nat) returns (i: nat)
      requires Valid() && !Cached(slots[..], lba)
      modifies this.slots, ata
      ensures i < CACHE_SLOTS == slots.Length
      ensures slots[i].valid && slots[i].lba == lba && !slots[i].dirty
      ensures OneSlotEach(Without(slots[..], i))
      ensures !Cached(Without(slots[..], i), lba)
      ensures CleanAgrees(Without(slots[..], i), ata.sectors)
      ensures |ata.sectors| == |old(ata.sectors)|
      ensures !old(EvictionLoses()) ==> ViewOf(Without(slots[..], i), ata.sectors) == old(View())
      ensures old(EvictionLoses()) ==>
                forall l :: 0 <= l < |ata.sectors| && l != old(slots[0].lba) ==>
                              ViewOf(Without(slots[..], i), ata.sectors)[l] == old(View())[l]
      ensures old(ata.issued) <= ata.issued
      ensures forall k :: 0 <= k < slots.Length && k != i ==> slots[k] == old(slots[k])
      ensures old(AllClean()) ==> ata.sectors == old(ata.sectors)
    {
      ghost var before := slots[..];
      ghost var disk := ata.sectors;
      i := 0;
      while i < CACHE_SLOTS
        invariant 0 <= i <= CACHE_SLOTS
        invariant forall k :: 0 <= k < i ==> slots[k].valid
      {
        if !slots[i].valid {
          slots[i] := slots[i].(lba := lba, valid := true, dirty := false);
          ReplaceInvisible(before, disk, i, slots[i].(valid := false));
          StillUncached(before, i, slots[i].(valid := false), lba);
          assert Without(slots[..], i) == before[i := slots[i].(valid := false)];
          return;
        }
        i := i + 1;
      }
      i := 0;
      var s := slots[0];
      if s.dirty && present {
        var ok := ata.Write(s.lba, s.data);
      }
      slots[0] := s.(lba := lba, valid := true, dirty := false);
      WrittenBack(before, disk, ata.sectors, slots[0].(valid := false));
      StillUncached(before, 0, slots[0].(valid := false), lba);
      assert Without(slots[..], 0) == before[0 := slots[0].(valid := false)];
    }

    /** The drive answers, will not fail again, and owes nothing outside its sectors. */
    ghost predicate Healthy()
      reads this, slots, ata
    {
      && present && ata.Reliable()
      && forall i :: 0 <= i < slots.Length && slots[i].valid && slots[i].dirty ==> slots[i].lba < |ata.sectors|
    }

    /** lba is not cached, so a slot has to be evicted, and what that slot owes the drive would be lost. */
    ghost predicate MissLoses(lba: nat)
      reads this, slots, ata
      requires slots.Length == CACHE_SLOTS
    {
      !Cached(slots[..], lba) && EvictionLoses()
    }

    /** disk_read_sector. A hit, a miss, an eviction or a failed read never changes what is seen anywhere, unless a
        write-back is lost. */
    method ReadSector(lba: nat, buf: Sector) returns (ok: bool, out: Sector)
      requires Valid() && lba < LBA_LIMIT
      modifies slots, ata
      ensures Valid() && |ata.sectors| == |old(ata.sectors)|
      ensures ok && lba < |ata.sectors| ==> out == View()[lba]
      ensures !ok ==> out == buf
      ensures !old(MissLoses(lba)) ==> View() == old(View())
      ensures forall l :: 0 <= l < |ata.sectors| && l != old(slots[0].lba) ==> View()[l] == old(View())[l]
      ensures old(Healthy()) ==> Healthy() && View() == old(View()) && (lba < |ata.sectors| ==> ok)
      ensures old(AllClean()) ==> AllClean() && ata.sectors == old(ata.sectors)
    {
      hide ViewOf, Seen, OneSlotEach, CleanAgrees;
      var i := Find(lba);
      if i != -1 {
        if lba < |ata.sectors| {
          SeenSlot(slots[..], ata.sectors, i);
        }
        return true, slots[i].data;
      }
      if !present {
        return false, buf;
      }
      i := Evict(lba);
      ghost var before := Without(slots[..], i);
      var got, data := ata.Read(lba);
      slots[i] := slots[i].(data := data, valid := got);
      ReplaceInvisible(before, ata.sectors, i, slots[i]);
      assert slots[..] == before[i := slots[i]];
      if !got {
        return false, buf;
      }
      SeenSlot(slots[..], ata.sectors, i);
      return true, data;
    }

    /** The slot a write goes to: the sector's own, or else an evicted one. Apart from that slot, base is the cache
        as it stands, and it shows what was seen before. */
    method Claim(lba: nat) returns (i: nat, ghost base: seq<Slot>)
      requires Valid() && lba < LBA_LIMIT
      modifies slots, ata
      ensures i < slots.Length == CACHE_SLOTS == |base|
      ensures slots[i].valid && slots[i].lba == lba && base[i].lba == lba
      ensures forall k :: 0 <= k < CACHE_SLOTS && k != i ==> slots[k] == base[k]
      ensures OneSlotEach(base) && CleanAgrees(base, ata.sectors)
      ensures forall j :: Holds(base, j, lba) ==> j == i
      ensures |ata.sectors| == |old(ata.sectors)| && old(ata.issued) <= ata.issued
      ensures !old(MissLoses(lba)) ==> ViewOf(base, ata.sectors) == old(View())
      ensures forall l :: 0 <= l < |ata.sectors| && l != old(slots[0].lba) ==> ViewOf(base, ata.sectors)[l] == old(View())[l]
      ensures forall k :: 0 <= k < CACHE_SLOTS && k != i ==> slots[k] == old(slots[k])
      ensures old(AllClean()) ==> ata.sectors == old(ata.sectors)
    {
      var f := Find(lba);
      base := slots[..];
      if f == -1 {
        i := Evict(lba);
        base := Without(slots[..], i);
      } else {
        i := f;
      }
    }

    /** disk_write_sector. The view changes at lba alone, even when the drive refuses the write: the slot then stays
        dirty. */
    method WriteSector(lba: nat, buf: Sector) returns (ok: bool)
      requires Valid() && lba < LBA_LIMIT
      modifies slots, ata
      ensures Valid() && |ata.sectors| == |old(ata.sectors)|
      ensures lba < |ata.sectors| ==> View()[lba] == buf
      ensures !old(MissLoses(lba)) && lba < |ata.sectors| ==> View() == old(View())[lba := buf]
      ensures !old(MissLoses(lba)) && lba >= |ata.sectors| ==> View() == old(View())
      ensures forall l :: 0 <= l < |ata.sectors| && l != lba && l != old(slots[0].lba) ==> View()[l] == old(View())[l]
      ensures old(Healthy()) && lba < |ata.sectors| ==> ok && Healthy()
      ensures ok && old(AllClean()) ==> AllClean()
      ensures ok ==> lba < |ata.sectors|
    {
      hide ViewOf, Seen, OneSlotEach, CleanAgrees, Cached;
      var i, base := Claim(lba);
      ghost var disk := ata.sectors;
      slots[i] := slots[i].(data := buf, dirty := true);
      ok := false;
      if present {
        ok := ata.Write(lba, slots[i].data);
        if ok {
          slots[i] := slots[i].(dirty := false);
        }
      }
      WriteVisible(base, disk, ata.sectors, i, slots[i]);
      assert slots[..] == base[i := slots[i]];
    }

    /** The state of disk_cache_flush before slot n: the slots behind it as they were, those in front of it clean, and of
        the sectors owed by none of the rest only the lost ones differ from the view. */
    ghost predicate FlushedTo(before: seq<Slot>, disk: seq<Sector>, first: nat, n: nat, lost: set<nat>)
      reads slots, ata
    {
      && |before| == CACHE_SLOTS == slots.Length && n <= CACHE_SLOTS && |ata.sectors| == |disk|
      && (forall k :: 0 <= k < CACHE_SLOTS ==> slots[k] == if k < n then Cleaned(before[k]) else before[k])
      && ata.issued == first + Owing(before, n)
      && lost == LostTo(before, ata.fails, first, |disk|, n)
      && (forall l :: 0 <= l < |disk| && l !in lost && !OwedFrom(before, n, l) ==> ata.sectors[l] == Seen(before, disk, l))
    }

    /** disk_cache_flush. Cached sectors stay cached, so nothing seen changes. The sectors whose write-back the drive
        refuses are lost to it; it then holds everything else that is seen, and the cache is sound again exactly if
        the refused sectors happen to hold what is seen as well. */
    method Flush() returns (ghost lost: set<nat>)
      requires Valid()
      modifies slots, ata
      ensures |ata.sectors| == |old(ata.sectors)| && View() == old(View())
      ensures lost == if present then LostTo(old(slots[..]), ata.fails, old(ata.issued), |ata.sectors|, CACHE_SLOTS) else {}
      ensures !present ==> slots[..] == old(slots[..]) && ata.sectors == old(ata.sectors) && Valid()
      ensures present ==> AllClean() && slots.Length == CACHE_SLOTS
      ensures present ==> forall l :: 0 <= l < |ata.sectors| && l !in lost ==> ata.sectors[l] == View()[l]
      ensures present ==> (Valid() <==> ata.sectors == View())
      ensures present && lost == {} ==> Valid() && ata.sectors == View()
      ensures old(AllClean()) || old(Healthy()) ==> lost == {}
      ensures old(Healthy()) ==> Healthy()
    {
      hide ViewOf, Seen, OneSlotEach, CleanAgrees, Cached, LostTo, Owing;
      lost := {};
      if !present {
        return;
      }
      ghost var before, disk, first := slots[..], ata.sectors, ata.issued;
      var i := 0;
      FlushStarts(before, disk, ata.fails, first);
      while i < CACHE_SLOTS
        invariant i <= CACHE_SLOTS && FlushedTo(before, disk, first, i, lost)
      {
        lost := FlushSlot(i, before, disk, first, lost);
        i := i + 1;
      }
      LostCached(before, ata.fails, first, |disk|);
      FlushShows(before, disk, slots[..], ata.sectors, lost);
      CleanIffShown();
      NothingLost(before, ata.fails, first, |disk|, CACHE_SLOTS);
    }

    /** One slot of the flush. */
    method FlushSlot(i: nat, ghost before: seq<Slot>, ghost disk: seq<Sector>, ghost first: nat, ghost lost: set<nat>)
      returns (ghost lost': set<nat>)
      requires i < CACHE_SLOTS && OneSlotEach(before) && FlushedTo(before, disk, first, i, lost)
      modifies slots, ata
      ensures FlushedTo(before, disk, first, i + 1, lost')
    {
      lost' := LostTo(before, ata.fails, first, |disk|, i + 1);
      if slots[i].valid && slots[i].dirty {
        if slots[i].lba < |disk| {
          SeenSlot(before, disk, i);
        }
        var ok := ata.Write(slots[i].lba, slots[i].data);
        slots[i] := slots[i].(dirty := false);
      }
    }

    /** With nothing owed the cache is sound exactly when the drive shows through it. */
    lemma CleanIffShown()
      requires slots.Length == CACHE_SLOTS && OneSlotEach(slots[..]) && AllClean()
      ensures Valid() <==> ata.sectors == View()
    {
      if Valid() {
        CleanViewIsDisk();
      } else {
        var i :| 0 <= i < CACHE_SLOTS && slots[i].valid && slots[i].lba < |ata.sectors| && slots[i].data != ata.sectors[slots[i].lba];
        SeenSlot(slots[..], ata.sectors, i);
      }
    }
  }

  // ---------------------------------------------------------------- flushing

  /** A slot whose data the drive does not have yet. */
  predicate Dirty(s: Slot) { s.valid && s.dirty }

  function Cleaned(s: Slot): Slot
  {
    if Dirty(s) then s.(dirty := false) else s
  }

  /** How many of the first n slots owe a write: the number of commands the flush has issued before slot n. */
  function Owing(slots: seq<Slot>, n: nat): nat
    requires n <= |slots|
  {
    if n == 0 then 0 else Owing(slots, n - 1) + if Dirty(slots[n - 1]) then 1 else 0
  }

  /** The sectors of the first n slots whose write-back fails. */
  ghost function LostTo(slots: seq<Slot>, fails: nat -> bool, first: nat, size: nat, n: nat): set<nat>
    requires n <= |slots|
  {
    if n == 0 then {}
    else
      var s := slots[n - 1];
      LostTo(slots, fails, first, size, n - 1)
      + if Dirty(s) && s.lba < size && fails(first + Owing(slots, n - 1)) then {s.lba} else {}
  }

  ghost predicate OwedFrom(slots: seq<Slot>, n: nat, lba: nat)
  {
    exists k :: n <= k < |slots| && Dirty(slots[k]) && slots[k].lba == lba
  }

  /** Only addresses that some slot owes can be lost, and only through a command that fails. */
  lemma {:induction false} LostIsOwed(slots: seq<Slot>, fails: nat -> bool, first: nat, size: nat, n: nat, lba: nat)
    requires n <= |slots| && lba in LostTo(slots, fails, first, size, n)
    ensures lba < size && exists k :: 0 <= k < n && Dirty(slots[k]) && slots[k].lba == lba && fails(first + Owing(slots, k))
    decreases n
  {
    var s := slots[n - 1];
    if lba in LostTo(slots, fails, first, size, n - 1) {
      LostIsOwed(slots, fails, first, size, n - 1, lba);
    } else {
      assert Dirty(slots[n - 1]) && s.lba == lba && fails(first + Owing(slots, n - 1));
    }
  }

  lemma LostCached(slots: seq<Slot>, fails: nat -> bool, first: nat, size: nat)
    ensures forall l :: l in LostTo(slots, fails, first, size, |slots|) ==> Cached(slots, l)
  {
    forall l | l in LostTo(slots, fails, first, size, |slots|)
      ensures Cached(slots, l)
    {
      LostIsOwed(slots, fails, first, size, |slots|, l);
      var k :| 0 <= k < |slots| && Dirty(slots[k]) && slots[k].lba == l;
      assert Holds(slots, k, l);
    }
  }

  lemma NothingLost(slots: seq<Slot>, fails: nat -> bool, first: nat, size: nat, n: nat)
    requires n <= |slots|
    ensures (forall k :: 0 <= k < n ==> !Dirty(slots[k])) || (forall c: nat :: c >= first ==> !fails(c)) ==>
              LostTo(slots, fails, first, size, n) == {}
  {
    var lost := LostTo(slots, fails, first, size, n);
    if lba :| lba in lost {
      LostIsOwed(slots, fails, first, size, n, lba);
    }
  }

  lemma FlushStarts(slots: seq<Slot>, sectors: seq<Sector>, fails: nat -> bool, first: nat)
    requires OneSlotEach(slots) && CleanAgrees(slots, sectors)
    ensures Owing(slots, 0) == 0 && LostTo(slots, fails, first, |sectors|, 0) == {}
    ensures forall l :: 0 <= l < |sectors| && !OwedFrom(slots, 0, l) ==> sectors[l] == Seen(slots, sectors, l)
  {
    forall l | 0 <= l < |sectors| && !OwedFrom(slots, 0, l)
      ensures sectors[l] == Seen(slots, sectors, l)
    {
      if k :| 0 <= k < |slots| && Holds(slots, k, l) {
        SeenSlot(slots, sectors, k);
      }
    }
  }

  /** Clean copies of the same slots show the same sectors, whatever the drive holds under them. */
  lemma FlushShows(before: seq<Slot>, disk: seq<Sector>, after: seq<Slot>, disk': seq<Sector>, lost: set<nat>)
    requires OneSlotEach(before) && |after| == |before| && |disk'| == |disk|
    requires forall k :: 0 <= k < |before| ==> after[k] == Cleaned(before[k])
    requires forall l :: l in lost ==> Cached(before, l)
    requires forall l :: 0 <= l < |disk| && l !in lost ==> disk'[l] == Seen(before, disk, l)
    ensures OneSlotEach(after) && ViewOf(after, disk') == ViewOf(before, disk)
  {
    assert OneSlotEach(after);
    forall l | 0 <= l < |disk|
      ensures Seen(after, disk', l) == Seen(before, disk, l)
    {
      if k :| 0 <= k < |before| && Holds(before, k, l) {
        SeenSlot(before, disk, k);
        assert Holds(after, k, l);
        SeenSlot(after, disk', k);
      } else {
        assert forall k :: Holds(after, k, l) ==> Holds(before, k, l);
      }
    }
  }

  /** Dropping slot 0 after its write-back: the view moves only if the drive did not take the data. */
  lemma WrittenBack(slots: seq<Slot>, sectors: seq<Sector>, sectors': seq<Sector>, s: Slot)
    requires |slots| == CACHE_SLOTS && OneSlotEach(slots) && CleanAgrees(slots, sectors) && slots[0].valid && !s.valid
    requires |sectors'| == |sectors|
    requires forall l :: 0 <= l < |sectors| && l != slots[0].lba ==> sectors'[l] == sectors[l]
    ensures OneSlotEach(slots[0 := s]) && CleanAgrees(slots[0 := s], sectors')
    ensures forall l :: 0 <= l < |sectors| && l != slots[0].lba ==> ViewOf(slots[0 := s], sectors')[l] == ViewOf(slots, sectors)[l]
    ensures slots[0].lba < |sectors| && sectors'[slots[0].lba] == slots[0].data ==>
              ViewOf(slots[0 := s], sectors') == ViewOf(slots, sectors)
    ensures slots[0].lba >= |sectors| ==> ViewOf(slots[0 := s], sectors') == ViewOf(slots, sectors)
  {
    var t := slots[0 := s];
    assert forall j :: 0 <= j < |slots| && slots[j].valid ==> Holds(slots, j, slots[j].lba);
    assert forall j :: 0 < j < |slots| && slots[j].valid ==> slots[j].lba != slots[0].lba;
    forall l | 0 <= l < |sectors|
      ensures Seen(t, sectors', l) == if l == slots[0].lba then sectors'[l] else Seen(slots, sectors, l)
    {
      if k :| 0 <= k < |t| && Holds(t, k, l) {
        SeenSlot(t, sectors', k);
        SeenSlot(slots, sectors, k);
      } else {
        if k :| 0 <= k < |slots| && Holds(slots, k, l) {
          assert k != 0 ==> Holds(t, k, l);
        }
      }
    }
    if slots[0].lba < |sectors| {
      SeenSlot(slots, sectors, 0);
    }
  }
}
