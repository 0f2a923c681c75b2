/** The FAT12 volume as a list of directory slots: what every run of writes and deletes does, whatever names it uses
    (kernel/fat12.c:210-406). */
module FatListing {
  import opened Bytes
  import opened FatNames
  import opened FatChains
  import opened FatVolume
  import opened FatTheorems
  import opened FatRuns

  /** A file as a listing knows it: its printed name, its bytes, and how many clusters it holds. */
  datatype File = File(name: seq<u8>, bytes: seq<u8>, clusters: nat)

  /** A directory slot: free, taken by a volume label, or taken by a file. */
  datatype Slot = Vacant | Label | Holds(file: File)

  /** The slots in order, and how many clusters are free. */
  datatype Listing = Listing(slots: seq<Slot>, room: nat)

  // ---------------------------------------------------------------- the list

  predicate HasName(s: Slot, name: seq<u8>) { s.Holds? && SameName(s.file.name, name) }

  function FirstNamed(slots: seq<Slot>, name: seq<u8>): (r: Option<nat>)
    ensures r.Some? ==> r.value < |slots| && HasName(slots[r.value], name)
    ensures forall j :: 0 <= j < (if r.Some? then r.value else |slots|) ==> !HasName(slots[j], name)
  {
    if slots == [] then None
    else if HasName(slots[0], name) then Some(0)
    else
      match FirstNamed(slots[1..], name)
      case None => None
      case Some(i) => Some(i + 1)
  }

  function FirstVacant(slots: seq<Slot>): (r: Option<nat>)
    ensures r.Some? ==> r.value < |slots| && slots[r.value].Vacant?
    ensures forall j :: 0 <= j < (if r.Some? then r.value else |slots|) ==> !slots[j].Vacant?
  {
    if slots == [] then None
    else if slots[0].Vacant? then Some(0)
    else
      match FirstVacant(slots[1..])
      case None => None
      case Some(i) => Some(i + 1)
  }

  /** A read takes the first file of the name. */
  function ReadName(l: Listing, name: seq<u8>): Option<seq<u8>>
  {
    match FirstNamed(l.slots, name)
    case None => None
    case Some(i) => Some(l.slots[i].file.bytes)
  }

  /** A delete frees the first file of the name and its clusters. */
  function Clear(l: Listing, name: seq<u8>): Listing
  {
    match FirstNamed(l.slots, name)
    case None => l
    case Some(i) => Listing(l.slots[i := Vacant], l.room + l.slots[i].file.clusters)
  }

  /** A write clears the name first. It fails if the clusters or else the slots run out; otherwise the first vacant slot
      holds the bytes under the stored name, unless that reads as deleted: then only the clusters are gone. */
  function Put(l: Listing, name: Name, bytes: seq<u8>): (Listing, Outcome)
  {
    var c, n := Clear(l, name), ClustersNeeded(|bytes|);
    if c.room < n then (c, DiskFull)
    else
      match FirstVacant(c.slots)
      case None => (c, RootFull)
      case Some(i) =>
        var s := if Visible(name) then Holds(File(Stored(name), bytes, n)) else Vacant;
        (Listing(c.slots[i := s], c.room - n), Written)
  }

  function Do(l: Listing, op: Op): Listing
  {
    match op
    case WriteOp(path, bytes) => Put(l, NameOf(path), bytes).0
    case DeleteOp(path) => Clear(l, NameOf(path))
  }

  function DoAll(l: Listing, ops: seq<Op>): Listing
    decreases |ops|
  {
    if ops == [] then l else DoAll(Do(l, ops[0]), ops[1..])
  }

  // ---------------------------------------------------------------- the volume as a list

  ghost function SlotOf(v: Volume, i: nat): Slot
    requires Sane(v) && i < |v.dir|
  {
    if IsFreeSlot(v.dir[i]) then Vacant
    else if Live(v.dir, i) then Holds(File(EntryName(v.dir[i]), FileBytes(v, i), |Chain(v, i)|))
    else Label
  }

  ghost function ListingOf(v: Volume): (l: Listing)
    requires Sane(v)
    ensures |l.slots| == |v.dir| && forall i :: 0 <= i < |v.dir| ==> l.slots[i] == SlotOf(v, i)
    ensures l.room == FreeClusters(v.fat)
  {
    Listing(seq(|v.dir|, i requires 0 <= i < |v.dir| => SlotOf(v, i)), FreeClusters(v.fat))
  }

  lemma NamedSlot(v: Volume, name: seq<u8>, i: nat)
    requires Sane(v)
    ensures Named(v.dir, i, name) <==> i < |v.dir| && HasName(SlotOf(v, i), name)
  {
  }

  lemma FirstNamedIs(v: Volume, name: seq<u8>)
    requires Sane(v)
    ensures FirstNamed(ListingOf(v).slots, name) == Find(v.dir, name)
  {
    var r := FirstNamed(ListingOf(v).slots, name);
    forall j: nat ensures Named(v.dir, j, name) <==> j < |v.dir| && HasName(ListingOf(v).slots[j], name) {
      NamedSlot(v, name, j);
    }
    hide ListingOf, Named, HasName, FirstNamed;
    FindIs(v.dir, name, r);
  }

  lemma FirstVacantIs(v: Volume)
    requires Sane(v)
    ensures FirstVacant(ListingOf(v).slots) == FreeSlot(v.dir)
  {
    hide FirstVacant, FreeSlotFrom;
    FreeSlotFirst(v.dir, 0);
    var r, s := FirstVacant(ListingOf(v).slots), FreeSlot(v.dir);
    if r.Some? {
      assert IsFreeSlot(v.dir[r.value]);
    }
    if s.Some? {
      assert ListingOf(v).slots[s.value].Vacant?;
    }
  }

  /** What the driver reads under a name is what the list says. */
  lemma ReadRefines(v: Volume, q: seq<u8>)
    requires Sane(v)
    ensures Contents(v, q) == ReadName(ListingOf(v), q)
  {
    FirstNamedIs(v, q);
    FindFromFirst(v.dir, q, 0);
    hide FirstNamed, FileBytes;
  }

  // ---------------------------------------------------------------- one operation

  lemma EraseSlot(v: Volume, i: nat, j: nat)
    requires WellFormed(v) && Live(v.dir, i) && j < |v.dir|
    ensures Linkable(v.fat, FirstCluster(v.dir[i])) && WellFormed(Erase(v, i))
    ensures SlotOf(Erase(v, i), j) == if j == i then Vacant else SlotOf(v, j)
  {
    hide FileBytes, Chain, WellFormed;
    EraseWellFormed(v, i);
    EraseLive(v.dir, i, j);
    if Live(v.dir, j) && j != i {
      EraseKeepsChain(v, i, j);
      EraseKeepsFile(v, i, j);
    }
  }

  lemma EraseKeepsFile(v: Volume, i: nat, j: nat)
    requires WellFormed(v) && Live(v.dir, i) && Live(v.dir, j) && i != j
    ensures Linkable(v.fat, FirstCluster(v.dir[i])) && WellFormed(Erase(v, i)) && Live(Erase(v, i).dir, j)
    ensures Chain(Erase(v, i), j) == Chain(v, j) && FileBytes(Erase(v, i), j) == FileBytes(v, j)
  {
    EraseWellFormed(v, i);
    EraseKeepsChain(v, i, j);
    SameFile(v, Erase(v, i), j);
  }

  lemma ClearRefines(v: Volume, name: seq<u8>)
    requires WellFormed(v)
    ensures WellFormed(EraseNamed(v, name)) && ListingOf(EraseNamed(v, name)) == Clear(ListingOf(v), name)
  {
    EraseNamedConserves(v, name);
    EraseFrees(v, name);
    FirstNamedIs(v, name);
    FindFromFirst(v.dir, name, 0);
    var l, w := ListingOf(v), EraseNamed(v, name);
    if Find(v.dir, name).Some? {
      var i := Find(v.dir, name).value;
      forall j | 0 <= j < |v.dir| ensures SlotOf(w, j) == if j == i then Vacant else SlotOf(v, j) {
        EraseSlot(v, i, j);
      }
      assert l.slots[i] == SlotOf(v, i) && !IsFreeSlot(v.dir[i]);
      hide SlotOf, FileBytes, FirstNamed;
      assert ListingOf(w).slots == l.slots[i := Vacant];
    }
  }

  /** Slots that a write behind the deletion does not take stay as they are. */
  lemma OtherSlot(v: Volume, name: Name, bytes: seq<u8>, j: nat)
    requires WellFormed(v) && |bytes| < 0x1_0000_0000 && j < |v.dir|
    requires WriteFresh(v, name, bytes).outcome == Written ==> FreeSlot(v.dir) != Some(j)
    ensures var w := WriteFresh(v, name, bytes).volume;
            WellFormed(w) && |w.dir| == |v.dir| && SlotOf(w, j) == SlotOf(v, j)
  {
    hide FileBytes, Chain, WriteFresh, WellFormed, FreeSlotFrom, LaidOver;
    var t := WriteFreshWorks(v, name, bytes);
    var w := WriteFresh(v, name, bytes).volume;
    if Live(v.dir, j) {
      WriteFreshKeepsFile(v, name, bytes, j);
    } else if WriteFresh(v, name, bytes).outcome == Written {
      NotRevived(v, name, bytes, j);
    }
  }

  lemma NotRevived(v: Volume, name: Name, bytes: seq<u8>, j: nat)
    requires WellFormed(v) && |bytes| < 0x1_0000_0000 && j < |v.dir| && !Live(v.dir, j)
    requires WriteFresh(v, name, bytes).outcome == Written && FreeSlot(v.dir) != Some(j)
    ensures !Live(WriteFresh(v, name, bytes).volume.dir, j)
  {
    var a := AllocChain(v.fat, ClustersNeeded(|bytes|), 0, 0);
    NewEntryKind(name, a.first, |bytes|);
    SlotLive(v.dir, FreeSlot(v.dir).value, NewEntry(name, a.first, |bytes|), j);
  }

  /** The slot taken. */
  lemma NewSlot(v: Volume, name: Name, bytes: seq<u8>)
    requires WellFormed(v) && |bytes| < 0x1_0000_0000 && WriteFresh(v, name, bytes).outcome == Written
    ensures FreeSlot(v.dir).Some?
    ensures var w := WriteFresh(v, name, bytes).volume;
            && WellFormed(w) && FreeSlot(v.dir).value < |w.dir|
            && SlotOf(w, FreeSlot(v.dir).value)
               == if Visible(name) then Holds(File(Stored(name), bytes, ClustersNeeded(|bytes|))) else Vacant
  {
    var t := WriteFreshWorks(v, name, bytes);
    var a := AllocChain(v.fat, ClustersNeeded(|bytes|), 0, 0);
    NewEntryKind(name, a.first, |bytes|);
    if Visible(name) {
      WriteFreshNewFile(v, name, bytes);
    }
  }

  /** A successful write takes as many clusters as it needs. */
  lemma WriteTakes(v: Volume, name: Name, bytes: seq<u8>)
    requires WellFormed(v) && |bytes| < 0x1_0000_0000 && WriteFresh(v, name, bytes).outcome == Written
    ensures FreeClusters(WriteFresh(v, name, bytes).volume.fat) + ClustersNeeded(|bytes|) == FreeClusters(v.fat)
  {
    var t := WriteFreshWorks(v, name, bytes);
    var w := WriteFresh(v, name, bytes).volume;
    var first := FirstCluster(w.dir[FreeSlot(v.dir).value]);
    LaidOverUndone(v.fat, w.fat, first, t);
    FreeClustersAfterFree(w.fat, first, t);
  }

  lemma FreshRefines(v: Volume, name: Name, bytes: seq<u8>)
    requires WellFormed(v) && |bytes| < 0x1_0000_0000
    ensures var r, l, n := WriteFresh(v, name, bytes), ListingOf(v), ClustersNeeded(|bytes|);
            && WellFormed(r.volume)
            && r.outcome == (if l.room < n then DiskFull else if FirstVacant(l.slots).None? then RootFull else Written)
            && (r.outcome != Written ==> ListingOf(r.volume) == l)
            && (r.outcome == Written ==>
                  ListingOf(r.volume) == Listing(
                    l.slots[FirstVacant(l.slots).value :=
                      if Visible(name) then Holds(File(Stored(name), bytes, n)) else Vacant],
                    l.room - n))
  {
    hide SlotOf, FirstVacant, WriteFresh, FreeSlotFrom, LaidOver;
    var t := WriteFreshWorks(v, name, bytes);
    var r, l := WriteFresh(v, name, bytes), ListingOf(v);
    FirstVacantIs(v);
    forall j: nat | j < |v.dir| && (r.outcome == Written ==> FreeSlot(v.dir) != Some(j))
      ensures |r.volume.dir| == |v.dir| && SlotOf(r.volume, j) == SlotOf(v, j)
    {
      OtherSlot(v, name, bytes, j);
    }
    if r.outcome == Written {
      NewSlot(v, name, bytes);
      WriteTakes(v, name, bytes);
    } else {
      assert ListingOf(r.volume).slots == l.slots;
    }
  }

  /** A write does to the volume what Put does to its list, and ends in the same way. */
  lemma PutRefines(v: Volume, path: Name, bytes: seq<u8>)
    requires WellFormed(v) && |bytes| < 0x1_0000_0000
    ensures var r := Write(v, path, bytes);
            WellFormed(r.volume) && (ListingOf(r.volume), r.outcome) == Put(ListingOf(v), NameOf(path), bytes)
  {
    hide ListingOf, WriteFresh, Clear, FirstVacant;
    ClearRefines(v, NameOf(path));
    FreshRefines(EraseNamed(v, NameOf(path)), NameOf(path), bytes);
  }

  lemma StepRefinesList(v: Volume, op: Op)
    requires WellFormed(v) && Sized(op)
    ensures WellFormed(Step(v, op)) && ListingOf(Step(v, op)) == Do(ListingOf(v), op)
  {
    hide ListingOf, Put, WellFormed, Clear;
    match op
    case WriteOp(path, bytes) => PutRefines(v, path, bytes);
    case DeleteOp(path) => ClearRefines(v, NameOf(path));
  }

  // ---------------------------------------------------------------- every run

  /** Over every run of writes and deletes, of any names and with any failures, the volume is the list that the run
      makes of the list at its start; so every name reads as the list says, shadowed and doubled names included. */
  lemma {:induction false} RunRefinesList(v: Volume, ops: seq<Op>, w: Volume, q: seq<u8>)
    requires WellFormed(v) && RunsTo(v, ops, w)
    ensures WellFormed(w) && ListingOf(w) == DoAll(ListingOf(v), ops)
    ensures Contents(w, q) == ReadName(DoAll(ListingOf(v), ops), q)
    decreases |ops|
  {
    hide ListingOf, Do, ReadName, Contents;
    if ops == [] {
      ReadRefines(v, q);
    } else {
      StepRefinesList(v, ops[0]);
      RunRefinesList(Step(v, ops[0]), ops[1..], w, q);
    }
  }
}
