/** What the FAT12 driver does to a volume: allocation table, root directory and data clusters
    (kernel/fat12.c, find_entry, alloc_root_entry, fat12_read, fat12_write and fat12_delete). */
module FatVolume {
  import opened Bytes
  import opened FatNames
  import opened FatChains

  /** One 32-byte root directory entry. */
  type Entry = s: seq<u8> | |s| == 32 witness seq(32, _ => 0)

  const END: u8 := 0x00
  const DELETED: u8 := 0xE5
  const ARCHIVE: u8 := 0x20

  predicate IsEnd(e: Entry) { e[0] == END }
  predicate IsDeleted(e: Entry) { e[0] == DELETED }
  predicate IsLabel(e: Entry) { e[11] / 8 % 2 == 1 }

  /** An entry that find_entry compares with the name it looks for. */
  predicate Occupied(e: Entry) { !IsEnd(e) && !IsDeleted(e) && !IsLabel(e) }

  function RawName(e: Entry): Raw83 { e[..11] }
  function EntryName(e: Entry): seq<u8> { ToStr(RawName(e)) }
  function FirstCluster(e: Entry): nat { LE16(e, 26) }
  function FileSize(e: Entry): nat { LE32(e, 28) }

  /** The entry fat12_write puts into its slot. */
  function NewEntry(name: seq<u8>, first: u16, size: u32): (e: Entry)
    ensures RawName(e) == To83(name) && e[11] == ARCHIVE
    ensures FirstCluster(e) == first && FileSize(e) == size
  {
    var e := To83(name) + [ARCHIVE] + Zeros(20);
    PutLE32(PutLE16(e, 26, first), 28, size)
  }

  /** Where a new entry keeps what it says: the name field, the attribute, zeros, the cluster and the size. */
  lemma NewEntryBytes(name: seq<u8>, first: u16, size: u32)
    ensures var e := NewEntry(name, first, size);
            && e[..11] == To83(name) && e[11] == 0x20 && (forall k :: 12 <= k < 26 ==> e[k] == 0)
            && e[26] as int + 0x100 * e[27] as int == first
            && e[28] as int + 0x100 * e[29] as int + 0x1_0000 * e[30] as int + 0x100_0000 * e[31] as int == size
  {
    var e := NewEntry(name, first, size);
    assert LE16(e, 26) == first && LE32(e, 28) == size;
  }

  /** What is read from any entry, whoever wrote it. */
  lemma EntryFields(e: Entry)
    ensures RawName(e) == e[..11]
    ensures FirstCluster(e) == e[26] as int + 0x100 * e[27] as int
    ensures FileSize(e) == e[28] as int + 0x100 * e[29] as int + 0x1_0000 * e[30] as int + 0x100_0000 * e[31] as int
  {
  }

  /** Neither an end mark, nor a deleted entry, nor one with the volume-label bit, which long-name entries carry too, is
      ever compared; plain files and sub-directories are. */
  lemma ComparedKinds(e: Entry)
    ensures e[0] == 0 || e[0] == 0xE5 || e[11] == 0x08 || e[11] == 0x0F ==> !Occupied(e)
    ensures e[0] != 0 && e[0] != 0xE5 && (e[11] == 0x20 || e[11] == 0x10 || e[11] == 0x27) ==> Occupied(e)
  {
  }

  /** Data clusters are numbered from 2, so cluster c lies at data[c - 2]. */
  datatype Volume = Volume(fat: seq<nat>, dir: seq<Entry>, data: seq<Sector>)

  // ---------------------------------------------------------------- directory

  /** An entry of the directory proper: occupied and not behind the end marker. */
  ghost predicate Live(dir: seq<Entry>, i: nat)
  {
    i < |dir| && Occupied(dir[i]) && forall j :: 0 <= j < i ==> !IsEnd(dir[j])
  }

  ghost predicate Named(dir: seq<Entry>, i: nat, name: seq<u8>)
  {
    Live(dir, i) && SameName(EntryName(dir[i]), name)
  }

  /** find_entry from slot i on. */
  function FindFrom(dir: seq<Entry>, name: seq<u8>, i: nat): (r: Option<nat>)
    requires i <= |dir|
    decreases |dir| - i
  {
    if i == |dir| || IsEnd(dir[i]) then None
    else if Occupied(dir[i]) && SameName(EntryName(dir[i]), name) then Some(i)
    else FindFrom(dir, name, i + 1)
  }

  function Find(dir: seq<Entry>, name: seq<u8>): Option<nat> { FindFrom(dir, name, 0) }

  /** The search returns the first live entry with the name, and nothing only if there is none. */
  lemma {:induction false} FindFromFirst(dir: seq<Entry>, name: seq<u8>, i: nat)
    requires i <= |dir|
    requires forall j :: 0 <= j < i ==> !IsEnd(dir[j])
    ensures var r := FindFrom(dir, name, i);
            && (r.Some? ==> i <= r.value && Named(dir, r.value, name))
            && (forall j: nat :: i <= j && Named(dir, j, name) ==> r.Some? && r.value <= j)
    decreases |dir| - i
  {
    if i < |dir| && !IsEnd(dir[i]) && !(Occupied(dir[i]) && SameName(EntryName(dir[i]), name)) {
      FindFromFirst(dir, name, i + 1);
    }
  }

  /** The search depends on nothing but where the live entries of that name are. */
  lemma FindIs(dir: seq<Entry>, name: seq<u8>, r: Option<nat>)
    requires r.Some? ==> Named(dir, r.value, name)
    requires forall j: nat :: Named(dir, j, name) ==> r.Some? && r.value <= j
    ensures Find(dir, name) == r
  {
    FindFromFirst(dir, name, 0);
  }

  predicate IsFreeSlot(e: Entry) { IsEnd(e) || IsDeleted(e) }

  /** alloc_root_entry from slot i on. */
  function FreeSlotFrom(dir: seq<Entry>, i: nat): (r: Option<nat>)
    requires i <= |dir|
    ensures r.Some? ==> i <= r.value < |dir|
    decreases |dir| - i
  {
    if i == |dir| then None
    else if IsFreeSlot(dir[i]) then Some(i)
    else FreeSlotFrom(dir, i + 1)
  }

  /** The slot found is free and none before it is. */
  lemma {:induction false} FreeSlotFirst(dir: seq<Entry>, i: nat)
    requires i <= |dir|
    ensures var r := FreeSlotFrom(dir, i);
            && (r.Some? ==> IsFreeSlot(dir[r.value]))
            && (forall j :: i <= j < (if r.Some? then r.value else |dir|) ==> !IsFreeSlot(dir[j]))
    decreases |dir| - i
  {
    if i < |dir| && !IsFreeSlot(dir[i]) {
      FreeSlotFirst(dir, i + 1);
    }
  }

  function FreeSlot(dir: seq<Entry>): Option<nat> { FreeSlotFrom(dir, 0) }

  // ---------------------------------------------------------------- well-formed volumes

  predicate Shape(v: Volume)
  {
    && 2 <= |v.fat| == |v.data| + 2
    && LinksBounded(v.fat)
  }

  ghost predicate Sane(v: Volume)
  {
    && Shape(v)
    && (forall i, j :: 0 <= i < j < |v.dir| && IsEnd(v.dir[i]) ==> IsEnd(v.dir[j]))
    && (forall i: nat :: Live(v.dir, i) ==> Sound(v.fat, FirstCluster(v.dir[i])))
  }

  ghost function Chain(v: Volume, i: nat): seq<nat>
    requires Sane(v) && Live(v.dir, i)
  {
    ChainOf(v.fat, FirstCluster(v.dir[i]))
  }

  ghost predicate Disjoint(s: seq<nat>, t: seq<nat>)
  {
    forall c :: c in s ==> c !in t
  }

  /** Every live file has a chain that ends, over entries in use, and no two files share a cluster. */
  ghost predicate WellFormed(v: Volume)
  {
    && Sane(v)
    && forall i: nat, j: nat :: Live(v.dir, i) && Live(v.dir, j) && i != j ==> Disjoint(Chain(v, i), Chain(v, j))
  }

  ghost predicate InSomeChain(v: Volume, c: nat)
    requires Sane(v)
  {
    exists i: nat :: Live(v.dir, i) && c in Chain(v, i)
  }

  /** Clusters marked in use that no file owns: bad clusters and leaks. */
  ghost predicate Orphan(v: Volume, c: nat)
    requires Sane(v)
  {
    2 <= c < |v.fat| && v.fat[c] != 0 && !InSomeChain(v, c)
  }

  ghost predicate SameOrphans(v: Volume, w: Volume)
    requires Sane(v) && Sane(w)
  {
    |v.fat| == |w.fat| && forall c: nat :: Orphan(v, c) <==> Orphan(w, c)
  }

  ghost predicate UniqueNames(v: Volume)
  {
    forall i: nat, j: nat :: Live(v.dir, i) && Live(v.dir, j) && i != j ==> !SameName(EntryName(v.dir[i]), EntryName(v.dir[j]))
  }

  /** Free entries are exactly the clusters that are neither in a chain nor orphaned. */
  lemma FreeExactlyOutside(v: Volume, c: nat)
    requires WellFormed(v) && 2 <= c < |v.fat|
    ensures v.fat[c] == 0 <==> !InSomeChain(v, c) && !Orphan(v, c)
  {
    if InSomeChain(v, c) {
      var i: nat :| Live(v.dir, i) && c in Chain(v, i);
      ChainMembers(v.fat, FirstCluster(v.dir[i]), Chain(v, i));
    }
  }

  // ---------------------------------------------------------------- reading

  function Concat(data: seq<Sector>, s: seq<nat>): (r: seq<u8>)
    requires forall k :: 0 <= k < |s| ==> 2 <= s[k] < |data| + 2
    ensures |r| == 512 * |s|
  {
    if s == [] then [] else data[s[0] - 2] + Concat(data, s[1..])
  }

  lemma ChainInData(v: Volume, c: nat, s: seq<nat>)
    requires Shape(v) && IsChain(v.fat, c, s)
    ensures forall k :: 0 <= k < |s| ==> 2 <= s[k] < |v.data| + 2
  {
    ChainMembers(v.fat, c, s);
    assert forall k :: 0 <= k < |s| ==> s[k] in s;
  }

  /** The bytes of the file in slot i: as many as its size says and its chain holds. */
  ghost function FileBytes(v: Volume, i: nat): seq<u8>
    requires Sane(v) && Live(v.dir, i)
  {
    ChainInData(v, FirstCluster(v.dir[i]), Chain(v, i));
    Take(Concat(v.data, Chain(v, i)), FileSize(v.dir[i]))
  }

  /** What a caller with unlimited room reads under a name, if the name exists. */
  ghost function Contents(v: Volume, name: seq<u8>): Option<seq<u8>>
    requires Sane(v)
  {
    FindFromFirst(v.dir, name, 0);
    match Find(v.dir, name)
    case None => None
    case Some(i) => Some(FileBytes(v, i))
  }

  /** The bytes fat12_read delivers into a buffer of cap bytes; none for a missing file. */
  ghost function ReadBytes(v: Volume, name: seq<u8>, cap: nat): seq<u8>
    requires Sane(v)
  {
    match Contents(v, name)
    case None => []
    case Some(b) => Take(b, cap)
  }

  /** A path is a root directory name behind an optional slash. */
  function NameOf(path: Name): Name
  {
    if path != [] && path[0] == 0x2F then path[1..] else path
  }

  /** The path names this file of the root directory: one slash may stand in front, and a second one is part of the name. */
  predicate Denotes(path: Name, name: Name)
  {
    path == [0x2F] + name || (path == name && (name == [] || name[0] != 0x2F))
  }

  lemma DenotesIff(path: Name, name: Name)
    ensures Denotes(path, name) <==> NameOf(path) == name
  {
  }

  /** fat12_read: the bytes it delivers into a buffer of cap bytes. */
  ghost function ReadPath(v: Volume, path: Name, cap: nat): seq<u8>
    requires Sane(v)
  {
    ReadBytes(v, NameOf(path), cap)
  }

  // ---------------------------------------------------------------- writing and deleting

  /** Freeing the chain of slot i and marking the slot deleted. */
  function Erase(v: Volume, i: nat): (w: Volume)
    requires Shape(v) && i < |v.dir| && Linkable(v.fat, FirstCluster(v.dir[i]))
    ensures Shape(w)
  {
    Volume(FreeChain(v.fat, FirstCluster(v.dir[i])), v.dir[i := v.dir[i][0 := DELETED]], v.data)
  }

  ghost function EraseNamed(v: Volume, name: seq<u8>): (w: Volume)
    requires Sane(v)
    ensures Shape(w)
  {
    FindFromFirst(v.dir, name, 0);
    match Find(v.dir, name)
    case None => v
    case Some(i) =>
      FreeChainOfChain(v.fat, FirstCluster(v.dir[i]), Chain(v, i));
      Erase(v, i)
  }

  function ClustersNeeded(size: nat): nat
  {
    if size == 0 then 1 else (size + 511) / 512
  }

  /** A file takes the least number of clusters that holds its bytes, but never none. */
  lemma ClustersNeededLeast(size: nat, n: nat)
    ensures n >= ClustersNeeded(size) <==> n >= 1 && 512 * n >= size
  {
  }

  /** One sector of file data, zero-filled behind the last byte. */
  function Block(bytes: seq<u8>): Sector
  {
    Take(bytes, 512) + Zeros(512 - Min(|bytes|, 512))
  }

  lemma BlockBytes(bytes: seq<u8>, k: nat)
    requires k < 512
    ensures Block(bytes)[k] == if k < |bytes| then bytes[k] else 0
  {
  }

  /** The loop that copies the bytes into the clusters of a chain. */
  function StoreFrom(f: seq<nat>, data: seq<Sector>, c: nat, bytes: seq<u8>): (d: seq<Sector>)
    requires |f| == |data| + 2 && LinksBounded(f) && Linkable(f, c)
    ensures |d| == |data|
    decreases |bytes|
  {
    if InRange(c) && bytes != [] then
      StoreFrom(f, data[c - 2 := Block(bytes)], f[c], bytes[Min(512, |bytes|)..])
    else data
  }

  datatype Outcome = Written | DiskFull | RootFull

  datatype WriteResult = WriteResult(volume: Volume, outcome: Outcome)

  /** fat12_write behind the deletion of an older file of that name. */
  function WriteFresh(v: Volume, name: Name, bytes: seq<u8>): (r: WriteResult)
    requires Shape(v) && |bytes| < 0x1_0000_0000
    ensures Shape(r.volume)
  {
    var a := AllocChain(v.fat, ClustersNeeded(|bytes|), 0, 0);
    if !a.ok then WriteResult(v.(fat := a.fat), DiskFull)
    else
      Fill(v.(fat := a.fat), name, a.first, bytes)
  }

  /** The end of fat12_write, with a chain laid: the data, and an entry for it or else the chain freed again. */
  function Fill(v: Volume, name: Name, first: u16, bytes: seq<u8>): (r: WriteResult)
    requires Shape(v) && Linkable(v.fat, first) && |bytes| < 0x1_0000_0000
    ensures Shape(r.volume) && r.outcome != DiskFull
  {
    var data := StoreFrom(v.fat, v.data, first, bytes);
    match FreeSlot(v.dir)
    case None => WriteResult(v.(fat := FreeChain(v.fat, first), data := data), RootFull)
    case Some(slot) => WriteResult(Volume(v.fat, v.dir[slot := NewEntry(name, first, |bytes|)], data), Written)
  }

  /** fat12_write */
  ghost function Write(v: Volume, path: Name, bytes: seq<u8>): WriteResult
    requires Sane(v) && |bytes| < 0x1_0000_0000
  {
    WriteFresh(EraseNamed(v, NameOf(path)), NameOf(path), bytes)
  }

  /** fat12_delete: the volume afterwards; it fails on a missing name and then changes nothing. */
  ghost function Delete(v: Volume, path: Name): Volume
    requires Sane(v)
  {
    EraseNamed(v, NameOf(path))
  }
}
