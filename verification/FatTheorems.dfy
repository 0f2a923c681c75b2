/** Well-formedness, conservation, isolation and round trips of the FAT12 operations, over single calls and runs. */
module FatTheorems {
  import opened Bytes
  import opened FatNames
  import opened FatChains
  import opened FatVolume

  // ---------------------------------------------------------------- erasing a file

  lemma EraseLive(dir: seq<Entry>, i: nat, j: nat)
    requires Live(dir, i)
    ensures Live(dir[i := dir[i][0 := DELETED]], j) <==> Live(dir, j) && j != i
  {
    var dir' := dir[i := dir[i][0 := DELETED]];
    if Live(dir', j) {
      assert forall k :: 0 <= k < j ==> IsEnd(dir[k]) == IsEnd(dir'[k]);
    }
  }

  /** Files other than the erased one keep their chains. */
  lemma EraseKeepsChain(v: Volume, i: nat, j: nat)
    requires WellFormed(v) && Live(v.dir, i) && Live(v.dir, j) && i != j
    ensures Linkable(v.fat, FirstCluster(v.dir[i]))
    ensures var w := Erase(v, i);
            && Live(w.dir, j) && w.dir[j] == v.dir[j]
            && Sound(w.fat, FirstCluster(w.dir[j]))
            && ChainOf(w.fat, FirstCluster(w.dir[j])) == Chain(v, j)
  {
    FreeChainOfChain(v.fat, FirstCluster(v.dir[i]), Chain(v, i));
    EraseLive(v.dir, i, j);
    assert Disjoint(Chain(v, j), Chain(v, i));
    ChainOfLocal(v.fat, Erase(v, i).fat, FirstCluster(v.dir[j]));
  }

  lemma EraseWellFormed(v: Volume, i: nat)
    requires WellFormed(v) && Live(v.dir, i)
    ensures Linkable(v.fat, FirstCluster(v.dir[i])) && WellFormed(Erase(v, i))
  {
    FreeChainOfChain(v.fat, FirstCluster(v.dir[i]), Chain(v, i));
    var w := Erase(v, i);
    forall j: nat | Live(w.dir, j)
      ensures Live(v.dir, j) && j != i && Sound(w.fat, FirstCluster(w.dir[j])) && ChainOf(w.fat, FirstCluster(w.dir[j])) == Chain(v, j)
    {
      EraseLive(v.dir, i, j);
      EraseKeepsChain(v, i, j);
    }
  }

  /** Erasing frees exactly the erased file's clusters: nothing leaks and nothing else is touched. */
  lemma EraseConserves(v: Volume, i: nat)
    requires WellFormed(v) && Live(v.dir, i)
    ensures Linkable(v.fat, FirstCluster(v.dir[i])) && WellFormed(Erase(v, i)) && SameOrphans(v, Erase(v, i))
  {
    EraseWellFormed(v, i);
    FreeChainOfChain(v.fat, FirstCluster(v.dir[i]), Chain(v, i));
    var w := Erase(v, i);
    forall c: nat
      ensures Orphan(v, c) <==> Orphan(w, c)
    {
      if InSomeChain(w, c) {
        var j: nat :| Live(w.dir, j) && c in Chain(w, j);
        EraseLive(v.dir, i, j);
        EraseKeepsChain(v, i, j);
        assert InSomeChain(v, c);
      }
      if InSomeChain(v, c) && 2 <= c < |w.fat| && w.fat[c] != 0 {
        var j: nat :| Live(v.dir, j) && c in Chain(v, j);
        assert c !in Chain(v, i);
        EraseKeepsChain(v, i, j);
        assert InSomeChain(w, c);
      }
    }
  }

  lemma EraseNamedConserves(v: Volume, name: seq<u8>)
    requires WellFormed(v)
    ensures WellFormed(EraseNamed(v, name)) && SameOrphans(v, EraseNamed(v, name))
  {
    FindFromFirst(v.dir, name, 0);
    if Find(v.dir, name).Some? {
      EraseConserves(v, Find(v.dir, name).value);
    }
  }

  // ---------------------------------------------------------------- adding a file

  lemma SlotLive(dir: seq<Entry>, slot: nat, e: Entry, j: nat)
    requires FreeSlot(dir) == Some(slot) && !IsEnd(e)
    requires forall a, b :: 0 <= a < b < |dir| && IsEnd(dir[a]) ==> IsEnd(dir[b])
    ensures slot < |dir|
    ensures Live(dir[slot := e], j) <==> Live(dir, j) || (j == slot && Occupied(e))
    ensures !Live(dir, slot)
  {
    var dir' := dir[slot := e];
    FreeSlotFirst(dir, 0);
    assert forall k :: 0 <= k < slot ==> !IsEnd(dir[k]);
    if Live(dir, j) {
      assert forall k :: 0 <= k < j ==> !IsEnd(dir'[k]);
    }
  }

  /** A chain laid over free entries meets no existing chain. */
  lemma LaidKeepsChain(v: Volume, f: seq<nat>, first: nat, t: seq<nat>, j: nat)
    requires WellFormed(v) && Live(v.dir, j) && LaidOver(v.fat, f, first, t)
    ensures Sound(f, FirstCluster(v.dir[j])) && ChainOf(f, FirstCluster(v.dir[j])) == Chain(v, j)
    ensures Disjoint(Chain(v, j), t) && Disjoint(t, Chain(v, j))
  {
    ChainMembers(v.fat, FirstCluster(v.dir[j]), Chain(v, j));
    forall c | c in Chain(v, j)
      ensures c !in t
    {
    }
    ChainOfLocal(v.fat, f, FirstCluster(v.dir[j]));
  }

  /** Adding an entry for a freshly laid chain keeps the volume well formed and every other chain. */
  lemma AddWellFormed(v: Volume, w: Volume, first: nat, t: seq<nat>, slot: nat, e: Entry)
    requires WellFormed(v) && LaidOver(v.fat, w.fat, first, t) && LinksBounded(w.fat)
    requires FreeSlot(v.dir) == Some(slot) && !IsEnd(e) && FirstCluster(e) == first
    requires w.dir == v.dir[slot := e] && |w.data| == |v.data|
    ensures WellFormed(w)
    ensures forall j: nat :: Live(v.dir, j) ==> j != slot && Live(w.dir, j) && Chain(w, j) == Chain(v, j)
    ensures Occupied(e) ==> Live(w.dir, slot) && Chain(w, slot) == t
  {
    forall j: nat
      ensures Live(w.dir, j) <==> Live(v.dir, j) || (j == slot && Occupied(e))
      ensures Live(v.dir, j) ==> j != slot && Sound(w.fat, FirstCluster(w.dir[j]))
                                 && ChainOf(w.fat, FirstCluster(w.dir[j])) == Chain(v, j)
                                 && Disjoint(Chain(v, j), t) && Disjoint(t, Chain(v, j))
    {
      SlotLive(v.dir, slot, e, j);
      if Live(v.dir, j) {
        LaidKeepsChain(v, w.fat, first, t, j);
      }
    }
    assert Sound(w.fat, first);
    ChainUnique(w.fat, first, t, ChainOf(w.fat, first));
    FreeSlotFirst(v.dir, 0);
    assert forall a :: 0 <= a < slot ==> !IsEnd(v.dir[a]);
    assert Sane(w);
  }

  /** The clusters taken by a new file were free, so no cluster becomes an orphan or stops being one,
      provided the entry is visible. */
  lemma AddConserves(v: Volume, w: Volume, first: nat, t: seq<nat>, slot: nat, e: Entry)
    requires WellFormed(v) && LaidOver(v.fat, w.fat, first, t) && LinksBounded(w.fat)
    requires FreeSlot(v.dir) == Some(slot) && !IsEnd(e) && FirstCluster(e) == first
    requires w.dir == v.dir[slot := e] && |w.data| == |v.data|
    ensures WellFormed(w)
    ensures forall c: nat :: Orphan(w, c) <==> Orphan(v, c) || (c in t && !Occupied(e))
  {
    AddWellFormed(v, w, first, t, slot, e);
    ChainMembers(w.fat, first, t);
    forall c: nat
      ensures Orphan(w, c) <==> Orphan(v, c) || (c in t && !Occupied(e))
    {
      if InSomeChain(v, c) {
        var j: nat :| Live(v.dir, j) && c in Chain(v, j);
        LaidKeepsChain(v, w.fat, first, t, j);
        assert Live(w.dir, j) && c in Chain(w, j);
      }
      if InSomeChain(w, c) {
        var j: nat :| Live(w.dir, j) && c in Chain(w, j);
        SlotLive(v.dir, slot, e, j);
        assert j == slot || InSomeChain(v, c);
      }
      if c in t && Occupied(e) {
        assert InSomeChain(w, c);
      }
      if c in t {
        FreeExactlyOutside(v, c);
      }
    }
  }

  // ---------------------------------------------------------------- file contents

  lemma {:induction false} ConcatLocal(d: seq<Sector>, e: seq<Sector>, s: seq<nat>)
    requires |d| == |e|
    requires forall k :: 0 <= k < |s| ==> 2 <= s[k] < |d| + 2 && d[s[k] - 2] == e[s[k] - 2]
    ensures Concat(d, s) == Concat(e, s)
  {
    if s != [] {
      ConcatLocal(d, e, s[1..]);
    }
  }

  /** Copying into a chain leaves every cluster outside the chain alone. */
  lemma {:induction false} StoreOutside(f: seq<nat>, data: seq<Sector>, c: nat, s: seq<nat>, bytes: seq<u8>, k: nat)
    requires |f| == |data| + 2 && LinksBounded(f) && IsChain(f, c, s)
    requires k < |data| && k + 2 !in s
    ensures Linkable(f, c) && StoreFrom(f, data, c, bytes)[k] == data[k]
    decreases |s|
  {
    if s != [] && bytes != [] {
      StoreOutside(f, data[c - 2 := Block(bytes)], f[c], s[1..], bytes[Min(512, |bytes|)..], k);
    }
  }

  lemma ChainHeadOnce(f: seq<nat>, c: nat, s: seq<nat>)
    requires IsChain(f, c, s) && s != []
    ensures c !in s[1..]
  {
    forall i | 0 <= i < |s[1..]|
      ensures s[1..][i] != c
    {
      if s[i + 1] == c {
        ChainAcyclic(f, c, s, 0, i + 1);
      }
    }
  }

  /** Reading back along a chain that is long enough gives the bytes that were copied into it. */
  lemma {:induction false} StoreReadsBack(f: seq<nat>, data: seq<Sector>, c: nat, s: seq<nat>, bytes: seq<u8>)
    requires |f| == |data| + 2 && LinksBounded(f) && IsChain(f, c, s)
    requires |bytes| <= 512 * |s|
    ensures Linkable(f, c)
    ensures forall k :: 0 <= k < |s| ==> 2 <= s[k] < |data| + 2
    ensures Take(Concat(StoreFrom(f, data, c, bytes), s), |bytes|) == bytes
    decreases |s|
  {
    ChainMembers(f, c, s);
    assert forall k :: 0 <= k < |s| ==> s[k] in s;
    if s != [] && bytes != [] {
      var n := Min(512, |bytes|);
      var data', d := data[c - 2 := Block(bytes)], StoreFrom(f, data, c, bytes);
      ChainHeadOnce(f, c, s);
      StoreReadsBack(f, data', f[c], s[1..], bytes[n..]);
      StoreOutside(f, data', f[c], s[1..], bytes[n..], c - 2);
      assert d == StoreFrom(f, data', f[c], bytes[n..]);
      hide StoreFrom, IsChain, LinksBounded, Take;
      assert d[c - 2] == Block(bytes);
      ConcatHead(d, s);
      TakeJoin(bytes, Block(bytes), Concat(d, s[1..]));
    }
  }

  lemma ConcatHead(data: seq<Sector>, s: seq<nat>)
    requires s != [] && forall k :: 0 <= k < |s| ==> 2 <= s[k] < |data| + 2
    ensures Concat(data, s) == data[s[0] - 2] + Concat(data, s[1..])
  {
  }

  lemma TakeJoin(bytes: seq<u8>, block: Sector, rest: seq<u8>)
    requires block == Block(bytes)
    requires Take(rest, |bytes[Min(512, |bytes|)..]|) == bytes[Min(512, |bytes|)..]
    ensures Take(block + rest, |bytes|) == bytes
  {
    var n := Min(512, |bytes|);
    assert bytes == bytes[..n] + bytes[n..];
    if |bytes| <= 512 {
      assert (block + rest)[..|bytes|] == block[..n];
    } else {
      assert (block + rest)[..|bytes|] == block + rest[..|bytes| - 512];
    }
  }

  /** A file whose entry, chain and clusters are unchanged reads the same. */
  lemma SameFile(v: Volume, w: Volume, i: nat)
    requires Sane(v) && Sane(w) && Live(v.dir, i) && Live(w.dir, i) && v.dir[i] == w.dir[i]
    requires Chain(v, i) == Chain(w, i) && |v.data| == |w.data|
    requires forall c: nat :: c in Chain(v, i) && 2 <= c < |v.data| + 2 ==> v.data[c - 2] == w.data[c - 2]
    ensures FileBytes(v, i) == FileBytes(w, i)
  {
    var s := Chain(v, i);
    ChainInData(v, FirstCluster(v.dir[i]), s);
    assert forall k :: 0 <= k < |s| ==> s[k] in s;
    ConcatLocal(v.data, w.data, s);
  }

  // ---------------------------------------------------------------- one call

  /** The name byte that the driver itself reads as "deleted". */
  predicate Visible(name: Name) { To83(name)[0] != DELETED }

  lemma NewEntryKind(name: Name, first: u16, size: u32)
    ensures !IsEnd(NewEntry(name, first, size))
    ensures Occupied(NewEntry(name, first, size)) <==> Visible(name)
    ensures EntryName(NewEntry(name, first, size)) == Stored(name)
  {
    var e := NewEntry(name, first, size);
    assert e[0] == RawName(e)[0];
  }

  lemma LayFresh(f: seq<nat>, n: nat) returns (t: seq<nat>)
    requires LinksBounded(f) && 2 <= |f|
    ensures Allocated(f, AllocChain(f, n, 0, 0), FreeClusters(f), n, t, n)
  {
    assert IsChain(f, 0, []);
    t := AllocChainLays(f, f, n, 0, []);
  }

  /** Everything a write without an older file does to the volume. */
  lemma WriteFreshWorks(v: Volume, name: Name, bytes: seq<u8>) returns (t: seq<nat>)
    requires WellFormed(v) && |bytes| < 0x1_0000_0000
    ensures var r := WriteFresh(v, name, bytes);
            var w := r.volume;
            && WellFormed(w) && |w.data| == |v.data|
            && (r.outcome != Written ==> w.fat == v.fat && w.dir == v.dir)
            && (r.outcome == Written ==>
                  && FreeSlot(v.dir).Some?
                  && LaidOver(v.fat, w.fat, FirstCluster(w.dir[FreeSlot(v.dir).value]), t)
                  && |t| == ClustersNeeded(|bytes|)
                  && w.dir == v.dir[FreeSlot(v.dir).value := w.dir[FreeSlot(v.dir).value]])
            && (r.outcome == DiskFull <==> FreeClusters(v.fat) < ClustersNeeded(|bytes|))
            && (r.outcome == RootFull <==> FreeClusters(v.fat) >= ClustersNeeded(|bytes|) && FreeSlot(v.dir).None?)
  {
    t := LayFresh(v.fat, ClustersNeeded(|bytes|));
    var a := AllocChain(v.fat, ClustersNeeded(|bytes|), 0, 0);
    var r := WriteFresh(v, name, bytes);
    match r.outcome
    case DiskFull =>
      assert r.volume == v;
    case RootFull =>
      LaidOverUndone(v.fat, a.fat, a.first, t);
      SameTableWellFormed(v, r.volume);
    case Written =>
      var e := NewEntry(name, a.first, |bytes|);
      NewEntryKind(name, a.first, |bytes|);
      AddWellFormed(v, r.volume, a.first, t, FreeSlot(v.dir).value, e);
  }

  lemma SameTableWellFormed(v: Volume, w: Volume)
    requires WellFormed(v) && w.fat == v.fat && w.dir == v.dir && |w.data| == |v.data|
    ensures WellFormed(w) && SameOrphans(v, w)
    ensures forall i: nat :: Live(v.dir, i) ==> Chain(w, i) == Chain(v, i)
  {
    assert forall i: nat :: Live(v.dir, i) ==> Live(w.dir, i) && Sound(w.fat, FirstCluster(w.dir[i]));
    assert Sane(w);
    forall c: nat
      ensures InSomeChain(v, c) <==> InSomeChain(w, c)
    {
    }
  }

  /** Which names the directory answers to after a successful write. */
  lemma WriteFreshNames(v: Volume, name: Name, bytes: seq<u8>, q: seq<u8>, j: nat)
    requires WellFormed(v) && |bytes| < 0x1_0000_0000
    requires WriteFresh(v, name, bytes).outcome == Written
    ensures FreeSlot(v.dir).Some?
    ensures Named(WriteFresh(v, name, bytes).volume.dir, j, q) <==>
            Named(v.dir, j, q) || (j == FreeSlot(v.dir).value && Visible(name) && SameName(Stored(name), q))
  {
    var a := AllocChain(v.fat, ClustersNeeded(|bytes|), 0, 0);
    NewEntryKind(name, a.first, |bytes|);
    SlotLive(v.dir, FreeSlot(v.dir).value, NewEntry(name, a.first, |bytes|), j);
  }

  /** Storing along a new chain leaves the clusters of the others alone. */
  lemma StoreKeepsFile(v: Volume, f: seq<nat>, first: nat, u: seq<nat>, bytes: seq<u8>, i: nat)
    requires Sane(v) && Live(v.dir, i) && |f| == |v.data| + 2 && LinksBounded(f) && IsChain(f, first, u)
    requires Linkable(f, first) && Disjoint(Chain(v, i), u)
    ensures forall c: nat :: c in Chain(v, i) && 2 <= c < |v.data| + 2 ==>
              v.data[c - 2] == StoreFrom(f, v.data, first, bytes)[c - 2]
  {
    hide Chain, StoreFrom, IsChain;
    forall c: nat | c in Chain(v, i) && 2 <= c < |v.data| + 2
      ensures v.data[c - 2] == StoreFrom(f, v.data, first, bytes)[c - 2]
    {
      StoreOutside(f, v.data, first, u, bytes, c - 2);
    }
  }

  /** What is written along a chain of its own, with or without an entry for it, leaves the other files alone. */
  lemma FillKeepsFile(v: Volume, f: seq<nat>, first: u16, u: seq<nat>, name: Name, bytes: seq<u8>, i: nat)
    requires WellFormed(v) && Live(v.dir, i) && |bytes| < 0x1_0000_0000
    requires Shape(v.(fat := f)) && Linkable(f, first) && LaidOver(v.fat, f, first, u)
    requires var r := Fill(v.(fat := f), name, first, bytes);
             WellFormed(r.volume) && (r.outcome != Written ==> r.volume.fat == v.fat)
    ensures var w := Fill(v.(fat := f), name, first, bytes).volume;
            Live(w.dir, i) && w.dir[i] == v.dir[i] && FileBytes(w, i) == FileBytes(v, i) && Chain(w, i) == Chain(v, i)
  {
    hide FileBytes, StoreFrom, NewEntry, Chain, IsChain, FreeChain;
    var r := Fill(v.(fat := f), name, first, bytes);
    LaidKeepsChain(v, f, first, u, i);
    StoreKeepsFile(v, f, first, u, bytes, i);
    if r.outcome == RootFull {
      SameTableWellFormed(v, r.volume);
    } else {
      var e := NewEntry(name, first, |bytes|);
      NewEntryKind(name, first, |bytes|);
      AddWellFormed(v, r.volume, first, u, FreeSlot(v.dir).value, e);
    }
    SameFile(v, r.volume, i);
  }

  /** Files present before keep their bytes, whatever the outcome of the write. */
  lemma WriteFreshKeepsFile(v: Volume, name: Name, bytes: seq<u8>, i: nat)
    requires WellFormed(v) && |bytes| < 0x1_0000_0000 && Live(v.dir, i)
    ensures var w := WriteFresh(v, name, bytes).volume;
            && WellFormed(w) && Live(w.dir, i) && w.dir[i] == v.dir[i]
            && FileBytes(w, i) == FileBytes(v, i) && Chain(w, i) == Chain(v, i)
  {
    hide FileBytes, Fill, AllocChain, Chain, ClustersNeeded, WellFormed;
    var t := WriteFreshWorks(v, name, bytes);
    var r := WriteFresh(v, name, bytes);
    var a := AllocChain(v.fat, ClustersNeeded(|bytes|), 0, 0);
    if r.outcome == DiskFull {
      assert r.volume == v;
    } else {
      var u := LayFresh(v.fat, ClustersNeeded(|bytes|));
      FillKeepsFile(v, a.fat, a.first, u, name, bytes, i);
    }
  }

  /** The new entry holds exactly the bytes written. */
  lemma WriteFreshNewFile(v: Volume, name: Name, bytes: seq<u8>)
    requires WellFormed(v) && |bytes| < 0x1_0000_0000 && Visible(name)
    requires WriteFresh(v, name, bytes).outcome == Written
    ensures FreeSlot(v.dir).Some?
    ensures var w := WriteFresh(v, name, bytes).volume;
            var slot := FreeSlot(v.dir).value;
            WellFormed(w) && Live(w.dir, slot) && FileBytes(w, slot) == bytes && |Chain(w, slot)| == ClustersNeeded(|bytes|)
  {
    var a := AllocChain(v.fat, ClustersNeeded(|bytes|), 0, 0);
    var u := LayFresh(v.fat, ClustersNeeded(|bytes|));
    var w := WriteFresh(v, name, bytes).volume;
    NewEntryKind(name, a.first, |bytes|);
    AddWellFormed(v, w, a.first, u, FreeSlot(v.dir).value, NewEntry(name, a.first, |bytes|));
    StoreReadsBack(a.fat, v.data, a.first, u, bytes);
  }

  /** Contents by name is decided by the first live entry of that name. */
  lemma ContentsOfFirst(v: Volume, q: seq<u8>, r: Option<nat>)
    requires Sane(v)
    requires r.Some? ==> Named(v.dir, r.value, q)
    requires forall j: nat :: Named(v.dir, j, q) ==> r.Some? && r.value <= j
    ensures Contents(v, q) == if r.Some? then Some(FileBytes(v, r.value)) else None
  {
    FindIs(v.dir, q, r);
  }

  lemma WriteFreshIsolated(v: Volume, name: Name, bytes: seq<u8>, q: seq<u8>)
    requires WellFormed(v) && |bytes| < 0x1_0000_0000
    requires WriteFresh(v, name, bytes).outcome == Written && Visible(name) ==> !SameName(q, Stored(name))
    ensures var w := WriteFresh(v, name, bytes).volume;
            WellFormed(w) && Contents(w, q) == Contents(v, q)
  {
    var t := WriteFreshWorks(v, name, bytes);
    var r := WriteFresh(v, name, bytes);
    var f := Find(v.dir, q);
    FindFromFirst(v.dir, q, 0);
    forall j: nat
      ensures Named(r.volume.dir, j, q) <==> Named(v.dir, j, q)
    {
      if r.outcome == Written {
        WriteFreshNames(v, name, bytes, q, j);
      }
    }
    ContentsOfFirst(r.volume, q, f);
    if f.Some? {
      WriteFreshKeepsFile(v, name, bytes, f.value);
    }
  }

  lemma EraseNamedIsolated(v: Volume, name: seq<u8>, q: seq<u8>)
    requires WellFormed(v) && !SameName(q, name)
    ensures WellFormed(EraseNamed(v, name)) && Contents(EraseNamed(v, name), q) == Contents(v, q)
  {
    EraseNamedConserves(v, name);
    FindFromFirst(v.dir, name, 0);
    var w := EraseNamed(v, name);
    if Find(v.dir, name).Some? {
      var i := Find(v.dir, name).value;
      var f := Find(v.dir, q);
      FindFromFirst(v.dir, q, 0);
      forall j: nat
        ensures Named(w.dir, j, q) <==> Named(v.dir, j, q)
      {
        EraseLive(v.dir, i, j);
      }
      ContentsOfFirst(w, q, f);
      if f.Some? {
        EraseKeepsChain(v, i, f.value);
        SameFile(v, w, f.value);
      }
    }
  }

  /** fat12_write keeps the volume well formed on every path: new file, overwrite, disk full and root full. */
  lemma WriteKeepsWellFormed(v: Volume, path: Name, bytes: seq<u8>)
    requires WellFormed(v) && |bytes| < 0x1_0000_0000
    ensures WellFormed(Write(v, path, bytes).volume)
  {
    EraseNamedConserves(v, NameOf(path));
    var t := WriteFreshWorks(EraseNamed(v, NameOf(path)), NameOf(path), bytes);
  }

  /** A write leaks no cluster and reclaims none, except that a file created under a name whose first byte is
      the deletion mark 0xE5 is lost the moment it is written. */
  lemma WriteConserves(v: Volume, path: Name, bytes: seq<u8>)
    requires WellFormed(v) && |bytes| < 0x1_0000_0000
    ensures var r := Write(v, path, bytes);
            && WellFormed(r.volume)
            && (SameOrphans(v, r.volume) <==> r.outcome != Written || Visible(NameOf(path)))
  {
    var name := NameOf(path);
    EraseNamedConserves(v, name);
    var e := EraseNamed(v, name);
    var t := WriteFreshWorks(e, name, bytes);
    var r := WriteFresh(e, name, bytes);
    if r.outcome == Written {
      var a := AllocChain(e.fat, ClustersNeeded(|bytes|), 0, 0);
      NewEntryKind(name, a.first, |bytes|);
      AddConserves(e, r.volume, a.first, t, FreeSlot(e.dir).value, NewEntry(name, a.first, |bytes|));
      assert t[0] in t;
      FreeExactlyOutside(e, t[0]);
    } else {
      SameTableWellFormed(e, r.volume);
    }
  }

  /** The clusters that a file of the name holds. */
  ghost function OldLength(v: Volume, name: seq<u8>): nat
    requires Sane(v)
  {
    FindFromFirst(v.dir, name, 0);
    match Find(v.dir, name)
    case None => 0
    case Some(i) => |Chain(v, i)|
  }

  /** What erasing a name frees: its clusters, and its slot. */
  lemma EraseFrees(v: Volume, name: seq<u8>)
    requires WellFormed(v)
    ensures FreeClusters(EraseNamed(v, name).fat) == FreeClusters(v.fat) + OldLength(v, name)
    ensures FreeSlot(EraseNamed(v, name).dir).None? <==> Find(v.dir, name).None? && FreeSlot(v.dir).None?
  {
    FindFromFirst(v.dir, name, 0);
    if Find(v.dir, name).Some? {
      var i, e := Find(v.dir, name).value, EraseNamed(v, name);
      FreeClustersAfterFree(v.fat, FirstCluster(v.dir[i]), Chain(v, i));
      FreeSlotFirst(e.dir, 0);
      assert IsFreeSlot(e.dir[i]);
    }
  }

  /** The three ways a write can end, decided by what the caller can count before it: the free clusters, those of the
      file it replaces, and the free slots. */
  lemma WriteOutcome(v: Volume, path: Name, bytes: seq<u8>)
    requires WellFormed(v) && |bytes| < 0x1_0000_0000
    ensures var room := FreeClusters(v.fat) + OldLength(v, NameOf(path));
            var o := Write(v, path, bytes).outcome;
            && (o == DiskFull <==> room < ClustersNeeded(|bytes|))
            && (o == RootFull <==> room >= ClustersNeeded(|bytes|) && Find(v.dir, NameOf(path)).None? && FreeSlot(v.dir).None?)
  {
    EraseNamedConserves(v, NameOf(path));
    EraseFrees(v, NameOf(path));
    var t := WriteFreshWorks(EraseNamed(v, NameOf(path)), NameOf(path), bytes);
  }

  /** Isolation: no write, successful or failed, changes what is read under a name that is neither the one written nor
      the one it is stored under. */
  lemma WriteIsolated(v: Volume, path: Name, bytes: seq<u8>, q: seq<u8>)
    requires WellFormed(v) && |bytes| < 0x1_0000_0000
    requires !SameName(q, NameOf(path)) && !SameName(q, Stored(NameOf(path)))
    ensures WellFormed(Write(v, path, bytes).volume)
    ensures Contents(Write(v, path, bytes).volume, q) == Contents(v, q)
  {
    EraseNamedIsolated(v, NameOf(path), q);
    WriteFreshIsolated(EraseNamed(v, NameOf(path)), NameOf(path), bytes, q);
  }

  /** A name under which the written file is found: its stored name, if no file of that name that the write left stands
      further in front in the directory. */
  ghost predicate Answers(v: Volume, path: Name, bytes: seq<u8>, q: seq<u8>)
    requires Sane(v) && |bytes| < 0x1_0000_0000
  {
    && Write(v, path, bytes).outcome == Written && Visible(NameOf(path)) && SameName(q, Stored(NameOf(path)))
    && !FoundBefore(EraseNamed(v, NameOf(path)), q)
  }

  /** A file of name q stands in front of the first free slot. */
  ghost predicate FoundBefore(v: Volume, q: seq<u8>)
  {
    Find(v.dir, q).Some? && FreeSlot(v.dir).Some? && Find(v.dir, q).value < FreeSlot(v.dir).value
  }

  /** What every name holds after a write: the new bytes where the new entry answers, and otherwise what the deletion
      of the older file has left there: nothing under the name given if it was the only one, else what it held. */
  lemma WriteContents(v: Volume, path: Name, bytes: seq<u8>, q: seq<u8>)
    requires WellFormed(v) && |bytes| < 0x1_0000_0000
    ensures WellFormed(Write(v, path, bytes).volume) && WellFormed(EraseNamed(v, NameOf(path)))
    ensures Contents(Write(v, path, bytes).volume, q) ==
            if Answers(v, path, bytes, q) then Some(bytes) else Contents(EraseNamed(v, NameOf(path)), q)
    ensures !SameName(q, NameOf(path)) ==> Contents(EraseNamed(v, NameOf(path)), q) == Contents(v, q)
    ensures SameName(q, NameOf(path)) ==>
              (Contents(EraseNamed(v, NameOf(path)), q) == None <==> OneAtMost(v, NameOf(path)))
  {
    var name := NameOf(path);
    var e, r := EraseNamed(v, name), Write(v, path, bytes);
    WriteKeepsWellFormed(v, path, bytes);
    EraseNamedConserves(v, name);
    if SameName(q, name) {
      GoneIff(v, name, q);
    } else {
      EraseNamedIsolated(v, name, q);
    }
    if r.outcome == Written && Visible(name) && SameName(q, Stored(name)) {
      WriteFreshAnswers(e, name, bytes, q);
    } else {
      WriteFreshIsolated(e, name, bytes, q);
    }
  }

  /** No two files of the directory have the name. */
  ghost predicate OneAtMost(v: Volume, name: seq<u8>)
  {
    forall i: nat, j: nat :: Named(v.dir, i, name) && Named(v.dir, j, name) ==> i == j
  }

  lemma UniqueIsOne(v: Volume, name: seq<u8>)
    requires UniqueNames(v)
    ensures OneAtMost(v, name)
  {
    forall i: nat, j: nat | Named(v.dir, i, name) && Named(v.dir, j, name) ensures i == j {
      assert SameName(EntryName(v.dir[i]), EntryName(v.dir[j]));
    }
  }

  /** Deleting a name leaves nothing under it exactly if it stood there once at most. */
  lemma GoneIff(v: Volume, name: seq<u8>, q: seq<u8>)
    requires WellFormed(v) && SameName(q, name)
    ensures WellFormed(EraseNamed(v, name))
    ensures Contents(EraseNamed(v, name), q) == None <==> OneAtMost(v, name)
  {
    EraseNamedConserves(v, name);
    FindFromFirst(v.dir, name, 0);
    var w := EraseNamed(v, name);
    var f := Find(v.dir, name);
    forall j: nat
      ensures Named(w.dir, j, q) <==> Named(v.dir, j, name) && f != Some(j)
    {
      if f.Some? {
        EraseLive(v.dir, f.value, j);
      }
    }
    FindFromFirst(w.dir, q, 0);
    if Find(w.dir, q).Some? {
      assert Named(v.dir, Find(w.dir, q).value, name) && f.Some? && Named(v.dir, f.value, name);
    } else {
      assert forall j: nat :: Named(v.dir, j, name) ==> f == Some(j);
    }
  }

  /** Erasing one name does not move the first file of another. */
  lemma FindAfterErase(v: Volume, name: seq<u8>, q: seq<u8>)
    requires WellFormed(v) && !SameName(q, name)
    ensures Find(EraseNamed(v, name).dir, q) == Find(v.dir, q)
  {
    FindFromFirst(v.dir, name, 0);
    FindFromFirst(v.dir, q, 0);
    if Find(v.dir, name).Some? {
      forall j: nat
        ensures Named(EraseNamed(v, name).dir, j, q) <==> Named(v.dir, j, q)
      {
        EraseLive(v.dir, Find(v.dir, name).value, j);
      }
      FindIs(EraseNamed(v, name).dir, q, Find(v.dir, q));
    }
  }

  /** The new entry answers to its stored name unless an entry of that name stands before it. */
  lemma WriteFreshAnswers(v: Volume, name: Name, bytes: seq<u8>, q: seq<u8>)
    requires WellFormed(v) && |bytes| < 0x1_0000_0000
    requires WriteFresh(v, name, bytes).outcome == Written && Visible(name) && SameName(q, Stored(name))
    ensures FreeSlot(v.dir).Some? && WellFormed(WriteFresh(v, name, bytes).volume)
    ensures Contents(WriteFresh(v, name, bytes).volume, q) ==
            if FoundBefore(v, q) then Contents(v, q) else Some(bytes)
  {
    var w := WriteFresh(v, name, bytes).volume;
    var f := Find(v.dir, q);
    WriteFreshNewFile(v, name, bytes);
    FindFromFirst(v.dir, q, 0);
    var slot := FreeSlot(v.dir).value;
    forall j: nat
      ensures Named(w.dir, j, q) <==> Named(v.dir, j, q) || j == slot
    {
      WriteFreshNames(v, name, bytes, q, j);
    }
    if f.Some? && f.value < slot {
      ContentsOfFirst(w, q, f);
      WriteFreshKeepsFile(v, name, bytes, f.value);
    } else {
      ContentsOfFirst(w, q, Some(slot));
    }
  }

  /** Round trip: a name that fits the 8.3 field reads back, in any letter case, exactly the bytes written. */
  lemma WriteReadsBack(v: Volume, path: Name, bytes: seq<u8>, q: seq<u8>)
    requires WellFormed(v) && |bytes| < 0x1_0000_0000
    requires Fits83(NameOf(path)) && Visible(NameOf(path)) && SameName(q, NameOf(path))
    requires Write(v, path, bytes).outcome == Written
    ensures WellFormed(Write(v, path, bytes).volume)
    ensures Contents(Write(v, path, bytes).volume, q) == Some(bytes)
    ensures forall cap: nat :: ReadBytes(Write(v, path, bytes).volume, q, cap) == Take(bytes, cap)
  {
    var name := NameOf(path);
    EraseNamedConserves(v, name);
    FindFromFirst(v.dir, name, 0);
    StoredMatchesIff(name);
    var e := EraseNamed(v, name);
    var slot := FreeSlot(e.dir).value;
    WriteFreshNewFile(e, name, bytes);
    var w := Write(v, path, bytes).volume;
    forall j: nat | Named(w.dir, j, q)
      ensures slot <= j
    {
      WriteFreshNames(e, name, bytes, q, j);
      if Named(e.dir, j, q) {
        FirstNamedErased(v, name, q, j);
      }
    }
    WriteFreshNames(e, name, bytes, q, slot);
    ContentsOfFirst(w, q, Some(slot));
  }

  /** One slash in front of a name makes no difference to any operation. */
  lemma SlashIgnored(v: Volume, name: Name, bytes: seq<u8>, cap: nat)
    requires Sane(v) && |bytes| < 0x1_0000_0000 && (name == [] || name[0] != 0x2F)
    ensures Write(v, [0x2F] + name, bytes) == Write(v, name, bytes)
    ensures Delete(v, [0x2F] + name) == Delete(v, name)
    ensures ReadPath(v, [0x2F] + name, cap) == ReadPath(v, name, cap) == ReadBytes(v, name, cap)
  {
    DenotesIff(name, name);
    DenotesIff([0x2F] + name, name);
  }

  /** Round trip by path: with or without a slash on either side, in any letter case. */
  lemma PathReadsBack(v: Volume, path: Name, name: Name, bytes: seq<u8>, query: Name, other: Name, cap: nat)
    requires WellFormed(v) && |bytes| < 0x1_0000_0000
    requires Denotes(path, name) && Denotes(query, other)
    requires Fits83(name) && Visible(name) && SameName(other, name)
    requires Write(v, path, bytes).outcome == Written
    ensures WellFormed(Write(v, path, bytes).volume)
    ensures ReadPath(Write(v, path, bytes).volume, query, cap) == Take(bytes, cap)
  {
    DenotesIff(path, name);
    DenotesIff(query, other);
    WriteReadsBack(v, path, bytes, other);
  }

  /** Entries of the erased name that remain lie behind the erased slot, which is free now. */
  lemma FirstNamedErased(v: Volume, name: seq<u8>, q: seq<u8>, j: nat)
    requires WellFormed(v) && SameName(q, name)
    requires Named(EraseNamed(v, name).dir, j, q)
    ensures Find(v.dir, name).Some? && FreeSlot(EraseNamed(v, name).dir).Some?
    ensures FreeSlot(EraseNamed(v, name).dir).value < j
  {
    FindFromFirst(v.dir, name, 0);
    if Find(v.dir, name).Some? {
      var i := Find(v.dir, name).value;
      EraseLive(v.dir, i, j);
      assert Named(v.dir, j, name);
      FreeSlotFirst(EraseNamed(v, name).dir, 0);
      assert IsFreeSlot(EraseNamed(v, name).dir[i]);
    } else {
      assert Named(v.dir, j, name);
    }
  }

  // ---------------------------------------------------------------- unique names

  lemma UniqueAfterErase(v: Volume, name: seq<u8>)
    requires WellFormed(v) && UniqueNames(v)
    ensures UniqueNames(EraseNamed(v, name))
    ensures forall j: nat :: !Named(EraseNamed(v, name).dir, j, name)
  {
    FindFromFirst(v.dir, name, 0);
    var w := EraseNamed(v, name);
    if Find(v.dir, name).Some? {
      var i := Find(v.dir, name).value;
      forall j: nat
        ensures Live(w.dir, j) <==> Live(v.dir, j) && j != i
      {
        EraseLive(v.dir, i, j);
      }
    }
  }

  /** The live entries after a write: those that were left by the erasure, and the new one. */
  lemma WriteLive(v: Volume, path: Name, bytes: seq<u8>, j: nat)
    requires WellFormed(v) && |bytes| < 0x1_0000_0000
    ensures var e, r := EraseNamed(v, NameOf(path)), Write(v, path, bytes);
            && WellFormed(e) && (r.outcome == Written ==> FreeSlot(e.dir).Some?)
            && (Live(r.volume.dir, j) <==>
                Live(e.dir, j) || (r.outcome == Written && j == FreeSlot(e.dir).value && Visible(NameOf(path))))
            && (Live(e.dir, j) ==> r.volume.dir[j] == e.dir[j])
            && (r.outcome == Written && j == FreeSlot(e.dir).value ==>
                  !Live(e.dir, j) && EntryName(r.volume.dir[j]) == Stored(NameOf(path)))
  {
    var name := NameOf(path);
    EraseNamedConserves(v, name);
    var e := EraseNamed(v, name);
    var t := WriteFreshWorks(e, name, bytes);
    if Write(v, path, bytes).outcome == Written {
      var a := AllocChain(e.fat, ClustersNeeded(|bytes|), 0, 0);
      var slot, entry := FreeSlot(e.dir).value, NewEntry(name, a.first, |bytes|);
      NewEntryKind(name, a.first, |bytes|);
      SlotLive(e.dir, slot, entry, j);
    }
  }

  /** No file carries the name that the written file will be stored under; a file of the written name itself does not
      count, since the write replaces it. */
  ghost predicate StoredNameFree(v: Volume, name: Name)
  {
    Fits83(name) || Find(v.dir, Stored(name)).None?
  }

  /** Names stay unique exactly when the write fails, the new entry is lost at once, or its stored name was free. */
  lemma WriteKeepsUniqueIff(v: Volume, path: Name, bytes: seq<u8>)
    requires WellFormed(v) && |bytes| < 0x1_0000_0000 && UniqueNames(v)
    ensures UniqueNames(Write(v, path, bytes).volume) <==>
            Write(v, path, bytes).outcome != Written || !Visible(NameOf(path)) || StoredNameFree(v, NameOf(path))
  {
    var name := NameOf(path);
    UniqueAfterErase(v, name);
    var e, r := EraseNamed(v, name), Write(v, path, bytes);
    forall j: nat ensures Live(r.volume.dir, j) <==>
        Live(e.dir, j) || (r.outcome == Written && FreeSlot(e.dir) == Some(j) && Visible(name))
      ensures Live(e.dir, j) ==> r.volume.dir[j] == e.dir[j]
    {
      WriteLive(v, path, bytes, j);
    }
    if r.outcome == Written && Visible(name) {
      var slot := FreeSlot(e.dir).value;
      WriteLive(v, path, bytes, slot);
      TwinIff(v, name);
      if StoredNameFree(v, name) {
        assert forall j: nat :: Live(e.dir, j) ==> !Named(e.dir, j, Stored(name));
      } else {
        var j: nat :| Named(e.dir, j, Stored(name));
        assert Live(r.volume.dir, j) && Live(r.volume.dir, slot) && j != slot;
      }
    }
  }

  /** What is left after the erasure holds a twin of the stored name exactly when that name was not free. */
  lemma TwinIff(v: Volume, name: Name)
    requires WellFormed(v) && UniqueNames(v)
    ensures StoredNameFree(v, name) <==> forall j: nat :: !Named(EraseNamed(v, name).dir, j, Stored(name))
  {
    var e, q := EraseNamed(v, name), Stored(name);
    StoredMatchesIff(name);
    UniqueAfterErase(v, name);
    if Fits83(name) {
      assert forall j: nat :: Named(e.dir, j, q) ==> Named(e.dir, j, name);
    } else {
      FindAfterErase(v, name, q);
      FindFromFirst(e.dir, q, 0);
    }
  }

  /** After a successful write something is found under the name exactly when it fits the 8.3 field and does not begin
      with the deletion mark, or stood in the directory twice; otherwise the file is on disk under a cut name, or under
      none. */
  lemma WrittenNameFoundIff(v: Volume, path: Name, bytes: seq<u8>)
    requires WellFormed(v) && |bytes| < 0x1_0000_0000
    requires Write(v, path, bytes).outcome == Written
    ensures WellFormed(Write(v, path, bytes).volume)
    ensures Contents(Write(v, path, bytes).volume, NameOf(path)).Some? <==>
            (Fits83(NameOf(path)) && Visible(NameOf(path))) || !OneAtMost(v, NameOf(path))
  {
    var name := NameOf(path);
    WriteKeepsWellFormed(v, path, bytes);
    StoredMatchesIff(name);
    if Fits83(name) && Visible(name) {
      WriteReadsBack(v, path, bytes, name);
    } else {
      WriteContents(v, path, bytes, name);
    }
  }

  // ---------------------------------------------------------------- a write cut short

  /** What a mount finds after a write that failed: the directory without the old entry, and the table as it was. */
  ghost predicate LeftOnDisk(v: Volume, name: seq<u8>, m: Volume)
    requires Sane(v)
  {
    m.fat == v.fat && m.dir == EraseNamed(v, name).dir && |m.data| == |v.data|
  }

  /** The volume after a failed write is the one without the old file, but for the contents of free clusters. */
  lemma FailedWriteParts(v: Volume, path: Name, bytes: seq<u8>)
    requires WellFormed(v) && |bytes| < 0x1_0000_0000 && Write(v, path, bytes).outcome != Written
    ensures WellFormed(EraseNamed(v, NameOf(path)))
    ensures var e, w := EraseNamed(v, NameOf(path)), Write(v, path, bytes).volume;
            w.fat == e.fat && w.dir == e.dir && |w.data| == |e.data| == |v.data| && |e.fat| == |v.fat|
  {
    EraseNamedConserves(v, NameOf(path));
    var t := WriteFreshWorks(EraseNamed(v, NameOf(path)), NameOf(path), bytes);
  }

  /** Such a volume is well formed, and it has leaked exactly the clusters of the file that was to be replaced. */
  lemma FailedWriteOnDisk(v: Volume, name: seq<u8>, m: Volume)
    requires WellFormed(v) && LeftOnDisk(v, name, m)
    ensures WellFormed(m)
    ensures SameOrphans(v, m) <==> OldLength(v, name) == 0
    ensures Find(v.dir, name).Some? ==>
              Live(v.dir, Find(v.dir, name).value) &&
              forall c: nat :: Orphan(m, c) <==> Orphan(v, c) || c in Chain(v, Find(v.dir, name).value)
  {
    FindFromFirst(v.dir, name, 0);
    if Find(v.dir, name).None? {
      SameTableWellFormed(v, m);
    } else {
      LeftWellFormed(v, name, m);
      var i := Find(v.dir, name).value;
      forall c: nat
        ensures Orphan(m, c) <==> Orphan(v, c) || c in Chain(v, i)
      {
        LeftOrphan(v, name, m, c);
      }
      if OldLength(v, name) > 0 {
        var c := Chain(v, i)[0];
        assert c in Chain(v, i);
        assert Orphan(m, c) && !Orphan(v, c);
      }
    }
  }

  lemma LeftLive(v: Volume, name: seq<u8>, m: Volume, j: nat)
    requires WellFormed(v) && LeftOnDisk(v, name, m) && Find(v.dir, name).Some?
    ensures Live(m.dir, j) <==> Live(v.dir, j) && j != Find(v.dir, name).value
    ensures Live(m.dir, j) ==> m.dir[j] == v.dir[j]
  {
    FindFromFirst(v.dir, name, 0);
    EraseLive(v.dir, Find(v.dir, name).value, j);
  }

  lemma LeftWellFormed(v: Volume, name: seq<u8>, m: Volume)
    requires WellFormed(v) && LeftOnDisk(v, name, m) && Find(v.dir, name).Some?
    ensures WellFormed(m)
    ensures forall j: nat :: Live(m.dir, j) ==> Live(v.dir, j) && Chain(m, j) == Chain(v, j)
  {
    EraseNamedConserves(v, name);
    forall j: nat | Live(m.dir, j)
      ensures Live(v.dir, j) && m.dir[j] == v.dir[j]
    {
      LeftLive(v, name, m, j);
    }
    assert Sane(m);
  }

  /** No file left over owns a cluster of the file that is gone. */
  lemma NotLeft(v: Volume, name: seq<u8>, m: Volume, i: nat, c: nat)
    requires WellFormed(v) && WellFormed(m) && LeftOnDisk(v, name, m) && Find(v.dir, name) == Some(i)
    requires Live(v.dir, i) && c in Chain(v, i)
    ensures !InSomeChain(m, c)
  {
    forall k: nat | Live(m.dir, k) ensures c !in Chain(m, k) {
      LeftLive(v, name, m, k);
      assert Disjoint(Chain(v, k), Chain(v, i));
    }
  }

  lemma LeftOrphan(v: Volume, name: seq<u8>, m: Volume, c: nat)
    requires WellFormed(v) && LeftOnDisk(v, name, m) && Find(v.dir, name).Some?
    ensures WellFormed(m) && Live(v.dir, Find(v.dir, name).value)
    ensures Orphan(m, c) <==> Orphan(v, c) || c in Chain(v, Find(v.dir, name).value)
  {
    LeftWellFormed(v, name, m);
    FindFromFirst(v.dir, name, 0);
    var i := Find(v.dir, name).value;
    ChainMembers(v.fat, FirstCluster(v.dir[i]), Chain(v, i));
    if InSomeChain(v, c) {
      var j: nat :| Live(v.dir, j) && c in Chain(v, j);
      LeftLive(v, name, m, j);
      if j == i {
        NotLeft(v, name, m, i, c);
      }
    }
    if InSomeChain(m, c) {
      var k: nat :| Live(m.dir, k) && c in Chain(m, k);
      LeftLive(v, name, m, k);
      assert Live(v.dir, k) && c in Chain(v, k);
      assert Disjoint(Chain(v, k), Chain(v, i));
    }
  }
}
