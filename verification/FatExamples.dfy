/** Volumes on which the FAT12 driver does what its callers may not expect. */
module FatExamples {
  import opened Bytes
  import opened FatNames
  import opened FatChains
  import opened FatVolume
  import opened FatTheorems

  const A: Name := [0x41]

  /** A with an empty extension. */
  const A_DOT: Name := [0x41, 0x2E]

  /** Three clusters, of which an empty file A holds the first; its entry stands behind a deleted one. */
  function Small(): Volume
  {
    Volume([0xFF8, 0xFFF, 0xFFF, 0, 0], [Zeros(32)[0 := DELETED], NewEntry(A, 2, 0), Zeros(32)], seq(3, _ => Zeros(512)))
  }

  /** The two names differ and have one stored form, which only the first fits. */
  lemma OneStoredForm()
    ensures Stored(A) == A && Stored(A_DOT) == A && !SameName(A, A_DOT) && Fits83(A) && !Fits83(A_DOT)
    ensures Visible(A) && Visible(A_DOT) && NameOf(A) == A && NameOf(A_DOT) == A_DOT
  {
    StoredIsUpper(A);
    assert FirstDot(A_DOT) == 1 by {
      assert A_DOT[1..] == [0x2E];
    }
    assert Base(A_DOT) == A && Ext(A_DOT) == [] && Base(A) == A && Ext(A) == [];
    assert UpperAll(A) == A;
    assert |UpperAll(A)| == 1 && |UpperAll(A_DOT)| == 2;
    assert To83(A)[0] == 0x41 && To83(A_DOT)[0] == 0x41;
  }

  lemma SmallDir()
    ensures var v := Small();
            && |v.dir| == 3 && IsDeleted(v.dir[0]) && v.dir[1] == NewEntry(A, 2, 0) && IsEnd(v.dir[2])
            && |v.fat| == 5 && |v.data| == 3
  {
  }

  lemma SmallLive(j: nat)
    ensures |Small().dir| == 3 && EntryName(Small().dir[1]) == A
    ensures Live(Small().dir, j) <==> j == 1
  {
    SmallDir();
    OneStoredForm();
    NewEntryKind(A, 2, 0);
    hide Small, NewEntry, EntryName;
  }

  lemma SmallChain()
    ensures IsChain(Small().fat, 2, [2]) && LinksBounded(Small().fat) && FreeClusters(Small().fat) == 2
  {
    var f := Small().fat;
    assert f[2] == 0xFFF;
    assert IsChain(f, 0xFFF, []);
    assert f[2..] == [0xFFF, 0, 0];
    assert NonZeros([0xFFF, 0, 0]) == 1 + NonZeros([0, 0]) && NonZeros([0, 0]) == NonZeros([0]) && NonZeros([0]) == 0 by {
      assert [0xFFF, 0, 0][1..] == [0, 0] && [0, 0][1..] == [0] && [0][1..] == [];
    }
  }

  lemma SameAsItself(a: seq<u8>)
    ensures SameName(a, a)
  {
  }

  lemma NotSameName(a: seq<u8>, b: seq<u8>)
    requires |a| != |b|
    ensures !SameName(a, b)
  {
    assert |UpperAll(a)| == |a| && |UpperAll(b)| == |b|;
  }

  lemma SmallFinds()
    ensures Find(Small().dir, A) == Some(1) && Find(Small().dir, A_DOT) == None && FreeSlot(Small().dir) == Some(0)
  {
    hide Live, Small, Stored, NewEntry, SameName;
    var dir := Small().dir;
    SmallDir();
    OneStoredForm();
    forall j: nat ensures Live(dir, j) <==> j == 1 {
      SmallLive(j);
    }
    SmallLive(1);
    SameAsItself(A);
    NotSameName(EntryName(dir[1]), A_DOT);
    assert Named(dir, 1, A) && forall j: nat :: Named(dir, j, A) ==> j == 1;
    FindIs(dir, A, Some(1));
    assert forall j: nat :: !Named(dir, j, A_DOT);
    FindIs(dir, A_DOT, None);
  }

  lemma SmallWellFormed()
    ensures WellFormed(Small()) && UniqueNames(Small())
    ensures OldLength(Small(), A) == 1 && OldLength(Small(), A_DOT) == 0
    ensures Contents(Small(), A) == Some([])
  {
    var v := Small();
    SmallChain();
    SmallFinds();
    forall j: nat ensures Live(v.dir, j) <==> j == 1 {
      SmallLive(j);
    }
    NewEntryKind(A, 2, 0);
    hide Live, FindFrom;
    assert Sane(v);
    ChainUnique(v.fat, 2, [2], Chain(v, 1));
    assert FileBytes(v, 1) == [];
  }

  /** Writing A. beside A succeeds, gives the directory two entries of one name, and takes over what A reads as. */
  lemma DottedNameDuplicates(bytes: seq<u8>)
    requires 1 <= |bytes| <= 1024
    ensures WellFormed(Small()) && UniqueNames(Small()) && Contents(Small(), A) == Some([]) && !SameName(A, A_DOT)
    ensures var r := Write(Small(), A_DOT, bytes);
            && r.outcome == Written && WellFormed(r.volume)
            && !UniqueNames(r.volume) && Contents(r.volume, A) == Some(bytes)
  {
    OneStoredForm();
    SmallWellFormed();
    SmallChain();
    SmallFinds();
    SameAsItself(A);
    assert EraseNamed(Small(), A_DOT) == Small();
    hide Small, NameOf, WellFormed, UniqueNames, Contents, Stored, Fits83, Visible, SameName, Find, FreeSlot, Write,
         OneAtMost;
    WriteOutcome(Small(), A_DOT, bytes);
    WriteKeepsUniqueIff(Small(), A_DOT, bytes);
    WriteContents(Small(), A_DOT, bytes, A);
  }

  /** A name that begins with the deletion mark. */
  const LOST: Name := [0xE5]

  lemma LostForm()
    ensures !Visible(LOST) && NameOf(LOST) == LOST && !SameName(A, LOST)
  {
    assert FirstDot(LOST) == 1;
    assert Base(LOST) == LOST;
    assert UpperAll(LOST)[0] == 0xE5 && UpperAll(A)[0] == 0x41;
  }

  /** A file written under such a name is reported as done, is not there, and its clusters are lost. */
  lemma DeletedNameLeaks(bytes: seq<u8>)
    requires 1 <= |bytes| <= 1024
    ensures WellFormed(Small())
    ensures var r := Write(Small(), LOST, bytes);
            && r.outcome == Written && WellFormed(r.volume)
            && Contents(r.volume, LOST) == None && !SameOrphans(Small(), r.volume)
  {
    LostForm();
    SmallWellFormed();
    SmallChain();
    SmallFinds();
    SmallFindsNot(LOST);
    UniqueIsOne(Small(), LOST);
    hide Small, NameOf, WellFormed, UniqueNames, Contents, Stored, Fits83, Visible, SameName, Find, FreeSlot, Write,
         OneAtMost, SameOrphans;
    NoOldLength(Small(), LOST);
    WriteOutcome(Small(), LOST, bytes);
    WriteConserves(Small(), LOST, bytes);
    WrittenNameFoundIff(Small(), LOST, bytes);
  }

  lemma NoOldLength(v: Volume, name: Name)
    requires Sane(v) && Find(v.dir, name) == None
    ensures OldLength(v, name) == 0
  {
  }

  lemma SmallFindsNot(name: Name)
    requires !SameName(A, name)
    ensures Find(Small().dir, name) == None
  {
    hide Live, Small, Stored, NewEntry, SameName;
    var dir := Small().dir;
    forall j: nat ensures Live(dir, j) <==> j == 1 {
      SmallLive(j);
    }
    SmallLive(1);
    assert forall j: nat :: !Named(dir, j, name);
    FindIs(dir, name, None);
  }

  /** Overwriting A with more than fits fails, and A is gone. */
  lemma FailedOverwriteLosesA(bytes: seq<u8>)
    requires 1537 <= |bytes| < 0x1_0000_0000
    ensures WellFormed(Small()) && Contents(Small(), A).Some?
    ensures var r := Write(Small(), A, bytes);
            r.outcome == DiskFull && WellFormed(r.volume) && Contents(r.volume, A) == None
  {
    OneStoredForm();
    SmallWellFormed();
    SmallChain();
    SmallFinds();
    SameAsItself(A);
    UniqueIsOne(Small(), A);
    hide Small, NameOf, WellFormed, UniqueNames, Contents, Stored, Fits83, Visible, SameName, Find, FreeSlot, Write,
         OneAtMost;
    WriteOutcome(Small(), A, bytes);
    WriteContents(Small(), A, bytes, A);
  }

  /** On a directory with an entry behind its end mark, a write that takes the end mark's slot brings that entry back. */
  lemma StaleSlotRevived(v: Volume, name: Name, bytes: seq<u8>)
    requires Shape(v) && |bytes| < 0x1_0000_0000 && WriteFresh(v, name, bytes).outcome == Written
    requires var slot := FreeSlot(v.dir).value;
             IsEnd(v.dir[slot]) && slot + 1 < |v.dir| && Occupied(v.dir[slot + 1])
    ensures var j := FreeSlot(v.dir).value + 1;
            !Live(v.dir, j) && Live(WriteFresh(v, name, bytes).volume.dir, j)
  {
    FreeSlotFirst(v.dir, 0);
    var a := AllocChain(v.fat, ClustersNeeded(|bytes|), 0, 0);
    NewEntryKind(name, a.first, |bytes|);
  }
}
