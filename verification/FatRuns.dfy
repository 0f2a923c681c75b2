/** Any run of FAT12 writes and deletes refines a plain map from names to bytes. */
module FatRuns {
  import opened Bytes
  import opened FatNames
  import opened FatVolume
  import opened FatTheorems

  /** A deleted name is gone exactly if it stood in the directory once at most; other names and all cluster accounting
      are as before. */
  lemma DeleteRemoves(v: Volume, path: Name, q: seq<u8>)
    requires WellFormed(v)
    ensures var w := Delete(v, path);
            && WellFormed(w) && SameOrphans(v, w) && (UniqueNames(v) ==> UniqueNames(w))
            && (!SameName(q, NameOf(path)) ==> Contents(w, q) == Contents(v, q))
            && (SameName(q, NameOf(path)) ==> (Contents(w, q) == None <==> OneAtMost(v, NameOf(path))))
  {
    var name := NameOf(path);
    EraseNamedConserves(v, name);
    if UniqueNames(v) {
      UniqueAfterErase(v, name);
    }
    if SameName(q, name) {
      GoneIff(v, name, q);
    } else {
      EraseNamedIsolated(v, name, q);
    }
  }

  /** A delete writes one byte of the directory, the first of the entry found, and no data. */
  lemma DeleteMarks(v: Volume, path: Name)
    requires Sane(v)
    ensures var w, r := Delete(v, path), Find(v.dir, NameOf(path));
            && w.data == v.data
            && (r.None? ==> w == v)
            && (r.Some? ==>
                  && r.value < |v.dir| == |w.dir|
                  && w.dir[r.value][0] == 0xE5 && w.dir[r.value][1..] == v.dir[r.value][1..]
                  && forall j :: 0 <= j < |v.dir| && j != r.value ==> w.dir[j] == v.dir[j])
  {
    FindFromFirst(v.dir, NameOf(path), 0);
  }

  /** A write that fails has already deleted the older file of that name: the first one, if there are two. */
  lemma FailedWriteLosesOldFile(v: Volume, path: Name, bytes: seq<u8>, q: seq<u8>)
    requires WellFormed(v) && |bytes| < 0x1_0000_0000
    requires Write(v, path, bytes).outcome != Written && SameName(q, NameOf(path))
    ensures WellFormed(Write(v, path, bytes).volume)
    ensures Contents(Write(v, path, bytes).volume, q) == None <==> OneAtMost(v, NameOf(path))
  {
    WriteContents(v, path, bytes, q);
  }

  datatype Op = WriteOp(path: Name, bytes: seq<u8>) | DeleteOp(path: Name)

  /** Sizes are 32-bit numbers. */
  predicate Sized(op: Op) { op.WriteOp? ==> |op.bytes| < 0x1_0000_0000 }

  ghost function Step(v: Volume, op: Op): Volume
    requires Sane(v) && Sized(op)
  {
    match op
    case WriteOp(path, bytes) => Write(v, path, bytes).volume
    case DeleteOp(path) => Delete(v, path)
  }

  // ---------------------------------------------------------------- every run

  /** The volume after a run, skipping nothing: failures are steps too, and any name may be given. */
  ghost predicate RunsTo(v: Volume, ops: seq<Op>, w: Volume)
    decreases |ops|
  {
    if ops == [] then w == v
    else Sane(v) && Sized(ops[0]) && RunsTo(Step(v, ops[0]), ops[1..], w)
  }

  /** No write of the run puts an entry under a name that reads as deleted. */
  predicate AllVisible(ops: seq<Op>)
  {
    forall k :: 0 <= k < |ops| && ops[k].WriteOp? ==> Visible(NameOf(ops[k].path))
  }

  lemma StepKeepsWellFormed(v: Volume, op: Op)
    requires WellFormed(v) && Sized(op)
    ensures WellFormed(Step(v, op))
    ensures (op.WriteOp? ==> Visible(NameOf(op.path))) ==> SameOrphans(v, Step(v, op))
  {
    match op
    case DeleteOp(path) => EraseNamedConserves(v, NameOf(path));
    case WriteOp(path, bytes) => WriteConserves(v, path, bytes);
  }

  /** Over every run, whatever names it is given and whichever calls fail, live chains stay end-marked and disjoint; and
      no cluster leaks as long as no written name begins with the deletion mark. */
  lemma {:induction false} RunKeepsWellFormed(v: Volume, ops: seq<Op>, w: Volume)
    requires WellFormed(v) && RunsTo(v, ops, w)
    ensures WellFormed(w)
    ensures AllVisible(ops) ==> SameOrphans(v, w)
    decreases |ops|
  {
    if ops != [] {
      StepKeepsWellFormed(v, ops[0]);
      RunKeepsWellFormed(Step(v, ops[0]), ops[1..], w);
      if AllVisible(ops) {
        assert forall k :: 0 <= k < |ops[1..]| ==> ops[1..][k] == ops[k + 1];
        assert AllVisible(ops[1..]);
      }
    }
  }

  // ---------------------------------------------------------------- runs on a map

  /** The operation deletes, or fails, or writes a name that fits, that is lost at once, or whose stored form is free. */
  ghost predicate Proper(v: Volume, op: Op)
    requires Sane(v) && Sized(op)
  {
    op.WriteOp? ==>
      || Write(v, op.path, op.bytes).outcome != Written
      || !Visible(NameOf(op.path)) || StoredNameFree(v, NameOf(op.path))
  }

  /** Those are all the operations that keep names unique. */
  lemma StepUniqueIff(v: Volume, op: Op)
    requires WellFormed(v) && UniqueNames(v) && Sized(op)
    ensures WellFormed(Step(v, op))
    ensures UniqueNames(Step(v, op)) <==> Proper(v, op)
  {
    StepKeepsWellFormed(v, op);
    match op
    case DeleteOp(path) => UniqueAfterErase(v, NameOf(path));
    case WriteOp(path, bytes) => WriteKeepsUniqueIff(v, path, bytes);
  }

  /** What name q holds after op, given what it held before. A written file is found under its stored name. */
  ghost function Expected(v: Volume, op: Op, q: seq<u8>, before: Option<seq<u8>>): Option<seq<u8>>
    requires Sane(v) && Sized(op)
  {
    var name := NameOf(op.path);
    if op.WriteOp? && Write(v, op.path, op.bytes).outcome == Written && Visible(name) && SameName(q, Stored(name)) then
      Some(op.bytes)
    else if SameName(q, name) then None
    else before
  }

  lemma StepRefines(v: Volume, op: Op, q: seq<u8>)
    requires WellFormed(v) && UniqueNames(v) && Sized(op) && Proper(v, op)
    ensures WellFormed(Step(v, op)) && UniqueNames(Step(v, op))
    ensures Contents(Step(v, op), q) == Expected(v, op, q, Contents(v, q))
  {
    StepUniqueIff(v, op);
    UniqueIsOne(v, NameOf(op.path));
    match op
    case DeleteOp(path) =>
      DeleteRemoves(v, path, q);
    case WriteOp(path, bytes) =>
      WriteContents(v, path, bytes, q);
      if Write(v, path, bytes).outcome == Written && Visible(NameOf(path)) && SameName(q, Stored(NameOf(path))) {
        NoTwin(v, NameOf(path), q);
      }
  }

  /** Where the stored name was free, no other file answers to it. */
  lemma NoTwin(v: Volume, name: Name, q: seq<u8>)
    requires WellFormed(v) && UniqueNames(v) && StoredNameFree(v, name) && SameName(q, Stored(name))
    ensures Find(EraseNamed(v, name).dir, q).None?
  {
    TwinIff(v, name);
    var e := EraseNamed(v, name);
    FindFromFirst(e.dir, q, 0);
    assert forall j: nat :: Named(e.dir, j, q) ==> Named(e.dir, j, Stored(name));
  }

  /** A run of such operations, and where it ends. */
  ghost predicate ProperRun(v: Volume, ops: seq<Op>, w: Volume)
    decreases |ops|
  {
    if ops == [] then w == v
    else Sane(v) && Sized(ops[0]) && Proper(v, ops[0]) && ProperRun(Step(v, ops[0]), ops[1..], w)
  }

  /** The map reference: the last operation on q decides what q holds. */
  ghost function Replay(v: Volume, ops: seq<Op>, q: seq<u8>, before: Option<seq<u8>>): Option<seq<u8>>
    decreases |ops|
  {
    if ops == [] || !Sane(v) || !Sized(ops[0]) then before
    else Replay(Step(v, ops[0]), ops[1..], q, Expected(v, ops[0], q, before))
  }

  /** Over every run that keeps names unique throughout, every name reads as the map says. */
  lemma {:induction false} RunRefines(v: Volume, ops: seq<Op>, w: Volume, q: seq<u8>)
    requires WellFormed(v) && UniqueNames(v)
    requires ProperRun(v, ops, w)
    ensures WellFormed(w) && UniqueNames(w)
    ensures Contents(w, q) == Replay(v, ops, q, Contents(v, q))
    decreases |ops|
  {
    if ops != [] {
      StepRefines(v, ops[0], q);
      RunRefines(Step(v, ops[0]), ops[1..], w, q);
    }
  }

  /** Names that all fit 8.3 make a run of that kind. */
  lemma {:induction false} FittingRunIsProper(v: Volume, ops: seq<Op>, w: Volume)
    requires RunsTo(v, ops, w) && forall k :: 0 <= k < |ops| ==> Fits83(NameOf(ops[k].path))
    ensures ProperRun(v, ops, w)
    decreases |ops|
  {
    if ops != [] {
      assert forall k :: 0 <= k < |ops[1..]| ==> ops[1..][k] == ops[k + 1];
      FittingRunIsProper(Step(v, ops[0]), ops[1..], w);
    }
  }
}
