/** The block list of the kernel heap as a value, and what kmalloc and kfree do to it (mm/heap.c). */
module HeapBlocks {
  import opened Bytes

  const HEAP_START := 0x30_0000
  const HEAP_SIZE := 0x10_0000
  const HEAP_END := HEAP_START + HEAP_SIZE

  /** sizeof(block_hdr_t) */
  const HDR := 16

  /** A block: the address of its header, its usable bytes, and whether it is free. */
  datatype Block = Block(addr: nat, size: nat, free: bool)
  {
    function End(): nat { addr + HDR + size }
    function Payload(): nat { addr + HDR }
  }

  // ---------------------------------------------------------------- tilings

  /** The blocks cover [lo, hi) in address order with no gap and no overlap, on eight-byte boundaries. */
  ghost predicate Tiles(bs: seq<Block>, lo: nat, hi: nat)
  {
    && bs != [] && bs[0].addr == lo && bs[|bs| - 1].End() == hi && lo % 8 == 0
    && (forall i :: 0 <= i < |bs| - 1 ==> bs[i + 1].addr == bs[i].End())
    && (forall i :: 0 <= i < |bs| ==> bs[i].size % 8 == 0)
  }

  ghost predicate NoTwoFree(bs: seq<Block>)
  {
    forall i :: 0 <= i < |bs| - 1 ==> !(bs[i].free && bs[i + 1].free)
  }

  /** The state every call leaves behind. */
  ghost predicate Coalesced(bs: seq<Block>)
  {
    Tiles(bs, HEAP_START, HEAP_END) && NoTwoFree(bs)
  }

  lemma {:induction false} InOrder(bs: seq<Block>, lo: nat, hi: nat, i: nat, j: nat)
    requires Tiles(bs, lo, hi) && i < j < |bs|
    ensures bs[i].End() <= bs[j].addr
    decreases j - i
  {
    if i + 1 < j {
      InOrder(bs, lo, hi, i + 1, j);
    }
  }

  /** Every block lies inside the heap on an eight-byte boundary. */
  lemma {:induction false} InBounds(bs: seq<Block>, lo: nat, hi: nat, i: nat)
    requires Tiles(bs, lo, hi) && i < |bs|
    ensures lo <= bs[i].addr && bs[i].End() <= hi && bs[i].addr % 8 == 0 && bs[i].size % 8 == 0
    decreases i
  {
    if i > 0 {
      InBounds(bs, lo, hi, i - 1);
    }
    if i < |bs| - 1 {
      InOrder(bs, lo, hi, i, |bs| - 1);
    }
  }

  /** Blocks, headers included, never share a byte. */
  lemma BlocksDisjoint(bs: seq<Block>, lo: nat, hi: nat, i: nat, j: nat)
    requires Tiles(bs, lo, hi) && i < |bs| && j < |bs| && i != j
    ensures bs[i].End() <= bs[j].addr || bs[j].End() <= bs[i].addr
  {
    if i < j {
      InOrder(bs, lo, hi, i, j);
    } else {
      InOrder(bs, lo, hi, j, i);
    }
  }

  /** A block is known by the address of its header. */
  lemma AddrUnique(bs: seq<Block>, lo: nat, hi: nat, i: nat, j: nat)
    requires Tiles(bs, lo, hi) && i < |bs| && j < |bs| && bs[i].addr == bs[j].addr
    ensures i == j
  {
    if i != j {
      BlocksDisjoint(bs, lo, hi, i, j);
    }
  }

  /** Replacing a stretch of a tiling by another tiling of the same stretch. */
  lemma Splice(bs: seq<Block>, lo: nat, hi: nat, i: nat, j: nat, mid: seq<Block>)
    requires Tiles(bs, lo, hi) && i < j <= |bs|
    requires Tiles(mid, bs[i].addr, bs[j - 1].End())
    ensures Tiles(bs[..i] + mid + bs[j..], lo, hi)
  {
    var r := bs[..i] + mid + bs[j..];
    forall k: nat | k < |r|
      ensures r[k].size % 8 == 0 && (k + 1 < |r| ==> r[k + 1].addr == r[k].End())
    {
      SplicedLink(bs, lo, hi, i, j, mid, k);
    }
    SplicedAt(bs, i, j, mid, 0);
    SplicedAt(bs, i, j, mid, |r| - 1);
  }

  lemma SplicedAt(bs: seq<Block>, i: nat, j: nat, mid: seq<Block>, k: nat)
    requires i <= j <= |bs| && k < i + |mid| + |bs| - j
    ensures (bs[..i] + mid + bs[j..])[k]
            == if k < i then bs[k] else if k < i + |mid| then mid[k - i] else bs[k - i - |mid| + j]
  {
  }

  lemma SplicedLink(bs: seq<Block>, lo: nat, hi: nat, i: nat, j: nat, mid: seq<Block>, k: nat)
    requires Tiles(bs, lo, hi) && i < j <= |bs| && k < i + |mid| + |bs| - j
    requires Tiles(mid, bs[i].addr, bs[j - 1].End())
    ensures var r := bs[..i] + mid + bs[j..];
            r[k].size % 8 == 0 && (k + 1 < |r| ==> r[k + 1].addr == r[k].End())
  {
    var r := bs[..i] + mid + bs[j..];
    SplicedAt(bs, i, j, mid, k);
    if k + 1 < |r| {
      SplicedAt(bs, i, j, mid, k + 1);
    }
  }

  // ---------------------------------------------------------------- kmalloc

  /** (size + 7) & ~7u in 32 bits */
  function Rounded(size: u32): u32 { (size + 7) % 0x1_0000_0000 / 8 * 8 }

  predicate Fits(b: Block, size: nat) { b.free && b.size >= size }

  /** The first block from i on that fits, or the number of blocks. */
  function FirstFit(bs: seq<Block>, size: nat, i: nat): (r: nat)
    requires i <= |bs|
    ensures i <= r <= |bs|
    ensures r < |bs| ==> Fits(bs[r], size)
    ensures forall k :: i <= k < r ==> !Fits(bs[k], size)
    decreases |bs| - i
  {
    if i == |bs| || Fits(bs[i], size) then i else FirstFit(bs, size, i + 1)
  }

  /** The block taken, and the free remainder if it can hold a header and eight bytes. */
  function Place(b: Block, size: nat): (p: seq<Block>)
    requires b.size >= size
    ensures |p| >= 1
  {
    if b.size >= size + HDR + 8 then
      [Block(b.addr, size, false), Block(b.addr + HDR + size, b.size - size - HDR, true)]
    else [b.(free := false)]
  }

  function Take(bs: seq<Block>, i: nat, size: nat): seq<Block>
    requires i < |bs| && bs[i].size >= size
  {
    bs[..i] + Place(bs[i], size) + bs[i + 1..]
  }

  datatype Grant = Grant(blocks: seq<Block>, ptr: nat)

  /** kmalloc: the list afterwards and the pointer returned, 0 for NULL. */
  function Alloc(bs: seq<Block>, size: u32): Grant
  {
    if size == 0 then Grant(bs, 0)
    else
      var i := FirstFit(bs, Rounded(size), 0);
      if i == |bs| then Grant(bs, 0)
      else Grant(Take(bs, i, Rounded(size)), bs[i].Payload())
  }

  // ---------------------------------------------------------------- kfree

  /** merge_free_blocks */
  function Merge(bs: seq<Block>): (r: seq<Block>)
    ensures bs != [] ==> r != [] && r[0].addr == bs[0].addr
    ensures bs != [] && !bs[0].free ==> r[0] == bs[0]
    ensures bs != [] && bs[0].free ==> r[0].free
    decreases |bs|
  {
    if |bs| < 2 then bs
    else if bs[0].free && bs[1].free then
      Merge([Block(bs[0].addr, bs[0].size + HDR + bs[1].size, true)] + bs[2..])
    else [bs[0]] + Merge(bs[1..])
  }

  /** The position of the block whose payload starts at ptr, or the number of blocks. */
  function IndexOf(bs: seq<Block>, ptr: nat): (i: nat)
    ensures i <= |bs|
    ensures i < |bs| ==> bs[i].Payload() == ptr
    ensures forall k :: 0 <= k < i ==> bs[k].Payload() != ptr
  {
    if bs == [] || bs[0].Payload() == ptr then 0 else 1 + IndexOf(bs[1..], ptr)
  }

  /** A pointer a caller may free: the payload of a block in use. */
  predicate IsLive(bs: seq<Block>, ptr: nat)
  {
    var i := IndexOf(bs, ptr);
    i < |bs| && !bs[i].free
  }

  /** kfree of a live pointer */
  function Free(bs: seq<Block>, ptr: nat): seq<Block>
    requires IsLive(bs, ptr)
  {
    Merge(bs[IndexOf(bs, ptr) := bs[IndexOf(bs, ptr)].(free := true)])
  }

  function IfUsed(b: Block): seq<Block> { if b.free then [] else [b] }

  /** The blocks in use, in address order. */
  function Used(bs: seq<Block>): seq<Block>
  {
    if bs == [] then [] else IfUsed(bs[0]) + Used(bs[1..])
  }

  lemma {:induction false} UsedOfJoin(a: seq<Block>, b: seq<Block>)
    ensures Used(a + b) == Used(a) + Used(b)
  {
    hide IfUsed, Used;
    if a == [] {
      assert a + b == b;
      UsedOfNone(b);
    } else {
      UsedOfJoin(a[1..], b);
      assert (a + b)[0] == a[0] && (a + b)[1..] == a[1..] + b;
      UsedStep(a);
      UsedStep(a + b);
      Regroup(IfUsed(a[0]), Used(a[1..]), Used(b));
    }
  }

  lemma UsedOfNone(b: seq<Block>)
    ensures Used([]) + b == b
  {
  }

  lemma UsedStep(bs: seq<Block>)
    requires bs != []
    ensures Used(bs) == IfUsed(bs[0]) + Used(bs[1..])
  {
  }

  lemma Regroup(x: seq<Block>, y: seq<Block>, z: seq<Block>)
    ensures x + (y + z) == x + y + z
  {
  }

  /** Merging never moves or drops a block in use. */
  lemma {:induction false} MergeKeepsUsed(bs: seq<Block>)
    ensures Used(Merge(bs)) == Used(bs)
    decreases |bs|
  {
    if |bs| >= 2 {
      if bs[0].free && bs[1].free {
        var m := [Block(bs[0].addr, bs[0].size + HDR + bs[1].size, true)];
        MergeKeepsUsed(m + bs[2..]);
        UsedOfJoin(m, bs[2..]);
        assert bs[1..][1..] == bs[2..];
      } else {
        MergeKeepsUsed(bs[1..]);
        UsedOfJoin([bs[0]], Merge(bs[1..]));
      }
    }
  }

  /** Merging leaves no two neighbours free, whatever the list was. */
  lemma {:induction false} MergeSeparates(bs: seq<Block>)
    ensures NoTwoFree(Merge(bs))
    decreases |bs|
  {
    if |bs| >= 2 {
      if bs[0].free && bs[1].free {
        MergeSeparates([Block(bs[0].addr, bs[0].size + HDR + bs[1].size, true)] + bs[2..]);
      } else {
        var r := Merge(bs[1..]);
        MergeSeparates(bs[1..]);
        assert !bs[1].free ==> r[0] == bs[1];
        assert forall i :: 1 <= i < |r| ==> ([bs[0]] + r)[i] == r[i - 1];
      }
    }
  }

  lemma {:induction false} MergeTiles(bs: seq<Block>, lo: nat, hi: nat)
    requires Tiles(bs, lo, hi)
    ensures Tiles(Merge(bs), lo, hi)
    decreases |bs|
  {
    if |bs| >= 2 {
      TilesTail(bs, lo, hi);
      if bs[0].free && bs[1].free {
        hide Merge;
        SumAligned(bs[0].size, bs[1].size);
        var m := Block(bs[0].addr, bs[0].size + HDR + bs[1].size, true);
        Splice(bs, lo, hi, 0, 2, [m]);
        assert bs[..0] + [m] + bs[2..] == [m] + bs[2..];
        MergeTiles([m] + bs[2..], lo, hi);
        MergeFirstTwo(bs);
      } else {
        hide Tiles;
        MergeTiles(bs[1..], bs[1].addr, hi);
        TilesCons(bs[0], Merge(bs[1..]), lo, hi);
      }
    }
  }

  lemma SumAligned(a: nat, b: nat)
    requires a % 8 == 0 && b % 8 == 0
    ensures (a + HDR + b) % 8 == 0
  {
    var c, d := a / 8, b / 8;
    assert a == 8 * c && b == 8 * d;
    TimesEight(c + 2 + d);
  }

  lemma TimesEight(n: nat)
    ensures 8 * n % 8 == 0
  {
  }

  lemma MergeFirstTwo(bs: seq<Block>)
    requires |bs| >= 2 && bs[0].free && bs[1].free
    ensures Merge(bs) == Merge([Block(bs[0].addr, bs[0].size + HDR + bs[1].size, true)] + bs[2..])
  {
  }

  lemma TilesTail(bs: seq<Block>, lo: nat, hi: nat)
    requires Tiles(bs, lo, hi) && |bs| >= 2
    ensures bs[0].addr == lo && lo % 8 == 0 && bs[0].size % 8 == 0 && bs[1].addr == bs[0].End()
    ensures Tiles(bs[1..], bs[1].addr, hi)
  {
    var rest := bs[1..];
    InBounds(bs, lo, hi, 1);
    forall i | 0 <= i < |rest| - 1 ensures rest[i + 1].addr == rest[i].End() {
      assert bs[i + 2].addr == bs[i + 1].End();
    }
  }

  lemma TilesCons(b: Block, rest: seq<Block>, lo: nat, hi: nat)
    requires Tiles(rest, b.End(), hi) && b.addr == lo && lo % 8 == 0 && b.size % 8 == 0
    ensures Tiles([b] + rest, lo, hi)
  {
    var r := [b] + rest;
    forall i | 0 <= i < |r| - 1 ensures r[i + 1].addr == r[i].End() {
      assert i > 0 ==> rest[i].addr == rest[i - 1].End();
    }
  }

  /** A list without free neighbours is left alone. */
  lemma {:induction false} MergeIdle(bs: seq<Block>)
    requires NoTwoFree(bs)
    ensures Merge(bs) == bs
    decreases |bs|
  {
    if |bs| >= 2 {
      assert forall i :: 0 <= i < |bs[1..]| ==> bs[1..][i] == bs[i + 1];
      MergeIdle(bs[1..]);
    }
  }

  /** Merging passes over a separated prefix that does not end free. */
  lemma {:induction false} MergePrefix(a: seq<Block>, b: seq<Block>)
    requires NoTwoFree(a)
    requires a != [] && b != [] ==> !(a[|a| - 1].free && b[0].free)
    ensures Merge(a + b) == a + Merge(b)
    decreases |a|
  {
    if a == [] {
      assert a + b == b && a + Merge(b) == Merge(b);
    } else if |a| == 1 {
      if b == [] {
        assert a + b == a && a + Merge(b) == a;
      } else {
        assert (a + b)[1..] == b;
      }
    } else {
      TailSeparated(a);
      MergePrefix(a[1..], b);
      assert (a + b)[1..] == a[1..] + b;
      assert a + Merge(b) == [a[0]] + (a[1..] + Merge(b));
    }
  }

  lemma TailSeparated(a: seq<Block>)
    requires NoTwoFree(a) && |a| >= 2
    ensures NoTwoFree(a[1..]) && !(a[0].free && a[1].free)
  {
    assert forall i :: 0 <= i < |a[1..]| ==> a[1..][i] == a[i + 1];
  }

  // ---------------------------------------------------------------- what the calls keep

  lemma PlaceTiles(b: Block, size: nat)
    requires b.size >= size && b.addr % 8 == 0 && b.size % 8 == 0 && size % 8 == 0
    ensures Tiles(Place(b, size), b.addr, b.End())
  {
  }

  /** kmalloc keeps the tiling exact and leaves no two free neighbours. */
  lemma AllocKeepsCoalesced(bs: seq<Block>, size: u32)
    requires Coalesced(bs)
    ensures Coalesced(Alloc(bs, size).blocks)
  {
    var r := Rounded(size);
    var i := FirstFit(bs, r, 0);
    if size != 0 && i < |bs| {
      InBounds(bs, HEAP_START, HEAP_END, i);
      PlaceTiles(bs[i], r);
      Splice(bs, HEAP_START, HEAP_END, i, i + 1, Place(bs[i], r));
      TakeSeparated(bs, i, r);
    }
  }

  /** What is left of a split block is the only free one between its neighbours. */
  lemma TakeSeparated(bs: seq<Block>, i: nat, size: nat)
    requires NoTwoFree(bs) && i < |bs| && bs[i].free && bs[i].size >= size
    ensures NoTwoFree(Take(bs, i, size))
  {
    var p, t := Place(bs[i], size), Take(bs, i, size);
    assert i + 1 < |bs| ==> !(bs[i].free && bs[i + 1].free);
    forall k | 0 <= k < |t| - 1
      ensures !(t[k].free && t[k + 1].free)
    {
      if k >= i + |p| {
        assert t[k] == bs[k - |p| + 1] && t[k + 1] == bs[k - |p| + 1 + 1];
      } else if k + 1 < i {
        assert t[k] == bs[k] && t[k + 1] == bs[k + 1];
      }
    }
  }

  lemma FreeKeepsCoalesced(bs: seq<Block>, ptr: nat)
    requires Coalesced(bs) && IsLive(bs, ptr)
    ensures Coalesced(Free(bs, ptr))
  {
    var i := IndexOf(bs, ptr);
    var c := bs[i := bs[i].(free := true)];
    assert Tiles(c, HEAP_START, HEAP_END);
    MergeTiles(c, HEAP_START, HEAP_END);
    MergeSeparates(c);
  }

  /** kmalloc fails exactly for size zero and when no free block has the rounded size. */
  lemma AllocFailsIff(bs: seq<Block>, size: u32)
    requires Coalesced(bs)
    ensures Alloc(bs, size).ptr == 0 <==> size == 0 || forall b :: b in bs ==> !(b.free && b.size >= Rounded(size))
    ensures Alloc(bs, size).ptr == 0 ==> Alloc(bs, size).blocks == bs
  {
    var i := FirstFit(bs, Rounded(size), 0);
    if size != 0 && i < |bs| {
      assert bs[i] in bs && Fits(bs[i], Rounded(size));
    }
  }

  /** A granted block is new, in use and aligned, and big enough exactly when rounding did not wrap around. */
  lemma AllocGrants(bs: seq<Block>, size: u32)
    requires Coalesced(bs) && Alloc(bs, size).ptr != 0
    ensures var g := Alloc(bs, size);
            var i := IndexOf(g.blocks, g.ptr);
            && IsLive(g.blocks, g.ptr) && !IsLive(bs, g.ptr)
            && g.ptr % 8 == 0
            && (g.blocks[i].size >= size <==> size <= 0xFFFF_FFF8)
  {
    hide Tiles, NoTwoFree, Rounded, IndexOf;
    var r := Rounded(size);
    var i := FirstFit(bs, r, 0);
    var g := Alloc(bs, size);
    AllocKeepsCoalesced(bs, size);
    InBounds(bs, HEAP_START, HEAP_END, i);
    InBounds(g.blocks, HEAP_START, HEAP_END, i);
    assert g.blocks[i] == Place(bs[i], r)[0];
    IndexIs(g.blocks, i);
    IndexIs(bs, i);
    RoundedSize(size);
  }

  /** A payload pointer leads back to its block. */
  lemma IndexIs(bs: seq<Block>, i: nat)
    requires Tiles(bs, HEAP_START, HEAP_END) && i < |bs|
    ensures IndexOf(bs, bs[i].Payload()) == i
  {
    AddrUnique(bs, HEAP_START, HEAP_END, i, IndexOf(bs, bs[i].Payload()));
  }

  lemma RoundedSize(size: u32)
    ensures size <= 0xFFFF_FFF8 ==> size <= Rounded(size) < size + 8
    ensures size > 0xFFFF_FFF8 ==> Rounded(size) == 0
    ensures Rounded(size) % 8 == 0
  {
  }

  // ---------------------------------------------------------------- inverses and runs

  /** The position kmalloc took is where kfree finds the pointer again. */
  lemma {:induction false} AllocAt(bs: seq<Block>, size: u32)
    requires Coalesced(bs) && Alloc(bs, size).ptr != 0
    ensures var r := Rounded(size);
            var i := FirstFit(bs, r, 0);
            var g := Alloc(bs, size);
            && i < |bs| && bs[i].free && bs[i].size >= r
            && IndexOf(g.blocks, g.ptr) == i
            && g.blocks == bs[..i] + Place(bs[i], r) + bs[i + 1..]
            && g.blocks[i] == Place(bs[i], r)[0]
  {
    var g := Alloc(bs, size);
    var i := FirstFit(bs, Rounded(size), 0);
    AllocKeepsCoalesced(bs, size);
    assert g.blocks[i] == Place(bs[i], Rounded(size))[0];
    AllocGrants(bs, size);
    AddrUnique(g.blocks, HEAP_START, HEAP_END, i, IndexOf(g.blocks, g.ptr));
  }

  /** A placement takes the size asked for, or the whole block where the rest is too small for another. */
  lemma PlaceSplits(b: Block, size: nat)
    requires b.size >= size && b.size % 8 == 0 && size % 8 == 0
    ensures var taken := Place(b, size)[0];
            && taken.addr == b.addr && !taken.free && size <= taken.size <= b.size && taken.size <= size + 16
            && (taken.size == b.size ==> Place(b, size) == [taken])
            && (taken.size != b.size ==>
                  taken.size == size && b.size >= size + 24
                  && Place(b, size) == [taken, Block(taken.End(), b.size - taken.size - 16, true)])
  {
    var m, n := b.size / 8, size / 8;
    assert b.size == 8 * m && size == 8 * n;
  }

  /** kmalloc takes the first free block that is large enough, and of it no more than it rounds to or 16 bytes beyond;
      whatever the grant leaves becomes one free block behind it, and every other block stays. */
  lemma AllocSplits(bs: seq<Block>, size: u32)
    requires Coalesced(bs) && Alloc(bs, size).ptr != 0
    ensures var g := Alloc(bs, size);
            var i := IndexOf(g.blocks, g.ptr);
            && i < |bs| && i < |g.blocks|
            && bs[i].free && bs[i].size >= Rounded(size)
            && (forall k :: 0 <= k < i ==> !(bs[k].free && bs[k].size >= Rounded(size)))
            && var taken := g.blocks[i];
               && g.ptr == bs[i].addr + 16 && taken.addr == bs[i].addr && !taken.free
               && Rounded(size) <= taken.size <= Rounded(size) + 16
               && (size <= 0xFFFF_FFF8 ==> size <= taken.size < size + 24)
               && (taken.size == bs[i].size ==> g.blocks == bs[..i] + [taken] + bs[i + 1..])
               && (taken.size != bs[i].size ==>
                     && bs[i].size >= taken.size + 24
                     && g.blocks == bs[..i] + [taken, Block(taken.End(), bs[i].size - taken.size - 16, true)] + bs[i + 1..])
  {
    hide Tiles, NoTwoFree, Rounded, IndexOf, Place;
    AllocAt(bs, size);
    RoundedSize(size);
    var i := FirstFit(bs, Rounded(size), 0);
    InBounds(bs, HEAP_START, HEAP_END, i);
    PlaceSplits(bs[i], Rounded(size));
    assert forall k :: 0 <= k < i ==> !Fits(bs[k], Rounded(size));
  }

  /** Two requests for 64 bytes on the fresh heap are both granted, eighty bytes apart. */
  lemma TwoGrants()
    ensures var g := Alloc(Initial(), 64);
            var h := Alloc(g.blocks, 64);
            && g.ptr == 0x30_0010 && h.ptr == 0x30_0060
            && h.blocks == [Block(0x30_0000, 64, false), Block(0x30_0050, 64, false), Block(0x30_00A0, 0xF_FF50, true)]
  {
    assert Rounded(64) == 64;
    var g := Alloc(Initial(), 64);
    assert FirstFit(Initial(), 64, 0) == 0;
    assert g.blocks == [Block(0x30_0000, 64, false), Block(0x30_0050, 0xF_FFA0, true)];
    assert FirstFit(g.blocks, 64, 0) == FirstFit(g.blocks, 64, 1) == 1;
    assert Place(g.blocks[1], 64) == [Block(0x30_0050, 64, false), Block(0x30_00A0, 0xF_FF50, true)];
  }

  /** Undoing one placement between a separated prefix and the rest of the list. */
  lemma UndoPlace(pre: seq<Block>, b: Block, rest: seq<Block>, size: nat)
    requires b.free && b.size >= size && NoTwoFree(pre + [b] + rest)
    ensures var p := Place(b, size);
            Merge(pre + ([p[0].(free := true)] + p[1..] + rest)) == pre + [b] + rest
  {
    hide Merge, Place;
    var bs := pre + [b] + rest;
    PrefixSeparated(bs, |pre|);
    SuffixSeparated(bs, |pre|);
    assert bs[..|pre|] == pre && bs[|pre|..] == [b] + rest;
    assert pre != [] ==> pre[|pre| - 1] == bs[|pre| - 1];
    MergeSplit(b, rest, size);
    MergePrefix(pre, [Place(b, size)[0].(free := true)] + Place(b, size)[1..] + rest);
    MergeIdle([b] + rest);
    assert pre + ([b] + rest) == pre + [b] + rest;
  }

  lemma MergeSplit(b: Block, rest: seq<Block>, size: nat)
    requires b.free && b.size >= size
    ensures var p := Place(b, size);
            && Merge([p[0].(free := true)] + p[1..] + rest) == Merge([b] + rest)
  {
    var p := Place(b, size);
    var c := [p[0].(free := true)] + p[1..] + rest;
    if b.size >= size + HDR + 8 {
      assert c[2..] == rest;
    } else {
      assert c == [b] + rest;
    }
  }

  /** Freeing what was just allocated restores the list exactly: the split is undone. */
  lemma FreeUndoesAlloc(bs: seq<Block>, size: u32)
    requires Coalesced(bs) && Alloc(bs, size).ptr != 0
    ensures IsLive(Alloc(bs, size).blocks, Alloc(bs, size).ptr)
    ensures Free(Alloc(bs, size).blocks, Alloc(bs, size).ptr) == bs
  {
    hide Merge, NoTwoFree, Tiles, FirstFit, Place;
    AllocAt(bs, size);
    AllocGrants(bs, size);
    var r := Rounded(size);
    var i := FirstFit(bs, r, 0);
    var g, p := Alloc(bs, size), Place(bs[i], r);
    assert bs == bs[..i] + [bs[i]] + bs[i + 1..];
    UndoPlace(bs[..i], bs[i], bs[i + 1..], r);
    UpdateInside(bs[..i], p, bs[i + 1..], p[0].(free := true));
  }

  lemma UpdateInside(pre: seq<Block>, p: seq<Block>, rest: seq<Block>, b: Block)
    requires p != []
    ensures (pre + p + rest)[|pre| := b] == pre + ([b] + p[1..] + rest)
  {
  }

  lemma PrefixSeparated(bs: seq<Block>, i: nat)
    requires NoTwoFree(bs) && i <= |bs|
    ensures NoTwoFree(bs[..i])
    ensures 0 < i < |bs| ==> !(bs[i - 1].free && bs[i].free)
  {
    assert forall k :: 0 <= k < i ==> bs[..i][k] == bs[k];
    if 0 < i < |bs| {
      assert !(bs[i - 1].free && bs[i - 1 + 1].free);
    }
  }

  lemma SuffixSeparated(bs: seq<Block>, i: nat)
    requires NoTwoFree(bs) && i <= |bs|
    ensures NoTwoFree(bs[i..])
  {
    assert forall k :: 0 <= k < |bs[i..]| ==> bs[i..][k] == bs[i + k];
  }

  /** With nothing in use the list is again the single block of heap_init. */
  lemma EmptyHeapIsInitial(bs: seq<Block>)
    requires Coalesced(bs) && Used(bs) == []
    ensures bs == Initial()
  {
    NoneUsed(bs);
    assert forall i :: 0 <= i < |bs| ==> bs[i] in bs;
    assert |bs| >= 2 ==> !(bs[0].free && bs[0 + 1].free);
  }

  lemma {:induction false} NoneUsed(bs: seq<Block>)
    requires Used(bs) == []
    ensures forall b :: b in bs ==> b.free
  {
    if bs != [] {
      NoneUsed(bs[1..]);
      assert bs == [bs[0]] + bs[1..];
    }
  }

  /** heap_init */
  function Initial(): seq<Block> { [Block(HEAP_START, HEAP_SIZE - HDR, true)] }

  /** The blocks in use before, at and behind a position. */
  lemma UsedAround(bs: seq<Block>, i: nat, mid: seq<Block>)
    requires i < |bs|
    ensures Used(bs[..i] + mid + bs[i + 1..]) == Used(bs[..i]) + Used(mid) + Used(bs[i + 1..])
    ensures Used(bs) == Used(bs[..i]) + (if bs[i].free then [] else [bs[i]]) + Used(bs[i + 1..])
  {
    hide Used;
    UsedOfJoin(bs[..i] + mid, bs[i + 1..]);
    UsedOfJoin(bs[..i], mid);
    assert bs == bs[..i] + [bs[i]] + bs[i + 1..];
    UsedOfJoin(bs[..i] + [bs[i]], bs[i + 1..]);
    UsedOfJoin(bs[..i], [bs[i]]);
    UsedOne(bs[i]);
  }

  lemma UsedOne(b: Block)
    ensures Used([b]) == if b.free then [] else [b]
  {
    assert [b][1..] == [];
  }

  lemma UsedPlaced(b: Block, size: nat)
    requires b.size >= size
    ensures Used(Place(b, size)) == [Place(b, size)[0]]
  {
    if b.size >= size + HDR + 8 {
      UsedOfJoin([Place(b, size)[0]], [Place(b, size)[1]]);
      UsedOne(Place(b, size)[0]);
      UsedOne(Place(b, size)[1]);
      assert Place(b, size) == [Place(b, size)[0]] + [Place(b, size)[1]];
    } else {
      UsedOne(Place(b, size)[0]);
    }
  }

  /** kmalloc adds one block to those in use and touches no other. */
  lemma AllocAddsOne(bs: seq<Block>, size: u32)
    requires Coalesced(bs) && Alloc(bs, size).ptr != 0
    ensures var g := Alloc(bs, size);
            var i := IndexOf(g.blocks, g.ptr);
            && i < |bs| && i < |g.blocks|
            && Used(g.blocks) == Used(bs[..i]) + [g.blocks[i]] + Used(bs[i + 1..])
            && Used(bs) == Used(bs[..i]) + Used(bs[i + 1..])
  {
    hide Used, Tiles, NoTwoFree, FirstFit, Place;
    AllocAt(bs, size);
    var i := FirstFit(bs, Rounded(size), 0);
    UsedPlaced(bs[i], Rounded(size));
    UsedAround(bs, i, Place(bs[i], Rounded(size)));
  }

  /** kfree takes one block out of those in use and moves no other. */
  lemma FreeDropsOne(bs: seq<Block>, ptr: nat)
    requires Coalesced(bs) && IsLive(bs, ptr)
    ensures var i := IndexOf(bs, ptr);
            && Used(bs) == Used(bs[..i]) + [bs[i]] + Used(bs[i + 1..])
            && Used(Free(bs, ptr)) == Used(bs[..i]) + Used(bs[i + 1..])
  {
    hide Used, Merge, Tiles, NoTwoFree;
    var i := IndexOf(bs, ptr);
    var b := bs[i].(free := true);
    MergeKeepsUsed(bs[i := b]);
    assert bs[i := b] == bs[..i] + [b] + bs[i + 1..];
    UsedAround(bs, i, [b]);
    UsedOne(b);
  }

  datatype Op = Malloc(size: u32) | FreeOp(ptr: nat)

  /** A run of calls in which every freed pointer is live when it is freed. */
  predicate Legal(bs: seq<Block>, ops: seq<Op>)
    decreases |ops|
  {
    if ops == [] then true
    else
      match ops[0]
      case Malloc(size) => Legal(Alloc(bs, size).blocks, ops[1..])
      case FreeOp(ptr) => IsLive(bs, ptr) && Legal(Free(bs, ptr), ops[1..])
  }

  function Run(bs: seq<Block>, ops: seq<Op>): seq<Block>
    requires Legal(bs, ops)
    decreases |ops|
  {
    if ops == [] then bs
    else
      match ops[0]
      case Malloc(size) => Run(Alloc(bs, size).blocks, ops[1..])
      case FreeOp(ptr) => Run(Free(bs, ptr), ops[1..])
  }

  /** Over every legal run the blocks tile the megabyte with no two free neighbours, so a run that ends with
      nothing in use ends with the initial heap. */
  lemma {:induction false} RunKeepsCoalesced(bs: seq<Block>, ops: seq<Op>)
    requires Coalesced(bs) && Legal(bs, ops)
    ensures Coalesced(Run(bs, ops))
    ensures Used(Run(bs, ops)) == [] ==> Run(bs, ops) == Initial()
    decreases |ops|
  {
    if ops == [] {
      if Used(bs) == [] {
        EmptyHeapIsInitial(bs);
      }
    } else {
      match ops[0]
      case Malloc(size) =>
        AllocKeepsCoalesced(bs, size);
        RunKeepsCoalesced(Alloc(bs, size).blocks, ops[1..]);
      case FreeOp(ptr) =>
        FreeKeepsCoalesced(bs, ptr);
        RunKeepsCoalesced(Free(bs, ptr), ops[1..]);
    }
  }
}
