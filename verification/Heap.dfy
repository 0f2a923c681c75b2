/** The kernel heap in memory: headers live in the megabyte they describe (mm/heap.c). */
module Heap {
  import opened Bytes
  import opened HeapBlocks

  const HEAP_MAGIC: u32 := 0xB451_C000

  /** The heap's megabyte. The 32-bit word at address a is m[a - HEAP_START]; every access is word-aligned, so the
      cells between the aligned ones are never used. */
  type Memory = m: seq<u32> | |m| == 0x10_0000 witness seq(0x10_0000, _ => 0)

  function At(m: Memory, a: nat): u32
    requires HEAP_START <= a < HEAP_END
  {
    m[a - HEAP_START]
  }

  /** The four words of a header: magic, size, a free flag in the low byte of the third, next. */
  ghost predicate HeaderAt(m: Memory, b: Block, next: nat)
  {
    && HEAP_START <= b.addr && b.addr + HDR <= HEAP_END && b.addr % 4 == 0
    && At(m, b.addr) == HEAP_MAGIC
    && At(m, b.addr + 4) == b.size
    && At(m, b.addr + 8) % 256 == (if b.free then 1 else 0)
    && At(m, b.addr + 12) == next
  }

  /** The address in the next field of block i of a stretch that leads on to last. */
  function NextIn(bs: seq<Block>, last: nat, i: nat): nat
    requires i < |bs|
  {
    if i + 1 < |bs| then bs[i + 1].addr else last
  }

  /** The headers of a stretch are in memory. */
  ghost predicate StoredTo(m: Memory, bs: seq<Block>, last: nat)
  {
    forall i :: 0 <= i < |bs| ==> HeaderAt(m, bs[i], NextIn(bs, last, i))
  }

  function NextOf(bs: seq<Block>, i: nat): nat
    requires i < |bs|
  {
    NextIn(bs, 0, i)
  }

  /** The whole list is in memory; a next field of 0 ends it. */
  ghost predicate Stored(m: Memory, bs: seq<Block>)
  {
    StoredTo(m, bs, 0)
  }

  /** Nothing outside [lo, hi) was written. */
  ghost predicate SameOutside(m: Memory, n: Memory, lo: nat, hi: nat)
  {
    forall a :: HEAP_START <= a < HEAP_END && !(lo <= a < hi) ==> At(n, a) == At(m, a)
  }

  /** Two writes inside a block leave everything outside it alone. */
  lemma OutsideBoth(l: Memory, m: Memory, n: Memory, b: Block, lo: nat, hi: nat, lo1: nat, hi1: nat)
    requires SameOutside(l, m, lo, hi) && SameOutside(m, n, lo1, hi1)
    requires b.addr <= lo && hi <= b.End() && b.addr <= lo1 && hi1 <= b.End()
    ensures SameOutside(l, n, b.addr, b.End())
  {
    forall a | HEAP_START <= a < HEAP_END && !(b.addr <= a < b.End()) ensures At(n, a) == At(l, a) {
      assert At(m, a) == At(l, a);
    }
  }

  lemma SplitAligned(addr: nat, size: nat)
    requires addr % 4 == 0 && size % 8 == 0
    ensures (addr + HDR + size) % 4 == 0
  {
    var a, s := addr / 4, size / 8;
    assert addr == 4 * a && size == 8 * s;
    TimesFour(a + 4 + 2 * s);
  }

  lemma TimesFour(n: nat)
    ensures 4 * n % 4 == 0
  {
  }

  ghost predicate SameInside(m: Memory, n: Memory, lo: nat, hi: nat)
  {
    forall a :: HEAP_START <= a < HEAP_END && lo <= a < hi ==> At(n, a) == At(m, a)
  }

  /** The payload of every block in use holds what it held. */
  ghost predicate PayloadsKept(bs: seq<Block>, m: Memory, n: Memory)
  {
    forall i :: 0 <= i < |bs| && !bs[i].free ==> SameInside(m, n, bs[i].Payload(), bs[i].End())
  }

  // ---------------------------------------------------------------- rewriting a stretch of the list

  lemma HeaderKept(m: Memory, n: Memory, b: Block, next: nat, lo: nat, hi: nat)
    requires HeaderAt(m, b, next) && SameOutside(m, n, lo, hi)
    requires b.addr + HDR <= lo || hi <= b.addr
    ensures HeaderAt(n, b, next)
  {
  }

  /** A block of the tiling outside a stretch of it. */
  lemma OutsideStretch(bs: seq<Block>, i: nat, j: nat, k: nat)
    requires Tiles(bs, HEAP_START, HEAP_END) && i < j <= |bs| && k < |bs| && (k < i || j <= k)
    ensures bs[k].End() <= bs[i].addr || bs[j - 1].End() <= bs[k].addr
  {
    if k < i {
      InOrder(bs, HEAP_START, HEAP_END, k, i);
    } else {
      InOrder(bs, HEAP_START, HEAP_END, j - 1, k);
    }
  }

  /** Writes confined to a stretch of blocks, leaving there the headers of another tiling of the same stretch,
      store the spliced list. */
  lemma SpliceStored(m: Memory, n: Memory, bs: seq<Block>, i: nat, j: nat, mid: seq<Block>)
    requires Tiles(bs, HEAP_START, HEAP_END) && Stored(m, bs) && i < j <= |bs|
    requires Tiles(mid, bs[i].addr, bs[j - 1].End())
    requires SameOutside(m, n, bs[i].addr, bs[j - 1].End())
    requires StoredTo(n, mid, NextOf(bs, j - 1))
    ensures Stored(n, bs[..i] + mid + bs[j..])
  {
    hide HeaderAt, Tiles, SameOutside, NextIn;
    var c := bs[..i] + mid + bs[j..];
    MidStart(bs, i, j, mid);
    forall k | 0 <= k < |c|
      ensures HeaderAt(n, c[k], NextOf(c, k))
    {
      SpliceIndex(bs, i, j, mid, k);
      if k < i {
        SpliceKeepsOne(m, n, bs, i, j, k);
      } else if k >= i + |mid| {
        SpliceKeepsOne(m, n, bs, i, j, k - i - |mid| + j);
      } else {
        assert HeaderAt(n, mid[k - i], NextIn(mid, NextOf(bs, j - 1), k - i));
      }
    }
  }

  lemma MidStart(bs: seq<Block>, i: nat, j: nat, mid: seq<Block>)
    requires i < j <= |bs| && Tiles(mid, bs[i].addr, bs[j - 1].End())
    ensures mid != [] && mid[0].addr == bs[i].addr
  {
  }

  /** Where the blocks of a spliced list come from, and what their next fields say. */
  lemma SpliceIndex(bs: seq<Block>, i: nat, j: nat, mid: seq<Block>, k: nat)
    requires i < j <= |bs| && mid != [] && mid[0].addr == bs[i].addr && k < |bs[..i] + mid + bs[j..]|
    ensures var c := bs[..i] + mid + bs[j..];
            && (k < i ==> c[k] == bs[k] && NextOf(c, k) == NextOf(bs, k))
            && (i <= k < i + |mid| ==> c[k] == mid[k - i] && NextOf(c, k) == NextIn(mid, NextOf(bs, j - 1), k - i))
            && (k >= i + |mid| ==> var o := k - i - |mid| + j; o < |bs| && c[k] == bs[o] && NextOf(c, k) == NextOf(bs, o))
  {
  }

  lemma SpliceKeepsOne(m: Memory, n: Memory, bs: seq<Block>, i: nat, j: nat, k: nat)
    requires Tiles(bs, HEAP_START, HEAP_END) && Stored(m, bs) && i < j <= |bs| && k < |bs| && (k < i || j <= k)
    requires SameOutside(m, n, bs[i].addr, bs[j - 1].End())
    ensures HeaderAt(n, bs[k], NextOf(bs, k))
  {
    assert HeaderAt(m, bs[k], NextOf(bs, k));
    OutsideStretch(bs, i, j, k);
    HeaderKept(m, n, bs[k], NextOf(bs, k), bs[i].addr, bs[j - 1].End());
  }

  /** Such writes reach no payload in use when the stretch holds none. */
  lemma SpliceKeepsPayloads(m: Memory, n: Memory, bs: seq<Block>, i: nat, j: nat)
    requires Tiles(bs, HEAP_START, HEAP_END) && i < j <= |bs|
    requires SameOutside(m, n, bs[i].addr, bs[j - 1].End())
    requires forall k :: i <= k < j ==> bs[k].free
    ensures PayloadsKept(bs, m, n)
  {
    forall k | 0 <= k < |bs| && !bs[k].free
      ensures SameInside(m, n, bs[k].Payload(), bs[k].End())
    {
      OutsideStretch(bs, i, j, k);
    }
  }

  /** A caller writing inside a block it owns disturbs no header. */
  lemma PayloadWriteHarmless(m: Memory, n: Memory, bs: seq<Block>, i: nat)
    requires Tiles(bs, HEAP_START, HEAP_END) && Stored(m, bs) && i < |bs|
    requires SameOutside(m, n, bs[i].Payload(), bs[i].End())
    ensures Stored(n, bs)
  {
    forall k | 0 <= k < |bs|
      ensures HeaderAt(n, bs[k], NextOf(bs, k))
    {
      assert HeaderAt(m, bs[k], NextOf(bs, k));
      if k != i {
        BlocksDisjoint(bs, HEAP_START, HEAP_END, i, k);
      }
      HeaderKept(m, n, bs[k], NextOf(bs, k), bs[i].Payload(), bs[i].End());
    }
  }

  lemma KeptTransitive(bs: seq<Block>, l: Memory, m: Memory, n: Memory)
    requires PayloadsKept(bs, l, m) && PayloadsKept(bs, m, n)
    ensures PayloadsKept(bs, l, n)
  {
    forall i | 0 <= i < |bs| && !bs[i].free
      ensures SameInside(l, n, bs[i].Payload(), bs[i].End())
    {
      assert SameInside(l, m, bs[i].Payload(), bs[i].End()) && SameInside(m, n, bs[i].Payload(), bs[i].End());
    }
  }

  /** Payloads kept for a list are kept for any list with no more blocks in use. */
  lemma KeptForFewer(bs: seq<Block>, cs: seq<Block>, m: Memory, n: Memory)
    requires PayloadsKept(bs, m, n)
    requires forall k :: 0 <= k < |cs| && !cs[k].free ==> cs[k] in bs
    ensures PayloadsKept(cs, m, n)
  {
    forall k | 0 <= k < |cs| && !cs[k].free
      ensures SameInside(m, n, cs[k].Payload(), cs[k].End())
    {
      var i :| 0 <= i < |bs| && bs[i] == cs[k];
    }
  }

  function Joined(bs: seq<Block>, i: nat): Block
    requires i + 1 < |bs|
  {
    Block(bs[i].addr, bs[i].size + HDR + bs[i + 1].size, true)
  }

  /** Block i after absorbing its neighbour. */
  function JoinAt(bs: seq<Block>, i: nat): seq<Block>
    requires i + 1 < |bs|
  {
    bs[..i] + [Joined(bs, i)] + bs[i + 2..]
  }

  class KernelHeap {
    const mem: array<u32>
    var head: nat
    ghost var blocks: seq<Block>

    ghost predicate Valid()
      reads this, mem
    {
      && mem.Length == HEAP_SIZE && head == HEAP_START
      && Coalesced(blocks) && Stored(mem[..], blocks)
    }

    /** heap_init on a megabyte holding anything. */
    constructor (mem: array<u32>)
      requires mem.Length == HEAP_SIZE
      modifies mem
      ensures Valid() && this.mem == mem && blocks == Initial()
    {
      this.mem := mem;
      head := HEAP_START;
      blocks := Initial();
      new;
      WriteHeader(HEAP_START, HEAP_SIZE - HDR, 0);
      assert HeaderAt(mem[..], blocks[0], 0);
    }

    function Load(a: nat): u32
      requires mem.Length == HEAP_SIZE && HEAP_START <= a < HEAP_END
      reads this, mem
    {
      mem[a - HEAP_START]
    }

    method Store(a: nat, v: u32)
      requires mem.Length == HEAP_SIZE && HEAP_START <= a < HEAP_END
      modifies mem
      ensures mem[..] == old(mem[..])[a - HEAP_START := v]
    {
      mem[a - HEAP_START] := v;
    }

    /** The four field writes that make a free block, of heap_init and of a split. */
    method WriteHeader(a: nat, size: u32, next: u32)
      requires mem.Length == HEAP_SIZE && HEAP_START <= a && a + HDR <= HEAP_END && a % 4 == 0
      modifies mem
      ensures HeaderAt(mem[..], Block(a, size, true), next)
      ensures SameOutside(old(mem[..]), mem[..], a, a + HDR)
    {
      Store(a, HEAP_MAGIC);
      Store(a + 4, size);
      Store(a + 8, Load(a + 8) - Load(a + 8) % 256 + 1);
      Store(a + 12, next);
    }

    /** kmalloc: walks from the head to the first block that fits, splitting it when the rest can hold a block. */
    method Kmalloc(request: u32) returns (ptr: nat)
      requires Valid()
      modifies this`blocks, mem
      ensures Valid()
      ensures blocks == Alloc(old(blocks), request).blocks && ptr == Alloc(old(blocks), request).ptr
      ensures PayloadsKept(old(blocks), old(mem[..]), mem[..])
    {
      hide PayloadsKept, Stored, Tiles, NoTwoFree, Rounded, Take;
      KeptSame(blocks, mem[..]);
      if request == 0 {
        return 0;
      }
      var size := Rounded(request);
      AllocKeepsCoalesced(blocks, request);
      var cur := head;
      ghost var i := 0;
      ghost var bs, goal := blocks, FirstFit(blocks, size, 0);
      BlockAddrs(bs);
      while cur != 0
        invariant Valid() && blocks == bs && mem[..] == old(mem[..])
        invariant 0 <= i <= |bs| && cur == (if i < |bs| then bs[i].addr else 0)
        invariant FirstFit(bs, size, i) == goal
        decreases |bs| - i
      {
        var fits, next := Inspect(cur, size, i);
        if fits {
          RoundedSize(request);
          PlaceAt(cur, size, i);
          return cur + HDR;
        }
        cur := next;
        i := i + 1;
      }
      ptr := 0;
    }

    /** One look at a header during the walk: whether the block fits, and where its next field leads. */
    method Inspect(cur: nat, size: nat, ghost i: nat) returns (fits: bool, next: nat)
      requires Valid() && i < |blocks| && blocks[i].addr == cur
      ensures fits == Fits(blocks[i], size) && next == NextOf(blocks, i)
    {
      hide Coalesced;
      ghost var m := mem[..];
      assert HeaderAt(m, blocks[i], NextOf(blocks, i));
      fits := Load(cur + 8) % 256 != 0 && Load(cur + 4) >= size;
      next := Load(cur + 12);
    }

    /** The writes of kmalloc in the block it takes. */
    method PlaceAt(cur: nat, size: nat, ghost i: nat)
      requires Valid() && i < |blocks| && blocks[i].addr == cur && Fits(blocks[i], size) && size % 8 == 0
      modifies this`blocks, mem
      ensures blocks == Take(old(blocks), i, size) && Stored(mem[..], blocks)
      ensures PayloadsKept(old(blocks), old(mem[..]), mem[..])
    {
      hide HeaderAt, Tiles, NoTwoFree, Place, PayloadsKept, SameOutside;
      ghost var m, bs := mem[..], blocks;
      assert HeaderAt(m, bs[i], NextOf(bs, i));
      InBounds(bs, HEAP_START, HEAP_END, i);
      PlaceTiles(bs[i], size);
      TakeBlock(cur, size, bs[i], NextOf(bs, i));
      SpliceStored(m, mem[..], bs, i, i + 1, Place(bs[i], size));
      SpliceKeepsPayloads(m, mem[..], bs, i, i + 1);
      blocks := Take(bs, i, size);
    }

    /** The split, if there is room for one, and the block marked in use. */
    method TakeBlock(cur: nat, size: nat, ghost b: Block, ghost next: nat)
      requires mem.Length == HEAP_SIZE && HeaderAt(mem[..], b, next) && b.addr == cur && b.End() <= HEAP_END
      requires Fits(b, size) && size % 8 == 0
      modifies mem
      ensures StoredTo(mem[..], Place(b, size), next)
      ensures SameOutside(old(mem[..]), mem[..], b.addr, b.End())
    {
      if Load(cur + 4) >= size + HDR + 8 {
        SplitBlock(cur, size, b, next);
      } else {
        Store(cur + 8, Load(cur + 8) - Load(cur + 8) % 256);
      }
    }

    /** A header for the rest inside the old payload, then the shortened block. */
    method SplitBlock(cur: nat, size: nat, ghost b: Block, ghost next: nat)
      requires mem.Length == HEAP_SIZE && HeaderAt(mem[..], b, next) && b.addr == cur && b.End() <= HEAP_END
      requires b.size >= size + HDR + 8 && size % 8 == 0
      modifies mem
      ensures HeaderAt(mem[..], Block(cur, size, false), cur + HDR + size)
      ensures HeaderAt(mem[..], Block(cur + HDR + size, b.size - size - HDR, true), next)
      ensures SameOutside(old(mem[..]), mem[..], b.addr, b.End())
    {
      ghost var m := mem[..];
      var split, rest, after := cur + HDR + size, Load(cur + 4) - size - HDR, Load(cur + 12);
      assert Load(cur + 4) == At(m, cur + 4) && Load(cur + 12) == At(m, cur + 12);
      SplitAligned(cur, size);
      hide HeaderAt, SameOutside;
      WriteHeader(split, rest, after);
      ghost var n := mem[..];
      HeaderKept(m, n, b, next, split, split + HDR);
      Shrink(cur, size, split, b, next);
      HeaderKept(n, mem[..], Block(split, b.size - size - HDR, true), next, cur, cur + HDR);
      OutsideBoth(m, n, mem[..], b, split, split + HDR, cur, cur + HDR);
    }

    /** The block before a split: cut to size, linked to the rest, in use. */
    method Shrink(cur: nat, size: nat, split: u32, ghost b: Block, ghost next: nat)
      requires mem.Length == HEAP_SIZE && HeaderAt(mem[..], b, next) && b.addr == cur && size <= b.size
      modifies mem
      ensures HeaderAt(mem[..], Block(cur, size, false), split)
      ensures SameOutside(old(mem[..]), mem[..], cur, cur + HDR)
    {
      Store(cur + 12, split);
      Store(cur + 4, size);
      Store(cur + 8, Load(cur + 8) - Load(cur + 8) % 256);
    }

    /** A caller's write into a word of a block it owns. */
    method Poke(a: nat, v: u32, ghost i: nat)
      requires Valid() && i < |blocks| && !blocks[i].free && blocks[i].Payload() <= a < blocks[i].End() <= HEAP_END && a % 4 == 0
      modifies mem
      ensures Valid() && mem[..] == old(mem[..])[a - HEAP_START := v]
    {
      hide Tiles, NoTwoFree, HeaderAt;
      ghost var m := mem[..];
      InBounds(blocks, HEAP_START, HEAP_END, i);
      Store(a, v);
      PayloadWriteHarmless(m, mem[..], blocks, i);
    }

    /** kfree of NULL, of a live pointer, or of one in whose header place the magic number is missing. */
    method Kfree(ptr: nat)
      requires Valid()
      requires ptr == 0 || IsLive(blocks, ptr)
               || (HEAP_START + HDR <= ptr < HEAP_END && ptr % 4 == 0 && Load(ptr - HDR) != HEAP_MAGIC)
      modifies this`blocks, mem
      ensures Valid()
      ensures blocks == (if old(IsLive(blocks, ptr)) then Free(old(blocks), ptr) else old(blocks))
      ensures !old(IsLive(blocks, ptr)) ==> mem[..] == old(mem[..])
      ensures PayloadsKept(blocks, old(mem[..]), mem[..])
    {
      hide Tiles, NoTwoFree, Stored, Merge, PayloadsKept, HeaderAt;
      ghost var m := mem[..];
      KeptSame(blocks, m);
      LivePointer(m, blocks, ptr);
      if ptr == 0 {
        return;
      }
      if Load(ptr - HDR) != HEAP_MAGIC {
        return;
      }
      FreeKeepsCoalesced(blocks, ptr);
      MarkFree(ptr - HDR, IndexOf(blocks, ptr));
      ghost var bs, before := blocks, mem[..];
      MergeFree();
      MergeUsedIn(bs);
      KeptForFewer(bs, blocks, m, before);
      KeptTransitive(blocks, m, before, mem[..]);
    }

    /** The flag write of kfree. */
    method MarkFree(cur: nat, ghost i: nat)
      requires Valid() && i < |blocks| && blocks[i].addr == cur
      modifies this`blocks, mem
      ensures blocks == old(blocks)[i := old(blocks)[i].(free := true)]
      ensures Tiles(blocks, HEAP_START, HEAP_END) && Stored(mem[..], blocks)
      ensures PayloadsKept(blocks, old(mem[..]), mem[..])
    {
      hide PayloadsKept, HeaderAt, Tiles, NoTwoFree, SameOutside;
      ghost var m, bs, b := mem[..], blocks, blocks[i].(free := true);
      assert HeaderAt(m, bs[i], NextOf(bs, i));
      InBounds(bs, HEAP_START, HEAP_END, i);
      SetFlag(cur, bs[i], NextOf(bs, i));
      Replaced(m, mem[..], bs, i, i + 1, b);
      assert bs[i := b] == bs[..i] + [b] + bs[i + 1..];
      blocks := bs[i := b];
    }

    method SetFlag(cur: nat, ghost b: Block, ghost next: nat)
      requires mem.Length == HEAP_SIZE && HeaderAt(mem[..], b, next) && b.addr == cur
      modifies mem
      ensures HeaderAt(mem[..], b.(free := true), next)
      ensures SameOutside(old(mem[..]), mem[..], b.addr, b.End())
    {
      Store(cur + 8, Load(cur + 8) - Load(cur + 8) % 256 + 1);
    }

    /** merge_free_blocks */
    method MergeFree()
      requires mem.Length == HEAP_SIZE && head == HEAP_START
      requires Tiles(blocks, HEAP_START, HEAP_END) && Stored(mem[..], blocks)
      modifies this`blocks, mem
      ensures blocks == Merge(old(blocks)) && Stored(mem[..], blocks)
      ensures PayloadsKept(blocks, old(mem[..]), mem[..])
    {
      hide Tiles, StoredTo, PayloadsKept, Merge, HeaderAt;
      var cur := head;
      ghost var i := 0;
      ghost var goal := Merge(blocks);
      ghost var m := mem[..];
      KeptSame(blocks, m);
      TilesStart(blocks);
      while true
        invariant head == HEAP_START && Tiles(blocks, HEAP_START, HEAP_END) && Stored(mem[..], blocks)
        invariant i < |blocks| && cur == blocks[i].addr
        invariant blocks[..i] + Merge(blocks[i..]) == goal
        invariant PayloadsKept(blocks, m, mem[..])
        decreases |blocks| - i
      {
        TilesStart(blocks);
        var free, next := Peek(cur, i);
        if next == 0 {
          MergeLast(blocks, i);
          break;
        }
        var nextFree, after := Peek(next, i + 1);
        ghost var before, bs := mem[..], blocks;
        MergeStep(bs, i);
        if free && nextFree {
          Absorb(cur, next, i);
          KeptForFewer(bs, blocks, m, before);
          KeptTransitive(blocks, m, before, mem[..]);
        } else {
          cur, i := next, i + 1;
        }
      }
    }

    /** The flag and the next field of a header. */
    method Peek(cur: nat, ghost i: nat) returns (free: bool, next: nat)
      requires mem.Length == HEAP_SIZE && Stored(mem[..], blocks) && i < |blocks| && blocks[i].addr == cur
      ensures free == blocks[i].free && next == NextOf(blocks, i)
    {
      ghost var m := mem[..];
      assert HeaderAt(m, blocks[i], NextOf(blocks, i));
      free := Load(cur + 8) % 256 != 0;
      next := Load(cur + 12);
    }

    /** Two free neighbours become one: only the first header is rewritten. */
    method Absorb(cur: nat, next: nat, ghost i: nat)
      requires mem.Length == HEAP_SIZE && Tiles(blocks, HEAP_START, HEAP_END) && Stored(mem[..], blocks)
      requires i + 1 < |blocks| && blocks[i].addr == cur && blocks[i + 1].addr == next
      requires blocks[i].free && blocks[i + 1].free
      modifies this`blocks, mem
      ensures blocks == JoinAt(old(blocks), i) && Tiles(blocks, HEAP_START, HEAP_END) && Stored(mem[..], blocks)
      ensures PayloadsKept(blocks, old(mem[..]), mem[..])
      ensures forall k :: 0 <= k < |blocks| && !blocks[k].free ==> blocks[k] in old(blocks)
    {
      hide PayloadsKept, HeaderAt, Tiles, SameOutside;
      ghost var m, bs, b := mem[..], blocks, Joined(blocks, i);
      assert HeaderAt(m, bs[i], NextOf(bs, i)) && HeaderAt(m, bs[i + 1], NextOf(bs, i + 1));
      InBounds(bs, HEAP_START, HEAP_END, i);
      InBounds(bs, HEAP_START, HEAP_END, i + 1);
      Neighbours(bs, i);
      Extend(cur, next, bs[i], bs[i + 1], NextOf(bs, i + 1));
      Replaced(m, mem[..], bs, i, i + 2, b);
      blocks := JoinAt(bs, i);
    }

    method Extend(cur: nat, next: nat, ghost b: Block, ghost c: Block, ghost after: nat)
      requires mem.Length == HEAP_SIZE && HeaderAt(mem[..], b, next) && HeaderAt(mem[..], c, after)
      requires b.addr == cur && c.addr == next && b.free && c.free && b.End() == c.addr && c.End() <= HEAP_END
      modifies mem
      ensures HeaderAt(mem[..], Block(b.addr, b.size + HDR + c.size, true), after)
      ensures SameOutside(old(mem[..]), mem[..], b.addr, c.End())
    {
      Store(cur + 4, Load(cur + 4) + HDR + Load(next + 4));
      Store(cur + 12, Load(next + 12));
    }
  }

  lemma KeptSame(bs: seq<Block>, m: Memory)
    ensures PayloadsKept(bs, m, m)
  {
  }

  lemma BlockAddrs(bs: seq<Block>)
    requires Coalesced(bs)
    ensures bs != [] && bs[0].addr == HEAP_START
    ensures forall i :: 0 <= i < |bs| ==> bs[i].addr >= HEAP_START
  {
    forall i | 0 <= i < |bs|
      ensures bs[i].addr >= HEAP_START
    {
      InBounds(bs, HEAP_START, HEAP_END, i);
    }
  }

  lemma TilesStart(bs: seq<Block>)
    requires Tiles(bs, HEAP_START, HEAP_END)
    ensures bs != [] && bs[0].addr == HEAP_START
    ensures forall i :: 0 <= i < |bs| ==> bs[i].addr > 0
  {
    forall i | 0 <= i < |bs|
      ensures bs[i].addr > 0
    {
      InBounds(bs, HEAP_START, HEAP_END, i);
    }
  }

  /** A live pointer is not NULL and has the magic number in its header. */
  lemma LivePointer(m: Memory, bs: seq<Block>, ptr: nat)
    requires Tiles(bs, HEAP_START, HEAP_END) && Stored(m, bs)
    ensures IsLive(bs, ptr) ==> HEAP_START + HDR <= ptr && ptr - HDR < HEAP_END && At(m, ptr - HDR) == HEAP_MAGIC
    ensures IsLive(bs, ptr) ==> bs[IndexOf(bs, ptr)].addr == ptr - HDR
  {
    var i := IndexOf(bs, ptr);
    if i < |bs| {
      assert HeaderAt(m, bs[i], NextOf(bs, i));
    }
  }

  lemma MergeLast(bs: seq<Block>, i: nat)
    requires i + 1 == |bs|
    ensures bs[..i] + Merge(bs[i..]) == bs
  {
  }

  /** One round of merge_free_blocks at position i keeps what is left to merge. */
  lemma MergeStep(bs: seq<Block>, i: nat)
    requires i + 1 < |bs|
    ensures bs[i].free && bs[i + 1].free ==>
              var c := JoinAt(bs, i);
              i < |c| && c[i].addr == bs[i].addr && c[..i] + Merge(c[i..]) == bs[..i] + Merge(bs[i..])
    ensures !(bs[i].free && bs[i + 1].free) ==> bs[..i + 1] + Merge(bs[i + 1..]) == bs[..i] + Merge(bs[i..])
  {
    if bs[i].free && bs[i + 1].free {
      var c := JoinAt(bs, i);
      assert bs[i..][2..] == bs[i + 2..];
      assert c[i..] == [Joined(bs, i)] + bs[i + 2..];
      assert c[..i] == bs[..i];
    } else {
      assert bs[i..][1..] == bs[i + 1..];
      assert bs[..i + 1] == bs[..i] + [bs[i]];
    }
  }

  lemma Neighbours(bs: seq<Block>, i: nat)
    requires Tiles(bs, HEAP_START, HEAP_END) && i + 1 < |bs|
    ensures bs[i].End() == bs[i + 1].addr
  {
  }

  /** A stretch of blocks turned into one free block by writes inside the stretch. */
  lemma Replaced(m: Memory, n: Memory, bs: seq<Block>, i: nat, j: nat, b: Block)
    requires Tiles(bs, HEAP_START, HEAP_END) && Stored(m, bs) && i < j <= |bs|
    requires b.free && b.addr == bs[i].addr && b.End() == bs[j - 1].End()
    requires SameOutside(m, n, bs[i].addr, bs[j - 1].End())
    requires HeaderAt(n, b, NextOf(bs, j - 1))
    ensures var c := bs[..i] + [b] + bs[j..];
            && Tiles(c, HEAP_START, HEAP_END) && Stored(n, c) && PayloadsKept(c, m, n)
            && forall k :: 0 <= k < |c| && !c[k].free ==> c[k] in bs
  {
    hide HeaderAt, Tiles, SameOutside, SameInside;
    var c := bs[..i] + [b] + bs[j..];
    TilesOne(bs, i, j, b);
    assert StoredTo(n, [b], NextOf(bs, j - 1));
    SpliceStored(m, n, bs, i, j, [b]);
    Splice(bs, HEAP_START, HEAP_END, i, j, [b]);
    SpliceKeepsPayloads(m, n, c, i, i + 1);
    InOne(bs, i, j, b);
  }

  lemma TilesOne(bs: seq<Block>, i: nat, j: nat, b: Block)
    requires Tiles(bs, HEAP_START, HEAP_END) && i < j <= |bs|
    requires b.addr == bs[i].addr && b.End() == bs[j - 1].End()
    ensures Tiles([b], b.addr, b.End())
  {
    hide Tiles;
    InBounds(bs, HEAP_START, HEAP_END, i);
    InBounds(bs, HEAP_START, HEAP_END, j - 1);
    EndAligned(bs[j - 1]);
    SizeAligned(b);
    TilesSingle(b);
  }

  lemma EndAligned(b: Block)
    requires b.addr % 8 == 0 && b.size % 8 == 0
    ensures b.End() % 8 == 0
  {
    var a, s := b.addr / 8, b.size / 8;
    assert b.addr == 8 * a && b.size == 8 * s;
    TimesEight(a + 2 + s);
  }

  lemma SizeAligned(b: Block)
    requires b.addr % 8 == 0 && b.End() % 8 == 0
    ensures b.size % 8 == 0
  {
    var a, e := b.addr / 8, b.End() / 8;
    assert b.addr == 8 * a && b.End() == 8 * e;
    TimesEight(e - 2 - a);
  }

  lemma TilesSingle(b: Block)
    requires b.addr % 8 == 0 && b.size % 8 == 0
    ensures Tiles([b], b.addr, b.End())
  {
  }

  lemma InOne(bs: seq<Block>, i: nat, j: nat, b: Block)
    requires i < j <= |bs| && b.free
    ensures var c := bs[..i] + [b] + bs[j..];
            forall k :: 0 <= k < |c| && !c[k].free ==> c[k] in bs
  {
    var c := bs[..i] + [b] + bs[j..];
    forall k | 0 <= k < |c| && !c[k].free
      ensures c[k] in bs
    {
      assert c[k] == if k < i then bs[k] else if k == i then b else bs[k - 1 - i + j];
    }
  }

  lemma {:induction false} InUsed(bs: seq<Block>, b: Block)
    requires !b.free
    ensures b in Used(bs) <==> b in bs
  {
    if bs != [] {
      InUsed(bs[1..], b);
      assert bs == [bs[0]] + bs[1..];
    }
  }

  /** Merging brings no block into use. */
  lemma MergeUsedIn(bs: seq<Block>)
    ensures var c := Merge(bs);
            forall k :: 0 <= k < |c| && !c[k].free ==> c[k] in bs
  {
    var c := Merge(bs);
    MergeKeepsUsed(bs);
    forall k | 0 <= k < |c| && !c[k].free
      ensures c[k] in bs
    {
      InUsed(c, c[k]);
      InUsed(bs, c[k]);
    }
  }
}
