/** The physical frame allocator over its bitmap (mm/pmm.c). */
module Pmm {
  import opened Bytes
  import opened Bits

  const FRAME_SIZE := 4096

  /** Frames below 2 MB are reserved for the kernel. */
  const FIRST_FREE := 512

  /** 32-bit words for the frames of a 4 GB address space. */
  const MAX_WORDS := 0x8000

  // ---------------------------------------------------------------- frames as a sequence of flags

  /** The number of frames below n not in use. */
  function CountFree(u: seq<bool>, n: nat): (c: nat)
    requires n <= |u|
    ensures c <= n
  {
    if n == 0 then 0 else CountFree(u, n - 1) + if u[n - 1] then 0 else 1
  }

  /** The lowest frame in [f, n) not in use, or n. */
  function LowestFree(u: seq<bool>, f: nat, n: nat): (r: nat)
    requires f <= n <= |u|
    ensures f <= r <= n
    ensures r < n ==> !u[r]
    ensures forall k :: f <= k < r ==> u[k]
    decreases n - f
  {
    if f == n || !u[f] then f else LowestFree(u, f + 1, n)
  }

  lemma {:induction false} LowestFreeFrom(u: seq<bool>, f: nat, n: nat, r: nat)
    requires f <= r <= n <= |u|
    requires r < n ==> !u[r]
    requires forall k :: f <= k < r ==> u[k]
    ensures LowestFree(u, f, n) == r
    decreases r - f
  {
    if f < r {
      LowestFreeFrom(u, f + 1, n, r);
    }
  }

  lemma LowestFreeIs(u: seq<bool>, n: nat, r: nat)
    requires r <= n <= |u|
    requires r < n ==> !u[r]
    requires forall k :: 0 <= k < r ==> u[k]
    ensures LowestFree(u, 0, n) == r
  {
    LowestFreeFrom(u, 0, n, r);
  }

  /** Changing the flag of one frame changes the count by one, or by nothing beyond n. */
  lemma {:induction false} CountAfterUpdate(u: seq<bool>, n: nat, f: nat, used: bool)
    requires n <= |u| && f < |u| && u[f] != used
    ensures CountFree(u[f := used], n) == CountFree(u, n) + if f >= n then 0 else if used then -1 else 1
  {
    if n > 0 {
      CountAfterUpdate(u, n - 1, f, used);
    }
  }

  /** Nothing is free exactly when the count is zero. */
  lemma {:induction false} CountZeroIff(u: seq<bool>, n: nat)
    requires n <= |u|
    ensures CountFree(u, n) == 0 <==> LowestFree(u, 0, n) == n
  {
    if n > 0 {
      CountZeroIff(u, n - 1);
      if LowestFree(u, 0, n - 1) < n - 1 {
        LowestFreeIs(u, n, LowestFree(u, 0, n - 1));
      } else {
        LowestFreeIs(u, n, if u[n - 1] then n else n - 1);
      }
    }
  }

  lemma {:induction false} CountAllUsed(u: seq<bool>, n: nat)
    requires n <= |u| && forall k :: 0 <= k < n ==> u[k]
    ensures CountFree(u, n) == 0
  {
    if n > 0 {
      CountAllUsed(u, n - 1);
    }
  }

  class FrameAllocator {
    const bitmap: array<bv32>
    var totalFrames: nat
    var freeFrames: int
    var bitmapWords: nat

    /** bitmap_test */
    predicate Test(f: nat)
      reads bitmap
      requires f / 32 < bitmap.Length
    {
      Bit(bitmap[f / 32], f % 32)
    }

    /** One flag per bit of the bitmap words in use: true for a frame in use. */
    ghost function Frames(): (u: seq<bool>)
      reads this`bitmapWords, bitmap
      requires bitmapWords <= bitmap.Length
      ensures |u| == 32 * bitmapWords
      ensures forall f :: 0 <= f < |u| ==> u[f] == Test(f)
    {
      var n := 32 * bitmapWords;
      seq(n, f requires 0 <= f < n <= 32 * bitmap.Length reads bitmap => Test(f))
    }

    ghost predicate Shape()
      reads this`bitmapWords, this`totalFrames
    {
      bitmap.Length == MAX_WORDS && bitmapWords == (totalFrames + 31) / 32 <= MAX_WORDS
    }

    /** The count is right, and neither the bits past the last frame nor the kernel's frames are free. */
    ghost predicate Valid()
      reads this, bitmap
    {
      && Shape()
      && freeFrames == CountFree(Frames(), totalFrames)
      && (forall f :: totalFrames <= f < 32 * bitmapWords ==> Frames()[f])
      && (forall f :: 0 <= f < FIRST_FREE && f < totalFrames ==> Frames()[f])
    }

    /** The statics before pmm_init. */
    constructor (bitmap: array<bv32>)
      requires bitmap.Length == MAX_WORDS
      ensures this.bitmap == bitmap && totalFrames == 0
    {
      this.bitmap := bitmap;
      totalFrames, freeFrames, bitmapWords := 0, 0, 0;
    }

    /** bitmap_set */
    method SetUsed(f: nat)
      requires Shape() && f < 32 * bitmapWords
      modifies bitmap
      ensures Frames() == old(Frames())[f := true]
    {
      ghost var before := bitmap[f / 32];
      bitmap[f / 32] := SetBit(bitmap[f / 32], f % 32);
      forall g | 0 <= g < 32 * bitmapWords
        ensures Test(g) == old(Frames())[f := true][g]
      {
        if g / 32 == f / 32 {
          SetThenBit(before, f % 32, g % 32);
          assert g % 32 == f % 32 ==> g == f;
          assert old(Test(g)) == Bit(before, g % 32);
        } else {
          assert old(Test(g)) == Test(g);
        }
      }
    }

    /** bitmap_clear */
    method SetFree(f: nat)
      requires Shape() && f < 32 * bitmapWords
      modifies bitmap
      ensures Frames() == old(Frames())[f := false]
    {
      ghost var before := bitmap[f / 32];
      bitmap[f / 32] := ClearBit(bitmap[f / 32], f % 32);
      forall g | 0 <= g < 32 * bitmapWords
        ensures Test(g) == old(Frames())[f := false][g]
      {
        if g / 32 == f / 32 {
          ClearThenBit(before, f % 32, g % 32);
          assert g % 32 == f % 32 ==> g == f;
          assert old(Test(g)) == Bit(before, g % 32);
        } else {
          assert old(Test(g)) == Test(g);
        }
      }
    }

    /** The frames of memKb kilobytes, at most 2^20. */
    static function FramesOf(memKb: u32): (n: nat)
      ensures n <= 32 * MAX_WORDS
    {
      memKb * 1024 % 0x1_0000_0000 / FRAME_SIZE
    }

    /** Four kilobytes a frame, below 4 GB. */
    static lemma FourKilobytes(memKb: u32)
      ensures memKb < 0x40_0000 ==> FramesOf(memKb) == memKb / 4
      ensures memKb == 0x40_0000 ==> FramesOf(memKb) == 0
    {
    }

    /** pmm_init; the byte count wraps around at 4 GB. */
    method Init(memKb: u32)
      requires bitmap.Length == MAX_WORDS
      modifies this, bitmap
      ensures Valid()
      ensures totalFrames == FramesOf(memKb)
      ensures forall f :: 0 <= f < totalFrames ==> Frames()[f] == (4096 * f < 0x20_0000)
      ensures freeFrames == if totalFrames > 512 then totalFrames - 512 else 0
    {
      totalFrames := FramesOf(memKb);
      bitmapWords := (totalFrames + 31) / 32;
      MarkAllUsed();
      freeFrames := 0;
      CountAllUsed(Frames(), totalFrames);
      ghost var n := totalFrames;
      ReleaseFrames();
    }

    /** The loop of pmm_init that frees everything above the kernel. */
    method ReleaseFrames()
      requires Shape() && freeFrames == 0 == CountFree(Frames(), totalFrames)
      requires forall f :: 0 <= f < |Frames()| ==> Frames()[f]
      modifies this`freeFrames, bitmap
      ensures Valid()
      ensures forall f :: 0 <= f < totalFrames ==> Frames()[f] == (f < FIRST_FREE)
      ensures freeFrames == if totalFrames > FIRST_FREE then totalFrames - FIRST_FREE else 0
    {
      hide CountFree;
      var f := FIRST_FREE;
      while f < totalFrames
        invariant FIRST_FREE <= f && Shape() && (f <= totalFrames || f == FIRST_FREE)
        invariant forall k :: 0 <= k < |Frames()| ==> Frames()[k] == (k < FIRST_FREE || f <= k)
        invariant freeFrames == f - FIRST_FREE == CountFree(Frames(), totalFrames)
      {
        CountAfterUpdate(Frames(), totalFrames, f, false);
        SetFree(f);
        freeFrames := freeFrames + 1;
        f := f + 1;
      }
    }

    /** The memset that opens pmm_init. */
    method MarkAllUsed()
      requires Shape()
      modifies bitmap
      ensures forall f :: 0 <= f < |Frames()| ==> Frames()[f]
    {
      var i := 0;
      while i < bitmapWords
        invariant 0 <= i <= bitmapWords
        invariant forall k :: 0 <= k < i ==> bitmap[k] == ALL_ONES
      {
        bitmap[i] := ALL_ONES;
        i := i + 1;
      }
      forall f | 0 <= f < 32 * bitmapWords
        ensures Frames()[f]
      {
        AllOnesBit(f % 32);
      }
    }

    /** pmm_alloc: skips full words, takes the lowest free frame; 0 means that none was left. */
    method Alloc() returns (addr: nat)
      requires Valid()
      modifies this`freeFrames, bitmap
      ensures Valid()
      ensures var u := old(Frames());
              var f := LowestFree(u, 0, totalFrames);
              && (f == totalFrames ==> addr == 0 && Frames() == u)
              && (f < totalFrames ==> addr == 4096 * f && addr >= 0x20_0000 && Frames() == u[f := true])
      ensures addr == 0 <==> old(freeFrames) == 0
      ensures freeFrames == old(freeFrames) - if addr == 0 then 0 else 1
    {
      hide CountFree, LowestFree;
      ghost var u := Frames();
      CountZeroIff(u, totalFrames);
      var i := 0;
      while i < bitmapWords
        invariant 0 <= i <= bitmapWords
        invariant Valid() && Frames() == u && freeFrames == old(freeFrames)
        invariant forall k :: 0 <= k < 32 * i ==> u[k]
      {
        var bit := ScanWord(i);
        if bit < 32 {
          var frame := i * 32 + bit;
          if frame >= totalFrames {
            LowestFreeIs(u, totalFrames, totalFrames);
            return 0;
          }
          LowestFreeIs(u, totalFrames, frame);
          Take(frame);
          return frame * FRAME_SIZE;
        }
        i := i + 1;
      }
      LowestFreeIs(u, totalFrames, totalFrames);
      addr := 0;
    }

    /** A free frame is marked and counted. */
    method Take(f: nat)
      requires Valid() && f < totalFrames && !Frames()[f]
      modifies this`freeFrames, bitmap
      ensures Valid() && Frames() == old(Frames())[f := true] && freeFrames == old(freeFrames) - 1 && f >= FIRST_FREE
    {
      hide CountFree;
      CountAfterUpdate(Frames(), totalFrames, f, true);
      SetUsed(f);
      freeFrames := freeFrames - 1;
    }

    /** The body of pmm_alloc's outer loop: the first bit of word i that ends the search, or 32. A full word is
        skipped unseen. */
    method ScanWord(i: nat) returns (bit: nat)
      requires Shape() && i < bitmapWords
      ensures bit <= 32
      ensures forall k :: 32 * i <= k < 32 * i + bit ==> Frames()[k]
      ensures bit < 32 ==> 32 * i + bit >= totalFrames || !Frames()[32 * i + bit]
    {
      if bitmap[i] == ALL_ONES {
        forall k | 32 * i <= k < 32 * i + 32
          ensures Frames()[k]
        {
          AllOnesBit(k % 32);
        }
        return 32;
      }
      bit := 0;
      while bit < 32
        invariant 0 <= bit <= 32
        invariant forall k :: 32 * i <= k < 32 * i + bit ==> Frames()[k]
      {
        var frame := i * 32 + bit;
        if frame >= totalFrames || !Test(frame) {
          return;
        }
        bit := bit + 1;
      }
    }

    /** pmm_free. An address past the end is ignored. Any other frame is free and counted afterwards, so the allocator
        is sound again exactly if the frame was in use and is not the kernel's: freeing twice breaks the count. */
    method Free(addr: u32)
      requires Valid()
      modifies this`freeFrames, bitmap
      ensures Shape()
      ensures var f := addr / FRAME_SIZE;
              && Frames() == (if f < totalFrames then old(Frames())[f := false] else old(Frames()))
              && freeFrames == old(freeFrames) + (if f < totalFrames then 1 else 0)
              && (Valid() <==> f >= totalFrames || (f >= FIRST_FREE && old(Frames())[f]))
    {
      hide CountFree;
      var frame := addr / FRAME_SIZE;
      if frame >= totalFrames {
        return;
      }
      ghost var u := Frames();
      if u[frame] {
        CountAfterUpdate(u, totalFrames, frame, false);
      } else {
        assert u[frame := false] == u;
      }
      SetFree(frame);
      freeFrames := freeFrames + 1;
      assert frame < FIRST_FREE ==> !Frames()[frame];
    }
  }
}
