/** The virtual memory manager over the frame allocator (mm/vmm.c). */
module Vmm {
  import opened Bytes
  import opened Pmm
  import opened PageTables

  const PAGE_WRITE := 2

  /** Pages of the identity map. */
  const KERNEL_PAGES := 2048

  class AddressSpace {
    const frames: FrameAllocator
    const pageDir: array<u32>

    /** Physical memory: the word at physical address 4 * w is mem[w]. */
    const mem: array<u32>

    /** The directory and memory as vmm_init finds them. */
    constructor (frames: FrameAllocator, pageDir: array<u32>, mem: array<u32>)
      ensures this.frames == frames && this.pageDir == pageDir && this.mem == mem
    {
      this.frames, this.pageDir, this.mem := frames, pageDir, mem;
    }

    ghost predicate Valid()
      reads this, frames, frames.bitmap, pageDir, mem
    {
      && frames.Valid()
      && Separate()
      && mem.Length == 1024 * frames.totalFrames
      && TablesApart(pageDir[..], mem.Length)
      && TablesOwned()
    }

    /** The directory, the memory and the bitmap are different objects. */
    ghost predicate Separate()
    {
      && mem != pageDir && (mem as object) != frames.bitmap && (pageDir as object) != frames.bitmap
      && (mem as object) != frames && (pageDir as object) != frames
    }

    /** Every table is an allocated frame above the kernel's. */
    ghost predicate TablesOwned()
      reads this, frames, frames.bitmap, pageDir
      requires frames.Shape()
    {
      forall f: nat :: IsTable(pageDir[..], f) ==> FIRST_FREE <= f < frames.totalFrames && frames.Frames()[f]
    }

    /** The entry the processor finds for page p now. */
    ghost function Entry(p: nat): u32
      reads this, frames, frames.bitmap, pageDir, mem
      requires Valid() && p < PAGES
    {
      Lookup(pageDir[..], mem[..], p)
    }

    /** Frames in use that are no table keep their contents. */
    twostate predicate OthersKept()
      reads this, frames, frames.bitmap, pageDir, mem
      requires old(Valid()) && Valid() && frames.totalFrames == old(frames.totalFrames)
    {
      forall w :: 0 <= w < mem.Length && old(frames.Frames()[w / 1024]) && !old(IsTable(pageDir[..], w / 1024)) ==>
                    mem[w] == old(mem[w])
    }

    /** memset of one frame */
    method ZeroFrame(f: nat)
      requires 1024 * f + 1024 <= mem.Length
      modifies mem
      ensures forall w :: 0 <= w < mem.Length ==> mem[w] == if w / 1024 == f then 0 else old(mem[w])
    {
      forall w | 1024 * f <= w < 1024 * f + 1024 {
        mem[w] := 0;
      }
    }

    /** get_table: the table for a page, made if there is none and a frame is left; 0 for NULL. */
    method GetTable(virt: u32, flags: nat) returns (table: nat)
      requires Valid() && flags < 4096
      modifies frames`freeFrames, frames.bitmap, pageDir, mem
      ensures Valid() && frames.totalFrames == old(frames.totalFrames)
      ensures table == 0 <==> old(!Present(pageDir[virt / 0x40_0000]) && frames.freeFrames == 0)
      ensures table == 0 ==> !Present(pageDir[virt / 0x40_0000])
      ensures table != 0 ==> Present(pageDir[virt / 0x40_0000]) && table == 4096 * FrameOf(pageDir[virt / 0x40_0000])
      ensures forall p :: 0 <= p < PAGES ==> Entry(p) == old(Entry(p))
      ensures OthersKept()
      ensures forall f: nat :: IsTable(pageDir[..], f) ==> old(IsTable(pageDir[..], f)) || !old(frames.Frames()[f])
      ensures forall i :: 0 <= i < 1024 && i != virt / 0x40_0000 ==> pageDir[i] == old(pageDir[i])
      ensures frames.freeFrames == old(frames.freeFrames) - (if table != 0 && old(!Present(pageDir[virt / 0x40_0000])) then 1 else 0)
    {
      hide Lookup, FrameAllocator.Frames;
      var pdi := virt / 0x40_0000;
      var entry := pageDir[pdi];
      if Present(entry) {
        assert IsTable(pageDir[..], FrameOf(entry));
        return entry / 4096 * 4096;
      }
      table := frames.Alloc();
      if table == 0 {
        return;
      }
      ghost var dir := pageDir[..];
      NewTable(pdi, table / 4096, flags);
      TablesAfterAdd(dir, pdi, pageDir[pdi]);
      assert pageDir[..] == dir[pdi := pageDir[pdi]];
    }

    /** Clearing a fresh frame and hanging it into the directory. */
    method NewTable(pdi: nat, f: nat, flags: nat)
      requires Valid() && pdi < 1024 && !Present(pageDir[pdi]) && flags < 4096
      requires FIRST_FREE <= f < frames.totalFrames && frames.Frames()[f] && !IsTable(pageDir[..], f)
      modifies pageDir, mem
      ensures Valid()
      ensures Present(pageDir[pdi]) && FrameOf(pageDir[pdi]) == f
      ensures forall i :: 0 <= i < 1024 && i != pdi ==> pageDir[i] == old(pageDir[i])
      ensures forall w :: 0 <= w < mem.Length && w / 1024 != f ==> mem[w] == old(mem[w])
      ensures forall p :: 0 <= p < PAGES ==> Entry(p) == old(Entry(p))
    {
      assert f < PAGES;
      hide Lookup;
      ghost var dir, before, u := pageDir[..], mem[..], frames.Frames();
      assert forall g: nat :: IsTable(dir, g) ==> FIRST_FREE <= g < frames.totalFrames && u[g];
      ZeroFrame(f);
      assert pageDir[..] == dir && frames.Valid();
      var e := MakeEntry(f, flags);
      pageDir[pdi] := e;
      TableAdded(dir, before, mem[..], pdi, e);
      TablesAfterAdd(dir, pdi, e);
      assert pageDir[..] == dir[pdi := e];
      assert frames.Valid() && frames.Frames() == u;
      forall g: nat | IsTable(pageDir[..], g)
        ensures FIRST_FREE <= g < frames.totalFrames && frames.Frames()[g]
      {
        assert IsTable(dir[pdi := e], g);
        assert IsTable(dir, g) || g == FrameOf(e);
      }
    }

    /** Writing one entry of an existing table. */
    method PutEntry(virt: u32, e: u32)
      requires Valid() && Present(pageDir[virt / 0x40_0000])
      modifies mem
      ensures Valid()
      ensures forall p :: 0 <= p < PAGES ==> Entry(p) == if p == virt / 4096 then e else old(Entry(p))
      ensures forall w :: 0 <= w < mem.Length && !IsTable(pageDir[..], w / 1024) ==> mem[w] == old(mem[w])
    {
      hide FrameAllocator.Valid, Lookup;
      var table := pageDir[virt / 0x40_0000] / 4096 * 4096;
      var pti := virt / 4096 % 1024;
      ghost var dir, before, p := pageDir[..], mem[..], virt / 4096;
      assert p / 1024 == virt / 0x40_0000 && p % 1024 == pti;
      assert Present(dir[p / 1024]);
      mem[table / 4 + pti] := e;
      assert mem[..] == before[1024 * FrameOf(dir[p / 1024]) + p % 1024 := e];
      forall q | 0 <= q < PAGES
        ensures Entry(q) == if q == p then e else old(Entry(q))
      {
        EntryWritten(dir, before, p, e, q);
      }
      assert IsTable(dir, FrameOf(dir[p / 1024]));
    }

    /** A table for the page exists or can be made. */
    predicate Reachable(virt: u32)
      reads this, frames, pageDir
      requires pageDir.Length == 1024
    {
      Present(pageDir[virt / 0x40_0000]) || frames.freeFrames != 0
    }

    /** The common course of vmm_map and vmm_unmap: find or make the table, then write one entry. */
    method Update(virt: u32, flags: nat, e: u32)
      requires Valid() && flags < 4096
      modifies frames`freeFrames, frames.bitmap, pageDir, mem
      ensures Valid() && frames.totalFrames == old(frames.totalFrames)
      ensures forall p :: 0 <= p < PAGES ==> Entry(p) == if p == virt / 4096 && old(Reachable(virt)) then e else old(Entry(p))
      ensures OthersKept()
      ensures forall i :: 0 <= i < 1024 && i != virt / 0x40_0000 ==> pageDir[i] == old(pageDir[i])
      ensures Present(pageDir[virt / 0x40_0000]) <==> old(Reachable(virt))
      ensures frames.freeFrames ==
              old(frames.freeFrames) - (if old(Reachable(virt) && !Present(pageDir[virt / 0x40_0000])) then 1 else 0)
    {
      hide FrameAllocator.Valid, Lookup, TablesApart, IsTable;
      var table := GetTable(virt, flags);
      if table == 0 {
        return;
      }
      ghost var dir := pageDir[..];
      PutEntry(virt, e);
      assert pageDir[..] == dir;
    }

    /** vmm_map: the translation changes at exactly one page, or nowhere when no frame is left for a table. */
    method Map(virt: u32, phys: u32, flags: nat)
      requires Valid() && flags < 4096
      modifies frames`freeFrames, frames.bitmap, pageDir, mem
      ensures Valid() && frames.totalFrames == old(frames.totalFrames)
      ensures forall p :: 0 <= p < PAGES ==>
                Entry(p) == if p == virt / 4096 && old(Reachable(virt)) then MakeEntry(FrameOf(phys), flags) else old(Entry(p))
      ensures OthersKept()
      ensures forall i :: 0 <= i < 1024 && i != virt / 0x40_0000 ==> pageDir[i] == old(pageDir[i])
      ensures Present(pageDir[virt / 0x40_0000]) <==> old(Reachable(virt))
      ensures frames.freeFrames ==
              old(frames.freeFrames) - (if old(Reachable(virt) && !Present(pageDir[virt / 0x40_0000])) then 1 else 0)
    {
      Update(virt, flags, MakeEntry(FrameOf(phys), flags));
    }

    /** vmm_unmap: exactly one page loses its translation, even when a table had to be made for it first. */
    method Unmap(virt: u32)
      requires Valid()
      modifies frames`freeFrames, frames.bitmap, pageDir, mem
      ensures Valid() && frames.totalFrames == old(frames.totalFrames)
      ensures forall p :: 0 <= p < PAGES ==> Entry(p) == if p == virt / 4096 && old(Reachable(virt)) then 0 else old(Entry(p))
      ensures OthersKept()
    {
      Update(virt, 0, 0);
    }

    /** The first n pages are mapped to themselves with as many tables as free frames allowed, no other page is. */
    ghost predicate IdentityUpTo(n: nat, free: nat)
      reads this, frames, frames.bitmap, pageDir, mem
      requires Valid()
    {
      && (forall p :: 0 <= p < PAGES ==> Entry(p) == if p < n && p < 1024 * free then MakeEntry(p, PAGE_WRITE) else 0)
      && (forall i :: 0 <= i < 1024 ==> (Present(pageDir[i]) <==> 1024 * i < n && i < free))
      && frames.freeFrames == free - Min((n + 1023) / 1024, free)
    }

    /** vmm_init up to the control registers: the first 8 MB map to themselves and nothing else is mapped, as far as
        the frames for two tables go. */
    method Init()
      requires frames.Valid() && Separate() && pageDir.Length == 1024 && mem.Length == 1024 * frames.totalFrames
      modifies frames`freeFrames, frames.bitmap, pageDir, mem
      ensures Valid() && IdentityUpTo(KERNEL_PAGES, old(frames.freeFrames))
    {
      ghost var free: nat := frames.freeFrames;
      ClearDirectory();
      MapKernel(free);
    }

    /** The loop that maps every page of the kernel's 8 MB to itself. */
    method MapKernel(ghost free: nat)
      requires Valid() && IdentityUpTo(0, free)
      modifies frames`freeFrames, frames.bitmap, pageDir, mem
      ensures Valid() && IdentityUpTo(KERNEL_PAGES, free)
    {
      hide FrameAllocator.Valid, AddressSpace.Valid, IdentityUpTo;
      var addr := 0;
      ghost var n := 0;
      while addr < 0x80_0000
        invariant addr == 4096 * n && n <= KERNEL_PAGES
        invariant Valid() && IdentityUpTo(n, free)
        decreases KERNEL_PAGES - n
      {
        MapKernelPage(addr, n, free);
        addr, n := addr + 4096, n + 1;
      }
    }

    /** The memset of the directory: no page is mapped. */
    method ClearDirectory()
      requires frames.Valid() && Separate() && pageDir.Length == 1024 && mem.Length == 1024 * frames.totalFrames
      modifies pageDir
      ensures Valid() && IdentityUpTo(0, frames.freeFrames)
    {
      ZeroDirectory();
      EmptyIsIdentity();
    }

    method ZeroDirectory()
      requires frames.Valid() && Separate() && pageDir.Length == 1024 && mem.Length == 1024 * frames.totalFrames
      modifies pageDir
      ensures Valid() && forall i :: 0 <= i < 1024 ==> pageDir[i] == 0
    {
      forall i | 0 <= i < 1024 {
        pageDir[i] := 0;
      }
    }

    lemma EmptyIsIdentity()
      requires Valid() && forall i :: 0 <= i < 1024 ==> pageDir[i] == 0
      ensures IdentityUpTo(0, frames.freeFrames)
    {
      forall p | 0 <= p < PAGES ensures Entry(p) == 0 {
        assert pageDir[p / 1024] == 0;
      }
    }

    method MapKernelPage(addr: u32, ghost n: nat, ghost free: nat)
      requires Valid() && addr == 4096 * n && n < KERNEL_PAGES && IdentityUpTo(n, free)
      modifies frames`freeFrames, frames.bitmap, pageDir, mem
      ensures Valid() && frames.totalFrames == old(frames.totalFrames) && IdentityUpTo(n + 1, free)
    {
      hide FrameAllocator.Valid, Lookup, TablesApart, IsTable, MakeEntry;
      assert addr / 4096 == n && addr / 0x40_0000 == n / 1024 && FrameOf(addr) == n;
      Map(addr, addr, PAGE_WRITE);
    }
  }

  /** The words of the identity map: the page's own address, present and writable. */
  lemma KernelEntryIs(p: nat)
    requires p < PAGES
    ensures MakeEntry(p, PAGE_WRITE) == 4096 * p + 3
  {
  }

  lemma TablesAfterAdd(dir: seq<u32>, i: nat, e: u32)
    requires i < |dir| && !Present(dir[i]) && Present(e)
    ensures forall f: nat :: IsTable(dir[i := e], f) <==> IsTable(dir, f) || f == FrameOf(e)
  {
    var d := dir[i := e];
    forall f: nat
      ensures IsTable(d, f) <==> IsTable(dir, f) || f == FrameOf(e)
    {
      if IsTable(dir, f) {
        var k :| 0 <= k < |dir| && Present(dir[k]) && FrameOf(dir[k]) == f;
        assert Present(d[k]);
      }
      assert Present(d[i]);
    }
  }
}
