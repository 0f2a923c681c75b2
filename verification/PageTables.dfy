/** Two-level page tables as the processor reads them (section 4.3 of the Intel SDM, volume 3A) and the effect of
    writing them (mm/vmm.c). */
module PageTables {
  import opened Bytes

  const TABLE_ENTRIES := 1024

  /** Pages of a 32-bit address space. */
  const PAGES := 0x10_0000

  /** PAGE_PRESENT */
  predicate Present(e: u32) { e % 2 == 1 }

  /** The frame an entry points to: entry & ~0xFFF, as a frame number. */
  function FrameOf(e: u32): nat { e / 4096 }

  /** addr | flags | PAGE_PRESENT for a page-aligned address and flag bits below it */
  function MakeEntry(frame: nat, flags: nat): (e: u32)
    requires frame < PAGES && flags < 4096
    ensures Present(e) && FrameOf(e) == frame
  {
    EntryParts(frame, WithPresent(flags));
    frame * 4096 + WithPresent(flags)
  }

  lemma EntryParts(frame: nat, w: nat)
    requires w < 4096
    ensures (frame * 4096 + w) / 4096 == frame && (frame * 4096 + w) % 2 == w % 2
  {
  }

  /** flags | PAGE_PRESENT */
  function WithPresent(flags: nat): (r: nat)
    requires flags < 4096
    ensures r < 4096 && r % 2 == 1
  {
    2 * (flags / 2) + 1
  }

  // ---------------------------------------------------------------- the words bit by bit

  /** a | b */
  function Or(a: nat, b: nat): nat
  {
    if a == 0 then b else if b == 0 then a
    else (if a % 2 == 1 || b % 2 == 1 then 1 else 0) + 2 * Or(a / 2, b / 2)
  }

  /** a & b */
  function And(a: nat, b: nat): nat
  {
    if a == 0 || b == 0 then 0
    else (if a % 2 == 1 && b % 2 == 1 then 1 else 0) + 2 * And(a / 2, b / 2)
  }

  function Pow2(k: nat): (r: nat)
    ensures r > 0
  {
    if k == 0 then 1 else 2 * Pow2(k - 1)
  }

  /** a << k */
  function Shl(a: nat, k: nat): nat
  {
    if k == 0 then a else 2 * Shl(a, k - 1)
  }

  /** a >> k */
  function Shr(a: nat, k: nat): nat
  {
    if k == 0 then a else Shr(a / 2, k - 1)
  }

  lemma {:induction false} OrShifted(a: nat, b: nat, k: nat)
    requires b < Pow2(k)
    ensures Or(Shl(a, k), b) == Shl(a, k) + b
  {
    if k > 0 {
      OrShifted(a, b / 2, k - 1);
    }
  }

  lemma {:induction false} AndShifted(a: nat, m: nat, k: nat)
    ensures And(a, Shl(m, k)) == Shl(And(Shr(a, k), m), k)
  {
    if k > 0 {
      AndShifted(a / 2, m, k - 1);
    }
  }

  lemma ShiftsBy12(a: nat)
    ensures Shl(a, 12) == 4096 * a && Shr(a, 12) == a / 4096
  {
    ShiftsBy6(a);
    ShiftsBy6(a / 64);
    ShlTwice(a, 6, 6);
    ShrTwice(a, 6, 6);
    ShiftsBy6(64 * a);
  }

  lemma ShiftsBy6(a: nat)
    ensures Shl(a, 6) == 64 * a && Shr(a, 6) == a / 64
  {
    assert Shl(a, 1) == 2 * a;
    assert Shl(a, 2) == 4 * a;
    assert Shl(a, 3) == 8 * a;
    assert Shl(a, 4) == 16 * a;
    assert Shl(a, 5) == 32 * a;
    assert Shr(a / 32, 1) == a / 64;
    assert Shr(a / 16, 2) == a / 64;
    assert Shr(a / 8, 3) == a / 64;
    assert Shr(a / 4, 4) == a / 64;
    assert Shr(a / 2, 5) == a / 64;
  }

  lemma {:induction false} ShlTwice(a: nat, j: nat, k: nat)
    ensures Shl(a, j + k) == Shl(Shl(a, k), j)
  {
    if j > 0 {
      ShlTwice(a, j - 1, k);
    }
  }

  lemma {:induction false} ShrTwice(a: nat, j: nat, k: nat)
    ensures Shr(a, j + k) == Shr(Shr(a, j), k)
  {
    if j > 0 {
      ShrTwice(a / 2, j - 1, k);
    }
  }

  lemma {:induction false} AndOnes(a: nat, k: nat)
    requires a < Pow2(k)
    ensures And(a, Pow2(k) - 1) == a
  {
    if k > 0 && a > 0 {
      var p := Pow2(k - 1);
      assert (2 * p - 1) / 2 == p - 1 && (2 * p - 1) % 2 == 1;
      AndOnes(a / 2, k - 1);
    }
  }

  lemma Powers()
    ensures Pow2(12) == 4096 && Pow2(20) == PAGES
  {
    assert Pow2(4) == 16 && Pow2(8) == 256 && Pow2(12) == 4096 && Pow2(16) == 0x1_0000;
  }

  /** What the driver stores, address | flags | PAGE_PRESENT, is the entry. */
  lemma EntryIsOr(frame: nat, flags: nat)
    requires frame < PAGES && flags < 4096
    ensures Or(Or(frame * 4096, flags), 1) == MakeEntry(frame, flags)
  {
    hide Or, Shl, Shr, Pow2, FrameOf, Present;
    Powers();
    ShiftsBy12(frame);
    OrShifted(frame, flags, 12);
    OrOne(frame * 4096 + flags);
    HalfOf(frame, flags);
  }

  lemma HalfOf(frame: nat, flags: nat)
    ensures (frame * 4096 + flags) / 2 == frame * 2048 + flags / 2
  {
  }

  lemma OrOne(x: nat)
    ensures Or(x, 1) == 2 * (x / 2) + 1
  {
    assert Or(x / 2, 0) == x / 2;
  }

  /** What it takes out of a word: entry & PAGE_PRESENT, and entry & ~0xFFF, the frame's address. */
  lemma MasksAre(e: u32)
    ensures And(e, 1) == 1 <==> Present(e)
    ensures And(e, 0xFFFF_F000) == FrameOf(e) * 4096
  {
    Powers();
    ShiftsBy12(e);
    ShiftsBy12(PAGES - 1);
    ShiftsBy12(e / 4096);
    AndShifted(e, PAGES - 1, 12);
    AndOnes(e / 4096, 20);
  }

  // ---------------------------------------------------------------- tables

  /** Tables that exist lie in memory and are different frames. */
  ghost predicate TablesApart(dir: seq<u32>, words: nat)
  {
    && |dir| == TABLE_ENTRIES
    && (forall i :: 0 <= i < |dir| && Present(dir[i]) ==> 1024 * FrameOf(dir[i]) + 1024 <= words)
    && (forall i, j :: 0 <= i < |dir| && 0 <= j < |dir| && Present(dir[i]) && Present(dir[j]) && FrameOf(dir[i]) == FrameOf(dir[j]) ==> i == j)
  }

  ghost predicate IsTable(dir: seq<u32>, frame: nat)
  {
    exists i :: 0 <= i < |dir| && Present(dir[i]) && FrameOf(dir[i]) == frame
  }

  /** The page-table entry the processor finds for page p; 0 if there is no table. */
  ghost function Lookup(dir: seq<u32>, mem: seq<u32>, p: nat): u32
    requires TablesApart(dir, |mem|) && p < PAGES
  {
    var e := dir[p / 1024];
    if Present(e) then mem[1024 * FrameOf(e) + p % 1024] else 0
  }

  /** Writing one table entry changes the lookup of one page. */
  lemma EntryWritten(dir: seq<u32>, mem: seq<u32>, p: nat, e: u32, q: nat)
    requires TablesApart(dir, |mem|) && p < PAGES && q < PAGES && Present(dir[p / 1024])
    ensures 1024 * FrameOf(dir[p / 1024]) + p % 1024 < |mem|
    ensures Lookup(dir, mem[1024 * FrameOf(dir[p / 1024]) + p % 1024 := e], q) == if q == p then e else Lookup(dir, mem, q)
  {
    var t := FrameOf(dir[p / 1024]);
    assert 1024 * t + 1024 <= |mem|;
    if q / 1024 != p / 1024 && Present(dir[q / 1024]) {
      var u := FrameOf(dir[q / 1024]);
      assert u != t;
    }
  }

  /** Hanging a cleared frame that is no table into an empty directory slot changes no lookup. */
  lemma TableAdded(dir: seq<u32>, mem: seq<u32>, mem': seq<u32>, i: nat, e: u32)
    requires TablesApart(dir, |mem|) && i < |dir| && !Present(dir[i])
    requires Present(e) && 1024 * FrameOf(e) + 1024 <= |mem| == |mem'| && !IsTable(dir, FrameOf(e))
    requires forall w :: 0 <= w < |mem| ==> mem'[w] == if w / 1024 == FrameOf(e) then 0 else mem[w]
    ensures TablesApart(dir[i := e], |mem'|)
    ensures forall q :: 0 <= q < PAGES ==> Lookup(dir[i := e], mem', q) == Lookup(dir, mem, q)
  {
    var d := dir[i := e];
    assert TablesApart(d, |mem'|);
    forall q | 0 <= q < PAGES
      ensures Lookup(d, mem', q) == Lookup(dir, mem, q)
    {
      if Present(d[q / 1024]) {
        var w := 1024 * FrameOf(d[q / 1024]) + q % 1024;
        assert w / 1024 == FrameOf(d[q / 1024]);
      }
    }
  }
}
