/** Single bits of 32-bit words, as the frame bitmap uses them (mm/pmm.c). */
module Bits {

  /** (w >> k) & 1 */
  predicate Bit(w: bv32, k: nat)
    requires k < 32
  {
    SmallIndex(k);
    BitAt(w, k as bv8)
  }

  predicate BitAt(w: bv32, k: bv8)
    requires k < 32
  {
    (w >> k) & 1 == 1
  }

  function SetAt(w: bv32, k: bv8): bv32
    requires k < 32
  {
    w | (1 << k)
  }

  function ClearAt(w: bv32, k: bv8): bv32
    requires k < 32
  {
    w & !(1 << k)
  }

  /** w | (1u << k) */
  function SetBit(w: bv32, k: nat): bv32
    requires k < 32
  {
    SmallIndex(k);
    SetAt(w, k as bv8)
  }

  /** w & ~(1u << k) */
  function ClearBit(w: bv32, k: nat): bv32
    requires k < 32
  {
    SmallIndex(k);
    ClearAt(w, k as bv8)
  }

  const ALL_ONES: bv32 := 0xFFFF_FFFF

  lemma SetAtBit(w: bv32, k: bv8, j: bv8)
    requires k < 32 && j < 32
    ensures BitAt(SetAt(w, k), j) <==> j == k || BitAt(w, j)
  {
  }

  lemma ClearAtBit(w: bv32, k: bv8, j: bv8)
    requires k < 32 && j < 32
    ensures BitAt(ClearAt(w, k), j) <==> j != k && BitAt(w, j)
  {
  }

  lemma OnesAt(j: bv8)
    requires j < 32
    ensures BitAt(ALL_ONES, j)
  {
  }

  /** A small number survives the trip into a byte. */
  lemma ThereAndBack(k: nat)
    requires k < 32
    ensures (k as bv8) as nat == k
  {
  }

  lemma SmallIndex(k: nat)
    requires k < 32
    ensures (k as bv8) < 32
  {
    ThereAndBack(k);
  }

  lemma DistinctIndex(j: nat, k: nat)
    requires j < 32 && k < 32 && j as bv8 == k as bv8
    ensures j == k
  {
    ThereAndBack(j);
    ThereAndBack(k);
  }

  /** Setting a bit sets that bit and no other. */
  lemma SetThenBit(w: bv32, k: nat, j: nat)
    requires k < 32 && j < 32
    ensures Bit(SetBit(w, k), j) <==> j == k || Bit(w, j)
  {
    SmallIndex(k);
    SmallIndex(j);
    hide BitAt, SetAt;
    SetAtBit(w, k as bv8, j as bv8);
    if j as bv8 == k as bv8 {
      DistinctIndex(j, k);
    }
  }

  lemma ClearThenBit(w: bv32, k: nat, j: nat)
    requires k < 32 && j < 32
    ensures Bit(ClearBit(w, k), j) <==> j != k && Bit(w, j)
  {
    SmallIndex(k);
    SmallIndex(j);
    hide BitAt, ClearAt;
    ClearAtBit(w, k as bv8, j as bv8);
    if j as bv8 == k as bv8 {
      DistinctIndex(j, k);
    }
  }

  lemma AllOnesBit(j: nat)
    requires j < 32
    ensures Bit(ALL_ONES, j)
  {
    SmallIndex(j);
    OnesAt(j as bv8);
  }
}
