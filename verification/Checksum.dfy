/** The Internet checksum as ip_checksum computes it (kernel/net.c:55-63; RFC 1071, sections 1 and 2). */
module Checksum {
  import opened Bytes

  /** The longest buffer whose 32-bit sum cannot wrap around. */
  const MAX_BYTES := 131074

  /** The sum of the buffer's 16-bit little-endian words; an odd last byte stands for itself. */
  function WordSum(s: seq<u8>): nat
  {
    if s == [] then 0
    else if |s| == 1 then s[0] as int
    else LE16(s, 0) + WordSum(s[2..])
  }

  /** Adding the carries back in until the sum fits sixteen bits. */
  function Fold(sum: nat): (f: nat)
    ensures f < 0x1_0000
  {
    if sum < 0x1_0000 then sum else Fold(sum % 0x1_0000 + sum / 0x1_0000)
  }

  lemma FoldStep(sum: nat)
    requires sum >= 0x1_0000
    ensures sum % 0x1_0000 + sum / 0x1_0000 < sum
    ensures Fold(sum % 0x1_0000 + sum / 0x1_0000) == Fold(sum)
  {
  }

  function Sum16(s: seq<u8>): u16 { 0xFFFF - Fold(WordSum(s)) }

  lemma {:induction false} WordSumBound(s: seq<u8>, words: nat)
    requires |s| <= 2 * words + 1
    ensures WordSum(s) <= 0xFFFF * words + (if |s| == 2 * words + 1 then 255 else 0)
    decreases words
  {
    if |s| >= 2 {
      WordSumBound(s[2..], words - 1);
    }
  }

  /** Folding keeps the value modulo 65535 and whether it is zero. */
  lemma {:induction false} FoldKeeps(sum: nat)
    ensures Fold(sum) % 0xFFFF == sum % 0xFFFF
    ensures Fold(sum) == 0 <==> sum == 0
    decreases sum
  {
    if sum >= 0x1_0000 {
      var next := sum % 0x1_0000 + sum / 0x1_0000;
      assert sum == next + 0xFFFF * (sum / 0x1_0000);
      FoldKeeps(next);
      ModShift(next, sum / 0x1_0000);
    }
  }

  lemma {:induction false} ModShift(a: nat, k: nat)
    ensures (a + 0xFFFF * k) % 0xFFFF == a % 0xFFFF
    decreases k
  {
    if k > 0 {
      ModShift(a, k - 1);
      assert a + 0xFFFF * k == (a + 0xFFFF * (k - 1)) + 0xFFFF;
    }
  }

  /** The folded sum is determined by the sum modulo 65535 and by whether it is zero. */
  lemma FoldDetermined(a: nat, b: nat)
    requires a % 0xFFFF == b % 0xFFFF && (a == 0 <==> b == 0)
    ensures Fold(a) == Fold(b)
  {
    FoldKeeps(a);
    FoldKeeps(b);
  }

  /** The words 0001 f203 f4f5 f6f7 of section 3 of RFC 1071 have the checksum 220d, stored as the bytes 22 0d; an odd
      last byte counts as the first of a word. */
  lemma KnownSums()
    ensures Sum16([0x00, 0x01, 0xF2, 0x03, 0xF4, 0xF5, 0xF6, 0xF7]) == 0x0D22
    ensures Sum16([0x01, 0x02, 0x03]) == 0xFFFF - 0x0204
  {
    var s: seq<u8> := [0x00, 0x01, 0xF2, 0x03, 0xF4, 0xF5, 0xF6, 0xF7];
    assert s[2..] == [0xF2, 0x03, 0xF4, 0xF5, 0xF6, 0xF7] && s[4..] == [0xF4, 0xF5, 0xF6, 0xF7] && s[6..] == [0xF6, 0xF7];
    assert WordSum(s[6..]) == 0xF7F6 by {
      assert s[6..][2..] == [];
    }
    assert WordSum(s[4..]) == 0xF5F4 + 0xF7F6 by {
      assert s[4..][2..] == s[6..];
    }
    assert WordSum(s[2..]) == 0x03F2 + 0xF5F4 + 0xF7F6 by {
      assert s[2..][2..] == s[4..];
    }
    assert WordSum(s) == 0x1_F2DC;
    assert Fold(0x1_F2DC) == Fold(0xF2DD) == 0xF2DD;
    var t: seq<u8> := [0x01, 0x02, 0x03];
    assert t[2..] == [0x03];
  }

  // ---------------------------------------------------------------- storing and verifying

  /** A word at an even offset counts once in the sum, whether the buffer's length is even or odd. */
  lemma {:induction false} SumWithWord(s: seq<u8>, o: nat, v: u16)
    requires o % 2 == 0 && o + 2 <= |s|
    ensures WordSum(PutLE16(s, o, v)) + LE16(s, o) == WordSum(s) + v
    decreases o
  {
    var t := PutLE16(s, o, v);
    if o == 0 {
      assert t[2..] == s[2..];
    } else {
      SumWithWord(s[2..], o - 2, v);
      assert t[2..] == PutLE16(s[2..], o - 2, v);
      assert t[0] == s[0] && t[1] == s[1];
    }
  }

  /** Which values of the field make the whole buffer's checksum zero: the computed one, and its other form of zero. */
  lemma VerifiesIff(s: seq<u8>, o: nat, v: u16)
    requires o % 2 == 0 && o + 2 <= |s| && s[o] == 0 && s[o + 1] == 0
    ensures Sum16(PutLE16(s, o, v)) == 0 <==> WordSum(s) + v != 0 && v % 0xFFFF == Sum16(s) % 0xFFFF
  {
    hide Fold, WordSum;
    SumWithWord(s, o, v);
    var sum, f := WordSum(s), Fold(WordSum(s));
    FoldKeeps(sum);
    FoldKeeps(sum + v);
    AddMod(sum, f, v);
    assert LE16(s, o) == 0;
    assert WordSum(PutLE16(s, o, v)) == sum + v;
    FoldIsOnes(sum + v);
  }

  lemma FoldIsOnes(sum: nat)
    ensures Fold(sum) == 0xFFFF <==> sum != 0 && sum % 0xFFFF == 0
  {
    FoldKeeps(sum);
  }

  lemma AddMod(sum: nat, f: nat, v: u16)
    requires sum % 0xFFFF == f % 0xFFFF && f <= 0xFFFF
    ensures (sum + v) % 0xFFFF == 0 <==> v % 0xFFFF == (0xFFFF - f) % 0xFFFF
  {
    var q, r := sum / 0xFFFF, sum % 0xFFFF;
    assert sum + v == (r + v) + 0xFFFF * q;
    ModShift(r + v, q);
    SmallMod(f);
    SmallMod(v);
    SmallMod(0xFFFF - f);
    ZeroSum(r, v);
  }

  lemma SmallMod(v: nat)
    requires v <= 0xFFFF
    ensures v % 0xFFFF == if v == 0xFFFF then 0 else v
  {
  }

  lemma ZeroSum(r: nat, v: u16)
    requires r < 0xFFFF
    ensures (r + v) % 0xFFFF == 0 <==> r + v in {0, 0xFFFF, 0x1_FFFE}
  {
  }

  /** Storing the checksum in its zeroed field makes the checksum of the whole buffer zero. */
  lemma StoredVerifies(s: seq<u8>, o: nat)
    requires o % 2 == 0 && o + 2 <= |s| && s[o] == 0 && s[o + 1] == 0
    ensures Sum16(PutLE16(s, o, Sum16(s))) == 0
  {
    VerifiesIff(s, o, Sum16(s));
    FoldKeeps(WordSum(s));
  }

  /** Changing one word of a buffer that verifies is noticed, unless a word of zeros and one of ones are exchanged. */
  lemma ChangeNoticed(s: seq<u8>, o: nat, v: u16)
    requires o % 2 == 0 && o + 2 <= |s| && Sum16(s) == 0 && v != LE16(s, o)
    ensures Sum16(PutLE16(s, o, v)) == 0 ==> {v, LE16(s, o)} == {0, 0xFFFF}
  {
    hide WordSum, Fold, PutLE16;
    var w := LE16(s, o);
    SumWithWord(s, o, v);
    if Sum16(PutLE16(s, o, v)) == 0 {
      FoldIsOnes(WordSum(s));
      FoldIsOnes(WordSum(s) - w + v);
      SameWord(WordSum(s) - w, v, w);
    }
  }

  lemma SameWord(rest: nat, v: u16, w: u16)
    requires (rest + v) % 0xFFFF == 0 && (rest + w) % 0xFFFF == 0 && v != w
    ensures {v, w} == {0, 0xFFFF}
  {
    var q, r := rest / 0xFFFF, rest % 0xFFFF;
    assert rest == r + 0xFFFF * q;
    ModShift(r + v, q);
    ModShift(r + w, q);
    assert rest + v == (r + v) + 0xFFFF * q && rest + w == (r + w) + 0xFFFF * q;
  }

  // ---------------------------------------------------------------- byte order

  function BE16(s: seq<u8>, o: nat): u16
    requires o + 2 <= |s|
  {
    256 * s[o] as int + s[o + 1] as int
  }

  /** The sum in network byte order; an odd last byte is the high half of its word. */
  function NetworkSum(s: seq<u8>): nat
  {
    if s == [] then 0
    else if |s| == 1 then 256 * s[0] as int
    else BE16(s, 0) + NetworkSum(s[2..])
  }

  /** htons. */
  function Swap(v: u16): u16 { v % 256 * 256 + v / 256 }

  lemma {:induction false} SumsSwapped(s: seq<u8>)
    ensures WordSum(s) % 0xFFFF == (256 * NetworkSum(s)) % 0xFFFF
    ensures WordSum(s) == 0 <==> NetworkSum(s) == 0
    decreases |s|
  {
    if |s| == 1 {
      ModShift(s[0], s[0]);
    } else if |s| >= 2 {
      SumsSwapped(s[2..]);
      var le: int, be: int := LE16(s, 0), BE16(s, 0);
      assert 256 * be == le + 0xFFFF * s[0] as int;
      ModAdd(WordSum(s[2..]), 256 * NetworkSum(s[2..]), le, s[0]);
    }
  }

  lemma ModAdd(a: nat, b: nat, w: nat, k: nat)
    requires a % 0xFFFF == b % 0xFFFF
    ensures (w + a) % 0xFFFF == (w + 0xFFFF * k + b) % 0xFFFF
  {
    ModShift(w + b, k);
    SameRest(a, b, w);
    assert w + 0xFFFF * k + b == w + b + 0xFFFF * k;
  }

  lemma SameRest(a: nat, b: nat, w: nat)
    requires a % 0xFFFF == b % 0xFFFF
    ensures (w + a) % 0xFFFF == (w + b) % 0xFFFF
  {
    var r := a % 0xFFFF;
    ModShift(w + r, a / 0xFFFF);
    ModShift(w + r, b / 0xFFFF);
    assert w + a == w + r + 0xFFFF * (a / 0xFFFF);
    assert w + b == w + r + 0xFFFF * (b / 0xFFFF);
  }

  lemma SwapTimes256(f: u16)
    ensures Swap(f) % 0xFFFF == (256 * f) % 0xFFFF
    ensures Swap(f) == 0 <==> f == 0
  {
    assert 256 * f == Swap(f) + 0xFFFF * (f / 256);
    ModShift(Swap(f), f / 256);
  }

  lemma Times256(a: nat, b: nat)
    requires a % 0xFFFF == b % 0xFFFF
    ensures (256 * a) % 0xFFFF == (256 * b) % 0xFFFF
  {
    var r := a % 0xFFFF;
    ModShift(256 * r, 256 * (a / 0xFFFF));
    ModShift(256 * r, 256 * (b / 0xFFFF));
    assert 256 * a == 256 * r + 0xFFFF * (256 * (a / 0xFFFF));
    assert 256 * b == 256 * r + 0xFFFF * (256 * (b / 0xFFFF));
  }

  /** Summing in the machine's byte order gives the byte swap of the sum in network order. */
  lemma ByteOrderIndependent(s: seq<u8>)
    ensures Sum16(s) == Swap(0xFFFF - Fold(NetworkSum(s)))
  {
    var n := NetworkSum(s);
    var f := Fold(n);
    SumsSwapped(s);
    FoldKeeps(n);
    Times256(n, f);
    SwapTimes256(f);
    FoldDetermined(WordSum(s), Swap(f));
    SwapComplement(f);
  }

  lemma SwapComplement(f: u16)
    ensures Swap(0xFFFF - f) == 0xFFFF - Swap(f)
  {
    assert (0xFFFF - f) / 256 == 255 - f / 256 && (0xFFFF - f) % 256 == 255 - f % 256;
  }

  // ---------------------------------------------------------------- the loop

  lemma FoldSmall(sum: nat)
    requires sum < 0x1_0000
    ensures Fold(sum) == sum
  {
  }

  lemma WordSumStep(s: seq<u8>, at: nat)
    requires at + 2 <= |s|
    ensures WordSum(s[at..]) == s[at] as int + 256 * s[at + 1] as int + WordSum(s[at + 2..])
  {
    assert s[at..][2..] == s[at + 2..];
  }

  lemma WordSumEnd(s: seq<u8>, at: nat)
    requires at <= |s| <= at + 1
    ensures WordSum(s[at..]) == if at < |s| then s[at] as int else 0
  {
  }

  /** ip_checksum over len bytes of a buffer, with its 32-bit sum. */
  method IpChecksum(buf: array<u8>, start: nat, len: nat) returns (c: u16)
    requires start + len <= buf.Length && len <= MAX_BYTES
    ensures c == Sum16(buf[start..start + len])
  {
    hide WordSum, Fold;
    ghost var s := buf[start..start + len];
    ghost var target := WordSum(s);
    WordSumBound(s, MAX_BYTES / 2);
    assert s[0..] == s;
    var sum: u32, left: nat, p: nat := 0, len, start;
    while left > 1
      invariant left <= len && p == start + len - left
      invariant sum + WordSum(s[len - left..]) == target
      decreases left
    {
      WordSumStep(s, len - left);
      assert s[len - left] == buf[p] && s[len - left + 1] == buf[p + 1];
      sum := sum + buf[p] as int + 256 * buf[p + 1] as int;
      p := p + 2;
      left := left - 2;
    }
    WordSumEnd(s, len - left);
    if left > 0 {
      assert s[len - left] == buf[p];
      sum := sum + buf[p] as int;
    }
    assert sum == target;
    while sum >= 0x1_0000
      invariant Fold(sum) == Fold(target)
      decreases sum
    {
      FoldStep(sum);
      sum := sum % 0x1_0000 + sum / 0x1_0000;
    }
    FoldSmall(sum);
    c := 0xFFFF - sum;
  }

  /** Zeroing a checksum field and storing the checksum of the bytes around it, as each sender does. */
  method FillChecksum(buf: array<u8>, start: nat, len: nat, field: nat)
    requires start + len <= buf.Length && len <= MAX_BYTES && field % 2 == 0 && field + 2 <= len
    modifies buf
    ensures Sum16(buf[start..start + len]) == 0
    ensures forall i :: 0 <= i < buf.Length && !(start + field <= i < start + field + 2) ==> buf[i] == old(buf[i])
  {
    buf[start + field], buf[start + field + 1] := 0, 0;
    ghost var s := buf[start..start + len];
    var c := IpChecksum(buf, start, len);
    buf[start + field], buf[start + field + 1] := c % 256, c / 256;
    assert buf[start..start + len] == PutLE16(s, field, c);
    StoredVerifies(s, field);
  }
}
