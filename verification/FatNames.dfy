/** 8.3 names (kernel/fat12.c, fat83_to_str, str_to_fat83 and names_match). */
module FatNames {
  import opened Bytes

  const SPACE: u8 := 0x20
  const DOT: u8 := 0x2E

  /** A C string without its terminator. */
  type Name = s: seq<u8> | forall k :: 0 <= k < |s| ==> s[k] != 0 witness []

  /** The eleven raw bytes of a directory entry's name field. */
  type Raw83 = s: seq<u8> | |s| == 11 witness seq(11, _ => 0x20)

  function Upper(c: u8): u8
  {
    if 0x61 <= c <= 0x7A then c - 32 else c
  }

  function UpperAll(s: seq<u8>): (r: seq<u8>)
    ensures |r| == |s| && forall k :: 0 <= k < |s| ==> r[k] == Upper(s[k])
  {
    seq(|s|, k requires 0 <= k < |s| => Upper(s[k]))
  }

  /** The longest prefix of s without a space, at most n bytes long. */
  function UntilSpace(s: seq<u8>, n: nat): (r: seq<u8>)
    requires n <= |s|
    ensures |r| <= n && r == s[..|r|] && SPACE !in r
    ensures |r| < n ==> s[|r|] == SPACE
  {
    if n == 0 || s[0] == SPACE then [] else [s[0]] + UntilSpace(s[1..], n - 1)
  }

  /** fat83_to_str */
  function ToStr(raw: Raw83): (r: seq<u8>)
    ensures |r| <= 12
  {
    UntilSpace(raw, 8) + if raw[8] != SPACE then [DOT] + UntilSpace(raw[8..], 3) else []
  }

  /** Position of the first dot, or the length when there is none. */
  function FirstDot(s: seq<u8>): (d: nat)
    ensures d <= |s| && DOT !in s[..d]
    ensures d < |s| ==> s[d] == DOT
  {
    if s == [] || s[0] == DOT then 0
    else
      var d := FirstDot(s[1..]);
      assert s[..d + 1] == [s[0]] + s[1..][..d];
      d + 1
  }

  function Base(s: seq<u8>): seq<u8> { s[..FirstDot(s)] }

  function Ext(s: seq<u8>): seq<u8> { if FirstDot(s) < |s| then s[FirstDot(s) + 1..] else [] }

  function Take(s: seq<u8>, n: nat): (r: seq<u8>)
    ensures |r| == Min(|s|, n) && r == s[..|r|]
  {
    s[..Min(|s|, n)]
  }

  function PadTo(s: seq<u8>, n: nat): (r: seq<u8>)
    requires |s| <= n
    ensures |r| == n && r[..|s|] == s
    ensures forall k :: |s| <= k < n ==> r[k] == SPACE
  {
    s + seq(n - |s|, _ => SPACE)
  }

  /** str_to_fat83: upper-cased base cut to eight bytes and extension cut to three. */
  function To83(s: seq<u8>): Raw83
  {
    PadTo(UpperAll(Take(Base(s), 8)), 8) + PadTo(UpperAll(Take(Ext(s), 3)), 3)
  }

  /** The outcome names_match computes: equal up to the case of ASCII letters. */
  predicate SameName(a: seq<u8>, b: seq<u8>)
  {
    UpperAll(a) == UpperAll(b)
  }

  /** A name the 8.3 field can hold without loss. */
  predicate Fits83(s: seq<u8>)
  {
    && SPACE !in s
    && FirstDot(s) <= 8
    && (FirstDot(s) < |s| ==> 1 <= |Ext(s)| <= 3)
  }

  function UpperByte(c: u8): u8
  {
    if c < 0x61 || c > 0x7A then c else c - 0x20
  }

  lemma PartBytes(s: seq<u8>, n: nat, k: nat)
    requires k < n
    ensures PadTo(UpperAll(Take(s, n)), n)[k] == if k < |s| then UpperByte(s[k]) else 0x20
  {
    var part := UpperAll(Take(s, n));
    if k < |s| {
      assert PadTo(part, n)[k] == PadTo(part, n)[..|part|][k] == part[k];
    }
  }

  /** The name field byte by byte: eight for what precedes the first dot, three for what follows it, in upper case and
      filled up with spaces. */
  lemma FieldBytes(s: seq<u8>, k: nat)
    requires k < 11
    ensures var d, raw := FirstDot(s), To83(s);
            raw[k] ==
            if k < 8 then if k < d then UpperByte(s[k]) else 0x20
            else if d + k - 7 < |s| then UpperByte(s[d + k - 7]) else 0x20
  {
    hide PadTo, UpperAll, Take, FirstDot, UpperByte;
    if k < 8 {
      PartBytes(Base(s), 8, k);
    } else {
      PartBytes(Ext(s), 3, k - 8);
    }
  }

  /** The name under which an entry created for s is listed and searched. */
  function Stored(s: seq<u8>): seq<u8> { ToStr(To83(s)) }

  lemma {:induction false} UntilSpaceIs(s: seq<u8>, n: nat, r: seq<u8>)
    requires |r| <= n <= |s| && r == s[..|r|] && SPACE !in r
    requires |r| < n ==> s[|r|] == SPACE
    ensures UntilSpace(s, n) == r
  {
    if r != [] {
      UntilSpaceIs(s[1..], n - 1, r[1..]);
    }
  }

  lemma {:induction false} UntilSpaceStops(s: seq<u8>, n: nat, k: nat)
    requires k <= n <= |s|
    requires k < n ==> s[k] == SPACE
    ensures |UntilSpace(s, n)| <= k
  {
    if n > 0 && s[0] != SPACE {
      UntilSpaceStops(s[1..], n - 1, k - 1);
    }
  }

  lemma UntilSpaceOfPadded(s: seq<u8>, n: nat, tail: seq<u8>)
    requires |s| <= n && SPACE !in s
    ensures UntilSpace(PadTo(s, n) + tail, n) == s
  {
    var t := PadTo(s, n) + tail;
    assert t[..|s|] == s;
    UntilSpaceIs(t, n, s);
  }

  /** An upper-cased part holds a space exactly where the original does. */
  lemma UpperKeepsSpaces(s: seq<u8>)
    ensures SPACE in UpperAll(s) <==> SPACE in s
  {
    forall k | 0 <= k < |s|
      ensures UpperAll(s)[k] == SPACE <==> s[k] == SPACE
    {
    }
    if SPACE in s {
      var k :| 0 <= k < |s| && s[k] == SPACE;
      assert UpperAll(s)[k] == SPACE;
    }
  }

  lemma UpperTwice(s: seq<u8>)
    ensures UpperAll(UpperAll(s)) == UpperAll(s)
  {
  }

  lemma SplitUpper(s: seq<u8>)
    ensures UpperAll(s) == UpperAll(Base(s)) + if FirstDot(s) < |s| then [DOT] + UpperAll(Ext(s)) else []
  {
    hide UpperAll, FirstDot;
    if FirstDot(s) < |s| {
      SplitUpperAt(s, FirstDot(s));
    } else {
      assert s == Base(s);
    }
  }

  lemma SplitUpperAt(s: seq<u8>, d: nat)
    requires d < |s| && s[d] == DOT
    ensures UpperAll(s) == UpperAll(s[..d]) + [DOT] + UpperAll(s[d + 1..])
  {
  }

  /** A name field is printed as it stands, up to the spaces behind its two parts, with a dot in front of a second one. */
  lemma FieldPrints(base: seq<u8>, ext: seq<u8>)
    requires |base| <= 8 && |ext| <= 3 && SPACE !in base && SPACE !in ext
    ensures ToStr(PadTo(base, 8) + PadTo(ext, 3)) == base + if ext == [] then [] else [0x2E] + ext
  {
    var raw := PadTo(base, 8) + PadTo(ext, 3);
    UntilSpaceOfPadded(base, 8, PadTo(ext, 3));
    assert raw[8..] == PadTo(ext, 3) == PadTo(ext, 3) + [];
    UntilSpaceOfPadded(ext, 3, []);
    assert raw[8] == PadTo(ext, 3)[0];
  }

  /** A name that fits is stored as its own upper-case form. */
  lemma StoredIsUpper(s: seq<u8>)
    requires Fits83(s)
    ensures Stored(s) == UpperAll(s)
  {
    var b, e := UpperAll(Base(s)), UpperAll(Ext(s));
    assert Take(Base(s), 8) == Base(s) && Take(Ext(s), 3) == Ext(s);
    UpperKeepsSpaces(Base(s));
    UpperKeepsSpaces(Ext(s));
    UntilSpaceOfPadded(b, 8, PadTo(e, 3));
    var raw := To83(s);
    assert raw[8..] == PadTo(e, 3);
    assert PadTo(e, 3) == PadTo(e, 3) + [];
    UntilSpaceOfPadded(e, 3, []);
    assert raw[8] == PadTo(e, 3)[0];
    SplitUpper(s);
  }

  /** No stored name contains a space or an over-long part. */
  lemma StoredHasNoSpace(s: seq<u8>)
    ensures SPACE !in Stored(s)
  {
  }

  lemma {:induction false} FirstDotOfUpper(s: seq<u8>)
    ensures FirstDot(UpperAll(s)) == FirstDot(s)
  {
    if s != [] && s[0] != DOT {
      FirstDotOfUpper(s[1..]);
      assert UpperAll(s)[1..] == UpperAll(s[1..]);
    }
  }

  /** Matching is blind to case, so fitting is a property of the name up to case. */
  lemma FitsUpToCase(a: seq<u8>, b: seq<u8>)
    requires SameName(a, b)
    ensures Fits83(a) <==> Fits83(b)
  {
    UpperKeepsSpaces(a);
    UpperKeepsSpaces(b);
    FirstDotOfUpper(a);
    FirstDotOfUpper(b);
    assert |a| == |UpperAll(a)| == |UpperAll(b)| == |b|;
  }

  /** The entry created for s answers to the name s exactly when s fits the 8.3 field. */
  lemma StoredMatchesIff(s: seq<u8>)
    ensures SameName(Stored(s), s) <==> Fits83(s)
  {
    if Fits83(s) {
      StoredIsUpper(s);
      UpperTwice(s);
    }
    if SameName(Stored(s), s) {
      UpperKeepsSpaces(s);
      UpperKeepsSpaces(Stored(s));
      StoredHasNoSpace(s);
      StoredShape(s);
      assert |UpperAll(Stored(s))| == |Stored(s)| && |UpperAll(s)| == |s|;
    }
  }

  /** Lengths of the stored parts never exceed those of the name, nor eight and three. */
  lemma StoredShape(s: seq<u8>)
    ensures |Stored(s)| <= Min(FirstDot(s), 8) + if FirstDot(s) < |s| && |Ext(s)| > 0 then 1 + Min(|Ext(s)|, 3) else 0
  {
    var b, e := UpperAll(Take(Base(s), 8)), UpperAll(Take(Ext(s), 3));
    var raw := To83(s);
    assert raw[8..] == PadTo(e, 3);
    UntilSpaceStops(raw, 8, |b|);
    UntilSpaceStops(raw[8..], 3, |e|);
    assert raw[8] == PadTo(e, 3)[0];
  }

  /** names_match: compares lengths, then bytes one at a time. */
  method NamesMatch(fatName: seq<u8>, query: seq<u8>) returns (same: bool)
    ensures same <==> SameName(fatName, query)
  {
    assert |UpperAll(fatName)| == |fatName| && |UpperAll(query)| == |query|;
    if |fatName| != |query| {
      return false;
    }
    var i := 0;
    while i < |fatName|
      invariant 0 <= i <= |fatName|
      invariant forall k :: 0 <= k < i ==> Upper(fatName[k]) == Upper(query[k])
    {
      if Upper(fatName[i]) != Upper(query[i]) {
        assert UpperAll(fatName)[i] != UpperAll(query)[i];
        return false;
      }
      i := i + 1;
    }
    return true;
  }
}
