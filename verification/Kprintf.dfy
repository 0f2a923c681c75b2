/** Printing numbers (lib/kprintf.c, kbuf_uint and kbuf_int) and reading them back with the evaluator. */
module Kprintf {
  import opened Bytes
  import opened CalcGrammar
  import opened CalcParser
  import opened CalcTheorems

  const DIGITS := "0123456789abcdef"

  predicate IsBase(base: nat) { base == 10 || base == 16 }

  /** The numeral of n, most significant digit first. */
  function Numeral(n: nat, base: nat): (t: string)
    requires IsBase(base)
    ensures |t| >= 1
    decreases n
  {
    if n < base then [Digit(n, base)]
    else
      DivSmaller(n, base);
      Numeral(n / base, base) + [Digit(n, base)]
  }

  /** The last digit of n. */
  function Digit(n: nat, base: nat): char
    requires IsBase(base)
  {
    if base == 10 then DIGITS[n % 10] else DIGITS[n % 16]
  }

  lemma HexDigits()
    ensures Numeral(0xBEEF, 16) == "beef" && Numeral(0xCAD, 16) == "cad" && Numeral(0, 16) == "0"
  {
    assert Numeral(0xB, 16) == "b" && Numeral(0xBE, 16) == "be" && Numeral(0xBEE, 16) == "bee";
    assert Numeral(0xC, 16) == "c" && Numeral(0xCA, 16) == "ca";
  }

  lemma DivSmaller(v: nat, base: nat)
    requires IsBase(base) && v > 0
    ensures 0 <= v / base < v
  {
    if base == 10 {
      assert v / 10 < v;
    } else {
      assert v / 16 < v;
    }
  }

  function IntText(v: int): string { if v < 0 then ['-'] + Numeral(-v, 10) else Numeral(v, 10) }

  /** The number of digits the loop of kbuf_uint stores. */
  function DigitCount(n: nat, base: nat): nat
    requires IsBase(base)
    decreases n
  {
    if n == 0 then 0
    else
      DivSmaller(n, base);
      1 + DigitCount(n / base, base)
  }

  /** The largest decimal number of k digits. */
  function Nines(k: nat): nat { if k == 0 then 0 else 10 * Nines(k - 1) + 9 }

  lemma OneDigitLess(n: nat, base: nat, m: nat)
    requires IsBase(base) && n <= 10 * m + 9
    ensures n / base <= m
  {
    if base == 10 {
      assert n / 10 <= m;
    } else {
      assert n / 16 <= m;
    }
  }

  lemma {:induction false} FewDigits(n: nat, base: nat, k: nat)
    requires IsBase(base) && n <= Nines(k)
    ensures DigitCount(n, base) <= k
  {
    hide DigitCount, IsBase;
    if n > 0 {
      DigitStep(n, base);
      OneDigitLess(n, base, Nines(k - 1));
      FewDigits(n / base, base, k - 1);
    } else {
      NoDigits(base);
    }
  }

  lemma DigitStep(n: nat, base: nat)
    requires IsBase(base) && n > 0
    ensures base > 0 && 0 <= n / base < n && DigitCount(n, base) == 1 + DigitCount(n / base, base)
  {
    DivSmaller(n, base);
  }

  lemma NoDigits(base: nat)
    requires IsBase(base)
    ensures DigitCount(0, base) == 0
  {
  }

  lemma TenNines()
    ensures Nines(10) == 99_9999_9999
  {
    assert Nines(3) == 999;
    assert Nines(6) == 99_9999;
    assert Nines(9) == 9_9999_9999;
  }

  /** The digits still to be stored in front. */
  function Front(v: nat, base: nat): string
    requires IsBase(base)
  {
    if v > 0 then Numeral(v, base) else []
  }

  lemma NumeralStep(v: nat, base: nat, tail: string)
    requires IsBase(base) && v > 0
    ensures 0 <= v / base < v
    ensures Front(v / base, base) + ([Digit(v, base)] + tail) == Front(v, base) + tail
  {
    DivSmaller(v, base);
    ZeroRest(v, base);
  }

  lemma DigitIs(v: nat, base: nat)
    requires IsBase(base)
    ensures 0 <= v % base < |DIGITS| && DIGITS[v % base] == Digit(v, base)
  {
    if base == 10 {
      assert 0 <= v % 10 < 10;
    } else {
      assert 0 <= v % 16 < 16;
    }
  }

  lemma ZeroRest(v: nat, base: nat)
    requires IsBase(base)
    ensures v / base == 0 <==> v < base
  {
    if base == 10 {
      assert v / 10 == 0 <==> v < 10;
    } else {
      assert v / 16 == 0 <==> v < 16;
    }
  }

  /** kbuf_uint: digits are stored from the end of a 32-byte buffer, which is never overrun. */
  method KbufUint(val: u32, base: nat) returns (text: string)
    requires IsBase(base)
    ensures text == Numeral(val, base)
  {
    hide Nines;
    var buf := new char[32];
    var pos := 31;
    buf[31] := '\0';
    if val == 0 {
      return "0";
    }
    TenNines();
    FewDigits(val, base, 10);
    ghost var goal := Numeral(val, base);
    var v: nat := val;
    assert buf[31..31] == [] && base > 0;
    hide IsBase;
    while v > 0
      invariant DigitCount(v, base) <= pos <= 31
      invariant Front(v, base) + buf[pos..31] == goal
      decreases v
    {
      NumeralStep(v, base, buf[pos..31]);
      ghost var tail := buf[pos..31];
      pos := pos - 1;
      DigitIs(v, base);
      buf[pos] := DIGITS[v % base];
      assert buf[pos..31] == [buf[pos]] + tail;
      v := v / base;
    }
    text := buf[pos..31];
  }

  /** kbuf_int: the magnitude of a negative number is taken in unsigned arithmetic. */
  method KbufInt(val: int) returns (text: string)
    requires InI32(val)
    ensures text == IntText(val)
  {
    if val < 0 {
      var t := KbufUint((0 - (val + 1)) + 1, 10);
      text := ['-'] + t;
    } else {
      text := KbufUint(val, 10);
    }
  }

  lemma {:induction false} DigitsJoin(acc: nat, a: string, b: string)
    requires forall k :: 0 <= k < |a| ==> IsDigit(a[k])
    requires forall k :: 0 <= k < |b| ==> IsDigit(b[k])
    ensures forall k :: 0 <= k < |a + b| ==> IsDigit((a + b)[k])
    ensures DigitsFrom(acc, a + b) == DigitsFrom(DigitsFrom(acc, a), b)
    decreases |a|
  {
    if a == [] {
      assert a + b == b;
    } else {
      DigitsJoin(10 * acc + DigitValue(a[0]), a[1..], b);
      assert (a + b)[0] == a[0] && (a + b)[1..] == a[1..] + b;
    }
  }

  /** A decimal numeral denotes its number. */
  lemma {:induction false} NumeralValue(n: nat)
    ensures forall k :: 0 <= k < |Numeral(n, 10)| ==> IsDigit(Numeral(n, 10)[k])
    ensures DigitsFrom(0, Numeral(n, 10)) == n
  {
    var d := [DIGITS[n % 10]];
    assert IsDigit(d[0]) && DigitValue(d[0]) == n % 10;
    if n >= 10 {
      NumeralValue(n / 10);
      DigitsJoin(0, Numeral(n / 10, 10), d);
      assert d[1..] == [];
    } else {
      assert Numeral(n, 10) == d && d[1..] == [];
    }
  }

  /** Evaluating what kbuf_int prints gives the number back, except for the least one: its magnitude overflows
      while the digits are read. */
  lemma PrintedEvaluates(v: int)
    requires InI32(v)
    ensures IsCString(IntText(v))
    ensures Eval(IntText(v)) == (Some(v), false) <==> v != I32_MIN
  {
    var n: nat := if v < 0 then -v else v;
    var ds := Numeral(n, 10);
    hide Numeral, Eval, DigitsFrom, ValidExpr, Spells;
    NumeralValue(n);
    var e := Expr(Term(Num(v < 0, ds), NoFactor), NoTerm);
    var s := IntText(v);
    assert forall k :: 0 <= k < |s| ==> s[k] == '-' || IsDigit(s[k]);
    SpellsNumber(s, v < 0, ds);
    if v != I32_MIN {
      NumberValue(v, ds);
      EvalIff(s, v);
    } else {
      MinimumOverflows(s, ds);
    }
  }

  lemma NumberValue(v: int, ds: string)
    requires InI32(v) && v != I32_MIN && ValidExpr(Expr(Term(Num(v < 0, ds), NoFactor), NoTerm))
    requires ds != [] && forall k :: 0 <= k < |ds| ==> IsDigit(ds[k])
    requires DigitsFrom(0, ds) == if v < 0 then -v else v
    ensures EvalExpr(Expr(Term(Num(v < 0, ds), NoFactor), NoTerm)) == Some(v)
  {
    var f := Num(v < 0, ds);
    assert EvalFactor(f) == Some(v);
    assert EvalTerm(Term(f, NoFactor)) == Some(v);
  }

  lemma SpellsNumber(s: string, neg: bool, ds: string)
    requires ds != [] && forall k :: 0 <= k < |ds| ==> IsDigit(ds[k])
    requires s == (if neg then ['-'] else []) + ds
    ensures var e := Expr(Term(Num(neg, ds), NoFactor), NoTerm);
            ValidExpr(e) && Spells(s, e)
  {
    var e := Expr(Term(Num(neg, ds), NoFactor), NoTerm);
    var toks := ExprTokens(e);
    assert FactorTokens(e.t.f) == (if neg then [Sym('-')] else []) + [Number(ds)];
    assert TermTokens(e.t) == FactorTokens(e.t.f);
    assert toks == TermTokens(e.t) + TermsTokens(e.rest) && TermsTokens(e.rest) == [];
    assert toks == FactorTokens(e.t.f);
    if neg {
      assert toks[0] == Sym('-') && toks[1..] == [Number(ds)];
      assert SkipWs(s, 0) == 0 && s[1..] == ds;
      MatchNumber(s, 1, ds);
    } else {
      assert toks == [Number(ds)];
      assert s[0..] == ds;
      MatchNumber(s, 0, ds);
    }
  }

  /** Reading the digits of 2147483648 raises the overflow flag. */
  lemma MinimumOverflows(s: string, ds: string)
    requires s == ['-'] + ds && ds != [] && forall k :: 0 <= k < |ds| ==> IsDigit(ds[k])
    requires DigitsFrom(0, ds) > I32_MAX
    ensures Eval(s).1
  {
    var st := State(0, 0, false, false);
    assert s[0] == '-' && SkipWs(s, 0) == 0;
    assert s[1] == ds[0] && SkipWs(s, 1) == 1;
    assert s[1..] == ds;
    DigitsComplete(s, 1, 0, ds);
    assert ParseNumber(s, st).ovf;
    assert ParseFactor(s, st).ovf;
    assert ParseTerm(s, st).ovf;
  }
}
