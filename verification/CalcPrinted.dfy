/** What the evaluator of kernel/calc.c makes of printed numbers with operators between them. */
module CalcPrinted {
  import opened Bytes
  import opened CalcGrammar
  import opened CalcParser
  import opened CalcTheorems
  import opened Kprintf

  /** The numbers whose print can be read back. */
  predicate Readable(v: int) { -0x7FFF_FFFF <= v <= 0x7FFF_FFFF }

  /** The print of v stands in s from p to q, and no digit follows. */
  predicate Stands(s: string, p: nat, q: nat, v: int)
  {
    p <= q <= |s| && s[p..q] == IntText(v) && !IsDigit(Cur(s, q))
  }

  lemma StandsBy(pre: string, v: int, post: string)
    requires post == [] || !IsDigit(post[0])
    ensures Stands(pre + IntText(v) + post, |pre|, |pre| + |IntText(v)|, v)
  {
    hide IntText;
    var s := pre + IntText(v) + post;
    assert post != [] ==> s[|pre| + |IntText(v)|] == post[0];
  }

  lemma NoBlankAt(s: string, p: nat)
    requires p <= |s| && !IsSpace(Cur(s, p))
    ensures SkipWs(s, p) == p
  {
  }

  /** A printed number is read as a factor. */
  lemma FactorAt(s: string, st: State, q: nat, v: int)
    requires st.pos <= |s| && Stands(s, st.pos, q, v) && Readable(v)
    ensures ParseFactor(s, st) == State(v, q, st.err, st.ovf)
  {
    hide Numeral, SkipWs, ParseFactor, DigitsFrom, FactorTokens, EvalFactor, Match, ValidFactor;
    var n: nat := if v < 0 then -v else v;
    var ds := Numeral(n, 10);
    NumeralValue(n);
    assert IntText(v) == (if v < 0 then ['-'] else []) + ds;
    NumberOf(Num(v < 0, ds), n);
    PrintMatches(s, st.pos, q, v < 0, ds);
    NumberComplete(s, st, Num(v < 0, ds), q);
  }

  lemma PrintMatches(s: string, p: nat, q: nat, neg: bool, ds: string)
    requires p <= q <= |s| && s[p..q] == (if neg then ['-'] else []) + ds
    requires ds != [] && forall k :: 0 <= k < |ds| ==> IsDigit(ds[k])
    ensures Match(s, p, if neg then [Sym('-')] + [Number(ds)] else [Number(ds)]) == Some(q)
  {
    hide SkipWs, Match;
    assert s[p] == s[p..q][0];
    NoBlankAt(s, p);
    if neg {
      assert s[p + 1] == s[p..q][1] == ds[0];
      assert s[p + 1..q] == s[p..q][1..] == ds;
      NoBlankAt(s, p + 1);
      DigitsStand(s, p + 1, q, ds);
      MatchNumber(s, p + 1, ds);
      SignThen(s, p, ds);
    } else {
      assert s[p..q] == ds;
      DigitsStand(s, p, q, ds);
      MatchNumber(s, p, ds);
    }
  }

  lemma DigitsStand(s: string, p: nat, q: nat, ds: string)
    requires p <= q <= |s| && s[p..q] == ds
    ensures ds <= s[p..] && p + |ds| == q
  {
    assert s[p..][..q - p] == s[p..q];
  }

  lemma NumberOf(f: Factor, n: nat)
    requires f.Num? && f.digits != [] && (forall k :: 0 <= k < |f.digits| ==> IsDigit(f.digits[k])) && n <= I32_MAX
    requires DigitsFrom(0, f.digits) == n
    ensures ValidFactor(f) && EvalFactor(f) == (var v: int := n; Some(if f.neg then -v else v))
    ensures FactorTokens(f) == if f.neg then [Sym('-')] + [Number(f.digits)] else [Number(f.digits)]
  {
  }

  lemma SignThen(s: string, p: nat, ds: string)
    requires p < |s| && s[p] == '-' && SkipWs(s, p) == p
    ensures Match(s, p, [Sym('-')] + [Number(ds)]) == Match(s, p + 1, [Number(ds)])
  {
    assert ([Sym('-')] + [Number(ds)])[1..] == [Number(ds)];
  }

  /** So it is as a term, if no operator of a term follows. */
  lemma TermAt(s: string, st: State, q: nat, v: int)
    requires st.pos <= |s| && Stands(s, st.pos, q, v) && Readable(v)
    requires !IsSpace(Cur(s, q)) && !IsFactorOp(Cur(s, q))
    ensures ParseTerm(s, st) == State(v, q, st.err, st.ovf)
  {
    hide ParseFactor, SkipWs;
    FactorAt(s, st, q, v);
    NoBlankAt(s, q);
    TermLoopIs(s, State(v, q, st.err, st.ovf));
  }

  /** The text of a sum or difference evaluates to it if it is a 32-bit number, and overflows if not. */
  lemma SumEvaluates(a: int, b: int, op: char)
    requires Readable(a) && Readable(b) && (op == '+' || op == '-')
    ensures var s, v := IntText(a) + [op] + IntText(b), if op == '+' then a + b else a - b;
            Eval(s).0.Some? && (Eval(s).1 <==> !InI32(v)) && (InI32(v) ==> Eval(s).0 == Some(v))
  {
    hide IntText, SkipWs, ParseTerm, Digits;
    var s, p := IntText(a) + [op] + IntText(b), |IntText(a)|;
    TwoStand(s, a, op, b);
    var st := State(a, p, false, false);
    TermAt(s, State(0, 0, false, false), p, a);
    TermAt(s, State(0, p + 1, false, false), |s|, b);
    NoBlankAt(s, p);
    NoBlankAt(s, |s|);
    ExprLoopIs(s, st);
    ExprLoopIs(s, Combine(op, a, State(b, |s|, false, false)));
  }

  lemma TwoStand(s: string, a: int, op: char, b: int)
    requires s == IntText(a) + [op] + IntText(b) && !IsDigit(op)
    ensures var p := |IntText(a)|;
            p < |s| && s[p] == op && Stands(s, 0, p, a) && Stands(s, p + 1, |s|, b)
  {
    hide IntText;
    StandsBy([], a, [op] + IntText(b));
    assert [] + IntText(a) + ([op] + IntText(b)) == s;
    StandsBy(IntText(a) + [op], b, []);
    assert IntText(a) + [op] + IntText(b) + [] == s;
  }

  /** A product, the quotient, or the remainder that goes with it; a zero divisor is rejected. */
  lemma ProductEvaluates(a: int, b: int, op: char)
    requires Readable(a) && Readable(b) && (op == '*' || op == '/' || op == '%')
    ensures var r := Eval(IntText(a) + [op] + IntText(b));
            && (r.0.None? <==> op != '*' && b == 0)
            && (op == '*' ==> (r.1 <==> !InI32(a * b)) && (InI32(a * b) ==> r.0 == Some(a * b)))
            && (op == '/' && b != 0 ==> r == (Some(TruncDiv(a, b)), false))
            && (op == '%' && b != 0 ==> r == (Some(TruncMod(a, b)), false))
  {
    hide IntText, SkipWs, ParseTerm, Digits, Compute, Apply, Combine, TruncMod, TruncDiv;
    var s, p := IntText(a) + [op] + IntText(b), |IntText(a)|;
    TwoStand(s, a, op, b);
    ProductTerm(s, 0, p, a, op, b);
    NoBlankAt(s, |s|);
    ExprLoopIs(s, ParseTerm(s, State(0, 0, false, false)));
    if op == '*' || b != 0 {
      ProductComputes(a, b, op, State(b, |s|, false, false));
    }
  }

  /** A term of two printed numbers at the end of the text. */
  lemma ProductTerm(s: string, p: nat, q: nat, a: int, op: char, b: int)
    requires Readable(a) && Readable(b) && (op == '*' || op == '/' || op == '%')
    requires q < |s| && s[q] == op && Stands(s, p, q, a) && Stands(s, q + 1, |s|, b)
    ensures ParseTerm(s, State(0, p, false, false)) ==
            if op != '*' && b == 0 then State(0, |s|, true, false) else Combine(op, a, State(b, |s|, false, false))
  {
    hide IntText, SkipWs, ParseFactor, Digits, Compute, Apply, TruncMod, TruncDiv;
    var rhs := State(b, |s|, false, false);
    FactorAt(s, State(0, p, false, false), q, a);
    FactorAt(s, State(0, q + 1, false, false), |s|, b);
    NoBlankAt(s, q);
    NoBlankAt(s, |s|);
    TermLoopIs(s, State(a, q, false, false));
    if op == '*' || b != 0 {
      TermLoopIs(s, Combine(op, a, rhs));
    }
  }

  lemma ProductComputes(a: int, b: int, op: char, rhs: State)
    requires Readable(a) && Readable(b) && (op == '*' || op == '/' || op == '%') && (op == '*' || b != 0)
    requires rhs.val == b && !rhs.ovf
    ensures var c := Combine(op, a, rhs);
            && c.pos == rhs.pos && c.err == rhs.err
            && (op == '*' ==> c.val == a * b && (c.ovf <==> !InI32(a * b)))
            && (op != '*' ==> !c.ovf && c.val == if op == '/' then TruncDiv(a, b) else TruncMod(a, b))
  {
    if op != '*' {
      QuotientSmall(a, b);
    }
  }

  lemma QuotientSmall(a: int, b: int)
    requires Readable(a) && b != 0
    ensures InI32(TruncDiv(a, b))
  {
    if a >= 0 {
      QuotientBound(a, b);
    } else {
      QuotientBound(-a, b);
    }
  }

  lemma QuotientBound(n: nat, b: int)
    requires b != 0
    ensures n / b <= n && n + n / b >= 0
  {
    var q := n / b;
    EuclidBounds(n, b);
    if b > 0 {
      FactorBound(n, b, q);
    } else {
      assert -b * -q == b * q;
      FactorBound(n, -b, -q);
    }
  }

  lemma FactorBound(n: nat, b: int, q: int)
    requires b > 0 && 0 <= b * q <= n
    ensures 0 <= q <= n
  {
    ProductSign(b, q);
  }

  lemma ProductSign(b: int, q: int)
    requires b > 0
    ensures q < 0 ==> b * q < 0
    ensures q >= 0 ==> b * q >= q
  {
    assert b * q == q + (b - 1) * q;
    if q < 0 {
      assert (b - 1) * q <= 0;
    } else {
      assert (b - 1) * q >= 0;
    }
  }

  /** Operators of one kind are applied from left to right, and products before differences. */
  lemma LeftToRight(a: int, b: int, c: int)
    requires Readable(a) && Readable(b) && Readable(c) && InI32(a - b) && InI32(a - b - c)
    ensures Eval(IntText(a) + "-" + IntText(b) + "-" + IntText(c)) == (Some(a - b - c), false)
  {
    hide IntText, SkipWs, ParseTerm, Digits, Stands;
    var s := IntText(a) + "-" + IntText(b) + "-" + IntText(c);
    var p := |IntText(a)|;
    var q := p + 1 + |IntText(b)|;
    ThreeStand(s, a, '-', b, '-', c);
    TermAt(s, State(0, 0, false, false), p, a);
    TermAt(s, State(0, p + 1, false, false), q, b);
    TermAt(s, State(0, q + 1, false, false), |s|, c);
    NoBlankAt(s, p);
    NoBlankAt(s, q);
    NoBlankAt(s, |s|);
    ExprLoopIs(s, State(a, p, false, false));
    ExprLoopIs(s, State(a - b, q, false, false));
    ExprLoopIs(s, State(a - b - c, |s|, false, false));
  }

  lemma Joins(a: string, o: string, b: string, u: string, c: string)
    ensures [] + a + (o + b + u + c) == a + o + b + u + c == a + o + b + (u + c)
    ensures a + o + b + u + c + [] == a + o + b + u + c
  {
  }

  lemma ThreeStand(s: string, a: int, o: char, b: int, u: char, c: int)
    requires s == IntText(a) + [o] + IntText(b) + [u] + IntText(c) && !IsDigit(o) && !IsDigit(u)
    ensures var p := |IntText(a)|;
            var q := p + 1 + |IntText(b)|;
            && q < |s| && s[p] == o && s[q] == u
            && Stands(s, 0, p, a) && Stands(s, p + 1, q, b) && Stands(s, q + 1, |s|, c)
  {
    hide IntText, Stands;
    Joins(IntText(a), [o], IntText(b), [u], IntText(c));
    StandsBy([], a, [o] + IntText(b) + [u] + IntText(c));
    StandsBy(IntText(a) + [o], b, [u] + IntText(c));
    StandsBy(IntText(a) + [o] + IntText(b) + [u], c, []);
  }

  lemma ProductsFirst(a: int, b: int, c: int)
    requires Readable(a) && Readable(b) && Readable(c) && InI32(b * c) && InI32(a - b * c)
    ensures Eval(IntText(a) + "-" + IntText(b) + "*" + IntText(c)) == (Some(a - b * c), false)
  {
    hide IntText, SkipWs, ParseTerm, ParseFactor, Digits, Stands;
    var s := IntText(a) + "-" + IntText(b) + "*" + IntText(c);
    var p := |IntText(a)|;
    var q := p + 1 + |IntText(b)|;
    ThreeStand(s, a, '-', b, '*', c);
    TermAt(s, State(0, 0, false, false), p, a);
    NoBlankAt(s, p);
    NoBlankAt(s, |s|);
    ProductTerm(s, p + 1, q, b, '*', c);
    ExprLoopIs(s, State(a, p, false, false));
    ExprLoopIs(s, State(a - b * c, |s|, false, false));
  }

  /** Parentheses come before products, and blanks count for nothing. */
  lemma ParenthesesFirst(a: int, b: int, c: int)
    requires Readable(a) && Readable(b) && Readable(c) && InI32(a - b) && InI32((a - b) * c)
    ensures Eval("(" + IntText(a) + "-" + IntText(b) + ") *\t" + IntText(c)) == (Some((a - b) * c), false)
  {
    hide IntText, SkipWs, ParseFactor, ParseTerm, Digits, Stands;
    var s := "(" + IntText(a) + "-" + IntText(b) + ") *\t" + IntText(c);
    var p := 1 + |IntText(a)|;
    var q := p + 1 + |IntText(b)|;
    ParenStands(s, a, b, c);
    PrintStarts(a);
    ParenFactor(s, p, q, a, b);
    BlankAt(s, q + 1);
    BlankAt(s, q + 3);
    NoBlankAt(s, q + 4);
    NumberBehindBlank(s, q + 3);
    FactorAt(s, State(0, q + 4, false, false), |s|, c);
    TermLoopIs(s, State(a - b, q + 1, false, false));
    NoBlankAt(s, |s|);
    TermLoopIs(s, State((a - b) * c, |s|, false, false));
    assert ParseTerm(s, State(0, 0, false, false)) == State((a - b) * c, |s|, false, false) by {
      TermIs(s);
    }
    ExprLoopIs(s, State((a - b) * c, |s|, false, false));
  }

  lemma TermIs(s: string)
    ensures ParseTerm(s, State(0, 0, false, false)) == TermLoop(s, ParseFactor(s, State(0, 0, false, false)))
  {
  }

  /** One blank, and no other behind it. */
  lemma BlankAt(s: string, p: nat)
    requires p + 1 < |s| && (s[p] == ' ' || s[p] == '\t') && !IsSpace(s[p + 1])
    ensures SkipWs(s, p) == p + 1
  {
    NoBlankAt(s, p + 1);
  }

  lemma NumberBehindBlank(s: string, p: nat)
    requires p + 1 < |s| && SkipWs(s, p) == p + 1 == SkipWs(s, p + 1) && s[p + 1] != '('
    ensures ParseFactor(s, State(0, p, false, false)) == ParseFactor(s, State(0, p + 1, false, false))
  {
    hide ParseFactor, SkipWs;
    NoParen(s, State(0, p, false, false));
    NoParen(s, State(0, p + 1, false, false));
  }

  lemma JoinsParen(o: string, a: string, m: string, b: string, c: string, d: string)
    ensures o + a + (m + b + c + d) == o + a + m + b + c + d == o + a + m + b + (c + d)
    ensures o + a + m + b + c + d + [] == o + a + m + b + c + d
  {
  }

  lemma CharsOf(o: string, a: string, m: string, b: string, c: string, d: string)
    requires |o| == 1 && |m| == 1 && |c| == 4 && d != []
    ensures var s, p := o + a + m + b + c + d, 1 + |a|;
            var q := p + 1 + |b|;
            && |s| == q + 4 + |d| && s[0] == o[0] && s[p] == m[0]
            && s[q] == c[0] && s[q + 1] == c[1] && s[q + 2] == c[2] && s[q + 3] == c[3] && s[q + 4] == d[0]
  {
    var t := o + a + m + b;
    var s := t + c + d;
    assert t[0] == o[0] && t[1 + |a|] == m[0];
    assert s[|t|..|t| + 4] == c;
  }

  lemma ParenStands(s: string, a: int, b: int, c: int)
    requires s == "(" + IntText(a) + "-" + IntText(b) + ") *\t" + IntText(c)
    ensures var p := 1 + |IntText(a)|;
            var q := p + 1 + |IntText(b)|;
            && q + 4 < |s| && s[0] == '(' && s[p] == '-' && s[q] == ')' && s[q + 1] == ' ' && s[q + 2] == '*' && s[q + 3] == '\t'
            && !IsSpace(s[q + 4]) && s[q + 4] != '('
            && Stands(s, 1, p, a) && Stands(s, p + 1, q, b) && Stands(s, q + 4, |s|, c)
  {
    hide IntText, Stands;
    StandsBy("(", a, "-" + IntText(b) + ") *\t" + IntText(c));
    StandsBy("(" + IntText(a) + "-", b, ") *\t" + IntText(c));
    StandsBy("(" + IntText(a) + "-" + IntText(b) + ") *\t", c, []);
    JoinsParen("(", IntText(a), "-", IntText(b), ") *\t", IntText(c));
    PrintStarts(c);
    CharsOf("(", IntText(a), "-", IntText(b), ") *\t", IntText(c));
  }

  lemma PrintStarts(v: int)
    ensures IntText(v) != [] && !IsSpace(IntText(v)[0]) && IntText(v)[0] != '('
  {
    NumeralValue(if v < 0 then -v else v);
  }

  lemma ParenFactor(s: string, p: nat, q: nat, a: int, b: int)
    requires Readable(a) && Readable(b) && InI32(a - b) && 1 < p < q < |s| && s[0] == '(' && s[p] == '-' && s[q] == ')'
    requires Stands(s, 1, p, a) && Stands(s, p + 1, q, b)
    ensures ParseFactor(s, State(0, 0, false, false)) == State(a - b, q + 1, false, false)
  {
    hide IntText, ParseTerm, Digits, Stands, SkipWs;
    NoBlankAt(s, 0);
    TermAt(s, State(0, 1, false, false), p, a);
    TermAt(s, State(0, p + 1, false, false), q, b);
    NoBlankAt(s, p);
    NoBlankAt(s, q);
    ExprLoopIs(s, State(a, p, false, false));
    ExprLoopIs(s, State(a - b, q, false, false));
  }
}
