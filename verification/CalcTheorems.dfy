/** The parser of kernel/calc.c accepts exactly the texts of its grammar, with their value. */
module CalcTheorems {
  import opened Bytes
  import opened CalcGrammar
  import opened CalcParser

  // ---------------------------------------------------------------- soundness

  /** The digit loop reads a maximal run of digits and computes its value. */
  lemma {:induction false} DigitsSound(s: string, p: nat, acc: nat)
    requires p <= |s|
    ensures var (n, q) := Digits(s, p, acc);
            && (forall k :: p <= k < q ==> IsDigit(s[k]))
            && (forall k :: 0 <= k < |s[p..q]| ==> IsDigit(s[p..q][k]))
            && n == DigitsFrom(acc, s[p..q])
            && (IsDigit(Cur(s, p)) ==> q > p)
    decreases |s| - p
  {
    if IsDigit(Cur(s, p)) && p < |s| {
      DigitsSound(s, p + 1, 10 * acc + DigitValue(s[p]));
      var q := Digits(s, p, acc).1;
      assert s[p..q][0] == s[p] && s[p..q][1..] == s[p + 1..q];
    }
  }

  lemma NumberSound(s: string, st: State) returns (f: Factor)
    requires st.pos <= |s| && SkipWs(s, st.pos) == st.pos
    requires !ParseNumber(s, st).err
    ensures f.Num? && ValidFactor(f)
    ensures Match(s, st.pos, FactorTokens(f)) == Some(ParseNumber(s, st).pos)
    ensures Carries(ParseNumber(s, st), EvalFactor(f), st.ovf)
  {
    var neg := Cur(s, st.pos) == '-' && st.pos < |s|;
    var p := if neg then SkipWs(s, st.pos + 1) else st.pos;
    DigitsSound(s, p, 0);
    var q := Digits(s, p, 0).1;
    f := Num(neg, s[p..q]);
    SkipTwice(s, if neg then st.pos + 1 else st.pos);
    assert s[p..q] <= s[p..];
    MatchNumber(s, if neg then st.pos + 1 else st.pos, s[p..q]);
    if neg {
      assert FactorTokens(f)[0] == Sym('-') && FactorTokens(f)[1..] == [Number(s[p..q])];
    } else {
      assert FactorTokens(f) == [Number(s[p..q])];
    }
  }

  lemma MatchNumber(s: string, p: nat, ds: string)
    requires p <= |s| && ds <= s[SkipWs(s, p)..]
    ensures Match(s, p, [Number(ds)]) == Some(SkipWs(s, p) + |ds|)
  {
    assert [Number(ds)][1..] == [];
  }

  /** A symbol followed by two groups of tokens. */
  lemma MatchSymThen(s: string, p: nat, c: char, a: seq<Token>, b: seq<Token>)
    requires p <= |s|
    ensures Match(s, p, [Sym(c)] + a + b) ==
            match MatchOne(s, p, Sym(c))
            case None => None
            case Some(q) => match Match(s, q, a) case None => None case Some(r) => Match(s, r, b)
  {
    var toks := [Sym(c)] + a + b;
    assert toks[0] == Sym(c) && toks[1..] == a + b;
    if MatchOne(s, p, Sym(c)).Some? {
      MatchJoin(s, MatchOne(s, p, Sym(c)).value, a, b);
    }
  }

  lemma MatchLast(s: string, p: nat, c: char)
    requires p <= |s|
    ensures Match(s, p, [Sym(c)]) == MatchOne(s, p, Sym(c))
  {
    assert [Sym(c)][1..] == [];
  }

  lemma MatchParen(s: string, p: nat, e: Expr, q: nat)
    requires p <= |s| && SkipWs(s, p) < |s| && s[SkipWs(s, p)] == '('
    requires Match(s, SkipWs(s, p) + 1, ExprTokens(e)) == Some(q) && q <= |s|
    ensures Match(s, p, FactorTokens(Paren(e))) == MatchOne(s, q, Sym(')'))
  {
    hide ExprTokens, Match, SkipWs;
    MatchSymThen(s, p, '(', ExprTokens(e), [Sym(')')]);
    MatchLast(s, q, ')');
  }

  lemma MatchNothing(s: string, p: nat)
    requires p <= |s|
    ensures Match(s, p, FactorsTokens(NoFactor)) == Some(p) == Match(s, p, TermsTokens(NoTerm))
  {
  }

  lemma {:induction false} MatchMoreFactors(s: string, p: nat, op: char, f: Factor, rest: Factors)
    requires p <= |s| && SkipWs(s, p) < |s| && s[SkipWs(s, p)] == op
    ensures Match(s, p, FactorsTokens(MoreFactors(op, f, rest))) ==
            match Match(s, SkipWs(s, p) + 1, FactorTokens(f)) case None => None case Some(q) => Match(s, q, FactorsTokens(rest))
  {
    hide FactorTokens, Match, SkipWs;
    MatchSymThen(s, p, op, FactorTokens(f), FactorsTokens(rest));
  }

  lemma {:induction false} MatchMoreTerms(s: string, p: nat, op: char, t: Term, rest: Terms)
    requires p <= |s| && SkipWs(s, p) < |s| && s[SkipWs(s, p)] == op
    ensures Match(s, p, TermsTokens(MoreTerms(op, t, rest))) ==
            match Match(s, SkipWs(s, p) + 1, TermTokens(t)) case None => None case Some(q) => Match(s, q, TermsTokens(rest))
  {
    hide TermTokens, Match, SkipWs;
    MatchSymThen(s, p, op, TermTokens(t), TermsTokens(rest));
  }

  /** One arithmetic step of the parser is the tree's step. */
  lemma CombineCarries(op: char, st: State, rhs: State, a: Option<int>, b: Option<int>, ovf: bool)
    requires IsFactorOp(op) || IsTermOp(op)
    requires op == '/' || op == '%' ==> rhs.val != 0
    requires (a.Some? ==> InI32(a.value)) && (b.Some? ==> InI32(b.value))
    requires Carries(st, a, ovf) && (st.ovf ==> rhs.ovf)
    requires Carries(rhs, b, st.ovf)
    ensures Carries(Combine(op, st.val, rhs), Step(op, a, b), ovf)
  {
  }

  lemma {:induction false} FactorSound(s: string, st: State) returns (f: Factor)
    requires st.pos <= |s| && !ParseFactor(s, st).err
    ensures ValidFactor(f)
    ensures Match(s, st.pos, FactorTokens(f)) == Some(ParseFactor(s, st).pos)
    ensures Carries(ParseFactor(s, st), EvalFactor(f), st.ovf)
    decreases |s| - st.pos, 0
  {
    hide Match, ExprTokens, ParseNumber, ParseExpr, EvalExpr, ValidExpr, SkipWs;
    var p := SkipWs(s, st.pos);
    SkipTwice(s, st.pos);
    if p < |s| && s[p] == '(' {
      var e, q := ExprSound(s, st.(pos := p + 1));
      f := Paren(e);
      SkipTwice(s, q);
      MatchParen(s, st.pos, e, q);
    } else {
      f := NumberSound(s, st.(pos := p));
      MatchSkips(s, st.pos, FactorTokens(f));
    }
  }

  lemma {:induction false} TermSound(s: string, st: State) returns (t: Term, q: nat)
    requires st.pos <= |s| && !ParseTerm(s, st).err
    ensures ValidTerm(t)
    ensures Match(s, st.pos, TermTokens(t)) == Some(q) && q <= |s| && SkipWs(s, q) == ParseTerm(s, st).pos
    ensures Carries(ParseTerm(s, st), EvalTerm(t), st.ovf)
    decreases |s| - st.pos, 2
  {
    var f := FactorSound(s, st);
    var r := ParseFactor(s, st);
    var rest, q' := TermLoopSound(s, r, EvalFactor(f), st.ovf);
    t, q := Term(f, rest), q';
    MatchJoin(s, st.pos, FactorTokens(f), FactorsTokens(rest));
  }

  lemma {:induction false} TermLoopSound(s: string, st: State, acc: Option<int>, ovf: bool) returns (rest: Factors, q: nat)
    requires st.pos <= |s| && !TermLoop(s, st).err
    requires (acc.Some? ==> InI32(acc.value)) && Carries(st, acc, ovf)
    ensures ValidFactors(rest)
    ensures Match(s, st.pos, FactorsTokens(rest)) == Some(q) && q <= |s| && SkipWs(s, q) == TermLoop(s, st).pos
    ensures Carries(TermLoop(s, st), EvalFactors(acc, rest), ovf)
    decreases |s| - st.pos, 1
  {
    hide Step, Combine, Apply, Compute, Match, FactorsTokens, FactorTokens, ParseFactor, EvalFactor, SkipWs;
    var p := SkipWs(s, st.pos);
    if p < |s| && IsFactorOp(s[p]) {
      var rhs := ParseFactor(s, st.(val := 0, pos := p + 1));
      var f := FactorSound(s, st.(val := 0, pos := p + 1));
      CombineCarries(s[p], st, rhs, acc, EvalFactor(f), ovf);
      var more, q' := TermLoopSound(s, Combine(s[p], st.val, rhs), Step(s[p], acc, EvalFactor(f)), ovf);
      rest, q := MoreFactors(s[p], f, more), q';
      MatchMoreFactors(s, st.pos, s[p], f, more);
    } else {
      rest, q := NoFactor, st.pos;
      MatchNothing(s, st.pos);
    }
  }

  lemma {:induction false} ExprSound(s: string, st: State) returns (e: Expr, q: nat)
    requires st.pos <= |s| && !ParseExpr(s, st).err
    ensures ValidExpr(e)
    ensures Match(s, st.pos, ExprTokens(e)) == Some(q) && q <= |s| && SkipWs(s, q) == ParseExpr(s, st).pos
    ensures Carries(ParseExpr(s, st), EvalExpr(e), st.ovf)
    decreases |s| - st.pos, 4
  {
    var t, q1 := TermSound(s, st);
    var r := ParseTerm(s, st);
    var rest, q2 := ExprLoopSound(s, r, EvalTerm(t), st.ovf);
    e := Expr(t, rest);
    q := BehindBlanks(s, q1, q2, TermsTokens(rest));
    MatchJoin(s, st.pos, TermTokens(t), TermsTokens(rest));
  }

  /** Tokens found behind blanks are found before them, up to the blanks behind an empty list. */
  lemma BehindBlanks(s: string, p: nat, r: nat, toks: seq<Token>) returns (q: nat)
    requires p <= |s| && Match(s, SkipWs(s, p), toks) == Some(r)
    ensures Match(s, p, toks) == Some(q) && q <= |s| && SkipWs(s, q) == SkipWs(s, r)
  {
    if toks == [] {
      SkipTwice(s, p);
      q := p;
    } else {
      MatchSkips(s, p, toks);
      q := r;
    }
  }

  lemma {:induction false} ExprLoopSound(s: string, st: State, acc: Option<int>, ovf: bool) returns (rest: Terms, q: nat)
    requires st.pos <= |s| && !ExprLoop(s, st).err
    requires (acc.Some? ==> InI32(acc.value)) && Carries(st, acc, ovf)
    ensures ValidTerms(rest)
    ensures Match(s, st.pos, TermsTokens(rest)) == Some(q) && q <= |s| && SkipWs(s, q) == ExprLoop(s, st).pos
    ensures Carries(ExprLoop(s, st), EvalTerms(acc, rest), ovf)
    decreases |s| - st.pos, 3
  {
    hide Step, Combine, Apply, Compute, Match, TermsTokens, TermTokens, ParseTerm, EvalTerm, SkipWs;
    var p := SkipWs(s, st.pos);
    if p < |s| && IsTermOp(s[p]) {
      var rhs := ParseTerm(s, st.(val := 0, pos := p + 1));
      var t, q1 := TermSound(s, st.(val := 0, pos := p + 1));
      CombineCarries(s[p], st, rhs, acc, EvalTerm(t), ovf);
      var more, q2 := ExprLoopSound(s, Combine(s[p], st.val, rhs), Step(s[p], acc, EvalTerm(t)), ovf);
      q := BehindBlanks(s, q1, q2, TermsTokens(more));
      rest := MoreTerms(s[p], t, more);
      MatchMoreTerms(s, st.pos, s[p], t, more);
    } else {
      rest, q := NoTerm, st.pos;
      MatchNothing(s, st.pos);
    }
  }

  // ---------------------------------------------------------------- completeness

  lemma {:induction false} DigitsComplete(s: string, p: nat, acc: nat, ds: string)
    requires p <= |s| && ds <= s[p..] && !IsDigit(Cur(s, p + |ds|))
    requires forall k :: 0 <= k < |ds| ==> IsDigit(ds[k])
    ensures Digits(s, p, acc) == (DigitsFrom(acc, ds), p + |ds|)
    decreases |ds|
  {
    if ds != [] {
      assert s[p] == s[p..][0] == ds[0];
      assert ds[1..] <= s[p + 1..] by {
        assert s[p..][1..] == s[p + 1..];
      }
      DigitsComplete(s, p + 1, 10 * acc + DigitValue(ds[0]), ds[1..]);
    }
  }

  /** Behind a symbol that is no digit, no digit can precede it. */
  lemma NoDigitBefore(s: string, p: nat, c: char)
    requires p <= |s| && MatchOne(s, p, Sym(c)).Some? && !IsDigit(c)
    ensures !IsDigit(Cur(s, p)) && SkipWs(s, p) < |s| && s[SkipWs(s, p)] == c
  {
  }

  lemma {:induction false} NumberComplete(s: string, st: State, f: Factor, q: nat)
    requires st.pos <= |s| && f.Num? && ValidFactor(f) && EvalFactor(f).Some?
    requires Match(s, st.pos, FactorTokens(f)) == Some(q) && !IsDigit(Cur(s, q))
    ensures ParseFactor(s, st) == State(EvalFactor(f).value, q, st.err, st.ovf)
  {
    hide MatchOne, Match, DigitsFrom, SkipWs, ParseNumber, ParseFactor, EvalFactor, ValidFactor, FactorTokens;
    var p := SkipWs(s, st.pos);
    NumberIs(f);
    if f.neg {
      MatchSignIs(s, st.pos, f.digits, q);
      MatchNumberIs(s, p + 1, f.digits, q);
      NumberParses(s, st.(pos := p), true, f.digits, SkipWs(s, p + 1));
    } else {
      MatchNumberIs(s, st.pos, f.digits, q);
      NumberParses(s, st.(pos := p), false, f.digits, p);
    }
    NoParen(s, st);
  }

  lemma NumberIs(f: Factor)
    requires f.Num? && ValidFactor(f) && EvalFactor(f).Some?
    ensures f.digits != [] && (forall k :: 0 <= k < |f.digits| ==> IsDigit(f.digits[k]))
    ensures var n: int := DigitsFrom(0, f.digits); n <= I32_MAX && EvalFactor(f).value == if f.neg then -n else n
    ensures FactorTokens(f) == if f.neg then [Sym('-')] + [Number(f.digits)] else [Number(f.digits)]
  {
  }

  lemma NoParen(s: string, st: State)
    requires st.pos <= |s| && SkipWs(s, st.pos) < |s| && s[SkipWs(s, st.pos)] != '('
    ensures ParseFactor(s, st) == ParseNumber(s, st.(pos := SkipWs(s, st.pos)))
  {
    hide ParseNumber, SkipWs;
  }

  /** Digits, with or without a sign in front of them, are read as the number they spell. */
  lemma NumberParses(s: string, st: State, neg: bool, ds: string, d: nat)
    requires st.pos <= d < |s| && ds != [] && ds <= s[d..] && s[d] == ds[0] && d + |ds| <= |s|
    requires forall k :: 0 <= k < |ds| ==> IsDigit(ds[k])
    requires if neg then st.pos < |s| && s[st.pos] == '-' && SkipWs(s, st.pos + 1) == d else st.pos == d
    requires DigitsFrom(0, ds) <= I32_MAX && !IsDigit(Cur(s, d + |ds|))
    ensures var n: int := DigitsFrom(0, ds);
            ParseNumber(s, st) == State(if neg then -n else n, d + |ds|, st.err, st.ovf)
    ensures s[st.pos] != '('
  {
    hide DigitsFrom, Digits, SkipWs;
    DigitsComplete(s, d, 0, ds);
  }

  lemma MatchSignIs(s: string, p: nat, ds: string, q: nat)
    requires p <= |s| && Match(s, p, [Sym('-')] + [Number(ds)]) == Some(q)
    ensures SkipWs(s, p) < |s| && s[SkipWs(s, p)] == '-'
    ensures Match(s, SkipWs(s, p) + 1, [Number(ds)]) == Some(q)
  {
    assert ([Sym('-')] + [Number(ds)])[1..] == [Number(ds)];
  }

  lemma MatchNumberIs(s: string, p: nat, ds: string, q: nat)
    requires p <= |s| && ds != [] && Match(s, p, [Number(ds)]) == Some(q)
    ensures var d := SkipWs(s, p);
            d < |s| && ds <= s[d..] && s[d] == ds[0] && q == d + |ds|
  {
    assert [Number(ds)][1..] == [];
    var d := SkipWs(s, p);
    assert ds <= s[d..];
    assert s[d..][0] == ds[0];
  }

  lemma {:induction false} FactorComplete(s: string, st: State, f: Factor, q: nat)
    requires st.pos <= |s| && ValidFactor(f) && EvalFactor(f).Some?
    requires Match(s, st.pos, FactorTokens(f)) == Some(q) && !IsDigit(Cur(s, q))
    ensures ParseFactor(s, st) == State(EvalFactor(f).value, q, st.err, st.ovf)
    decreases f
  {
    hide Match, ExprTokens, ParseNumber, DigitsFrom;
    match f
    case Num(_, _) => NumberComplete(s, st, f, q);
    case Paren(e) =>
      MatchSymThen(s, st.pos, '(', ExprTokens(e), [Sym(')')]);
      var p := MatchOne(s, st.pos, Sym('(')).value;
      var r := Match(s, p, ExprTokens(e)).value;
      MatchLast(s, r, ')');
      NoDigitBefore(s, r, ')');
      ExprComplete(s, st.(pos := p), e, r);
      SkipTwice(s, r);
  }

  lemma {:induction false} TermComplete(s: string, st: State, t: Term, q: nat)
    requires st.pos <= |s| && ValidTerm(t) && EvalTerm(t).Some?
    requires Match(s, st.pos, TermTokens(t)) == Some(q)
    requires !IsDigit(Cur(s, q)) && !IsFactorOp(Cur(s, SkipWs(s, q)))
    ensures ParseTerm(s, st) == State(EvalTerm(t).value, SkipWs(s, q), st.err, st.ovf)
    decreases t
  {
    MatchJoin(s, st.pos, FactorTokens(t.f), FactorsTokens(t.rest));
    var p := Match(s, st.pos, FactorTokens(t.f)).value;
    FactorsFollow(s, p, t.rest, q);
    FactorComplete(s, st, t.f, p);
    FactorsComplete(s, ParseFactor(s, st), t.rest, q);
  }

  /** What follows a factor is no digit. */
  lemma FactorsFollow(s: string, p: nat, rest: Factors, q: nat)
    requires p <= |s| && ValidFactors(rest) && Match(s, p, FactorsTokens(rest)) == Some(q) && !IsDigit(Cur(s, q))
    ensures !IsDigit(Cur(s, p))
  {
    if rest.MoreFactors? {
      MatchSymThen(s, p, rest.op, FactorTokens(rest.f), FactorsTokens(rest.rest));
      NoDigitBefore(s, p, rest.op);
    }
  }

  /** Where the operator and the first factor of a list end. */
  lemma FactorsSplit(s: string, p: nat, rest: Factors, q: nat) returns (a: nat, b: nat)
    requires p <= |s| && rest.MoreFactors? && ValidFactors(rest) && Match(s, p, FactorsTokens(rest)) == Some(q)
    ensures SkipWs(s, p) < |s| && s[SkipWs(s, p)] == rest.op && a == SkipWs(s, p) + 1
    ensures Match(s, a, FactorTokens(rest.f)) == Some(b) && b <= |s| && Match(s, b, FactorsTokens(rest.rest)) == Some(q)
  {
    MatchSymThen(s, p, rest.op, FactorTokens(rest.f), FactorsTokens(rest.rest));
    NoDigitBefore(s, p, rest.op);
    a := MatchOne(s, p, Sym(rest.op)).value;
    b := Match(s, a, FactorTokens(rest.f)).value;
  }

  lemma TermsSplit(s: string, p: nat, rest: Terms, q: nat) returns (a: nat, b: nat)
    requires p <= |s| && rest.MoreTerms? && ValidTerms(rest) && Match(s, p, TermsTokens(rest)) == Some(q)
    ensures SkipWs(s, p) < |s| && s[SkipWs(s, p)] == rest.op && a == SkipWs(s, p) + 1
    ensures Match(s, a, TermTokens(rest.t)) == Some(b) && b <= |s| && Match(s, b, TermsTokens(rest.rest)) == Some(q)
  {
    MatchSymThen(s, p, rest.op, TermTokens(rest.t), TermsTokens(rest.rest));
    NoDigitBefore(s, p, rest.op);
    a := MatchOne(s, p, Sym(rest.op)).value;
    b := Match(s, a, TermTokens(rest.t)).value;
  }

  /** A step that has a value: the parser computes it and no flag moves. */
  lemma StepComputes(op: char, a: int, rhs: State, b: Option<int>)
    requires InI32(a) && (IsFactorOp(op) || IsTermOp(op))
    requires b.Some? && InI32(b.value) && rhs.val == b.value && Step(op, Some(a), b).Some?
    ensures op == '/' || op == '%' ==> rhs.val != 0
    ensures Combine(op, a, rhs) == rhs.(val := Step(op, Some(a), b).value)
  {
  }

  lemma {:induction false} FactorsComplete(s: string, st: State, rest: Factors, q: nat)
    requires st.pos <= |s| && ValidFactors(rest) && InI32(st.val) && EvalFactors(Some(st.val), rest).Some?
    requires Match(s, st.pos, FactorsTokens(rest)) == Some(q)
    requires !IsDigit(Cur(s, q)) && !IsFactorOp(Cur(s, SkipWs(s, q)))
    ensures TermLoop(s, st) == State(EvalFactors(Some(st.val), rest).value, SkipWs(s, q), st.err, st.ovf)
    decreases rest
  {
    hide Step, Combine, Apply, Compute, Match, FactorsTokens, FactorTokens, ParseFactor, EvalFactor, SkipWs;
    MatchNothing(s, st.pos);
    if rest.MoreFactors? {
      var p, r := FactorsSplit(s, st.pos, rest, q);
      FactorsFollow(s, r, rest.rest, q);
      FactorComplete(s, st.(val := 0, pos := p), rest.f, r);
      var rhs := ParseFactor(s, st.(val := 0, pos := p));
      StepComputes(rest.op, st.val, rhs, EvalFactor(rest.f));
      FactorsComplete(s, Combine(rest.op, st.val, rhs), rest.rest, q);
    }
  }

  lemma {:induction false} ExprComplete(s: string, st: State, e: Expr, q: nat)
    requires st.pos <= |s| && ValidExpr(e) && EvalExpr(e).Some?
    requires Match(s, st.pos, ExprTokens(e)) == Some(q)
    requires !IsDigit(Cur(s, q)) && !IsFactorOp(Cur(s, SkipWs(s, q))) && !IsTermOp(Cur(s, SkipWs(s, q)))
    ensures ParseExpr(s, st) == State(EvalExpr(e).value, SkipWs(s, q), st.err, st.ovf)
    decreases e
  {
    MatchJoin(s, st.pos, TermTokens(e.t), TermsTokens(e.rest));
    var p := Match(s, st.pos, TermTokens(e.t)).value;
    TermsFollow(s, p, e.rest, q);
    TermComplete(s, st, e.t, p);
    TermsComplete(s, ParseTerm(s, st), p, e.rest, q);
  }

  lemma TermsFollow(s: string, p: nat, rest: Terms, q: nat)
    requires p <= |s| && ValidTerms(rest) && Match(s, p, TermsTokens(rest)) == Some(q)
    requires !IsDigit(Cur(s, q)) && !IsFactorOp(Cur(s, SkipWs(s, q)))
    ensures !IsDigit(Cur(s, p)) && !IsFactorOp(Cur(s, SkipWs(s, p)))
  {
    if rest.MoreTerms? {
      MatchSymThen(s, p, rest.op, TermTokens(rest.t), TermsTokens(rest.rest));
      NoDigitBefore(s, p, rest.op);
    }
  }

  /** The loop of parse_expr starts behind the blanks that follow position p. */
  lemma {:induction false} TermsComplete(s: string, st: State, p: nat, rest: Terms, q: nat)
    requires p <= |s| && st.pos == SkipWs(s, p)
    requires ValidTerms(rest) && InI32(st.val) && EvalTerms(Some(st.val), rest).Some?
    requires Match(s, p, TermsTokens(rest)) == Some(q)
    requires !IsDigit(Cur(s, q)) && !IsFactorOp(Cur(s, SkipWs(s, q))) && !IsTermOp(Cur(s, SkipWs(s, q)))
    ensures ExprLoop(s, st) == State(EvalTerms(Some(st.val), rest).value, SkipWs(s, q), st.err, st.ovf)
    decreases rest
  {
    hide Step, Combine, Apply, Compute, Match, TermsTokens, TermTokens, ParseTerm, EvalTerm, SkipWs;
    SkipTwice(s, p);
    MatchNothing(s, p);
    if rest.MoreTerms? {
      var a, b := TermsSplit(s, p, rest, q);
      TermsFollow(s, b, rest.rest, q);
      TermComplete(s, st.(val := 0, pos := a), rest.t, b);
      var rhs := ParseTerm(s, st.(val := 0, pos := a));
      StepComputes(rest.op, st.val, rhs, EvalTerm(rest.t));
      TermsComplete(s, Combine(rest.op, st.val, rhs), b, rest.rest, q);
    }
  }

  // ---------------------------------------------------------------- the evaluator

  /** calc_eval succeeds with v, without overflow on the way, exactly when the text is, up to blanks, a tree of the
      grammar whose left-associative truncating evaluation stays in range, divides by no zero, and is v. */
  lemma EvalIff(s: string, v: int)
    requires IsCString(s)
    ensures Eval(s) == (Some(v), false) <==> exists e :: ValidExpr(e) && Spells(s, e) && EvalExpr(e) == Some(v)
  {
    var st := State(0, 0, false, false);
    var r := ParseExpr(s, st);
    if Eval(s) == (Some(v), false) {
      var e, q := ExprSound(s, st);
      SkipTwice(s, q);
      assert ValidExpr(e) && Spells(s, e) && EvalExpr(e) == Some(v);
    }
    if e :| ValidExpr(e) && Spells(s, e) && EvalExpr(e) == Some(v) {
      var q := Match(s, 0, ExprTokens(e)).value;
      EndOfText(s, q);
      ExprComplete(s, st, e, q);
    }
  }

  lemma EndOfText(s: string, q: nat)
    requires q <= |s| && SkipWs(s, q) == |s|
    ensures !IsDigit(Cur(s, q)) && Cur(s, SkipWs(s, q)) == '\0'
  {
  }

  /** A text of the grammar is never rejected but for a zero divisor or an overflow on the way. */
  lemma RejectedHasNoValue(s: string, e: Expr)
    requires IsCString(s) && ValidExpr(e) && Spells(s, e) && (Eval(s).0.None? || Eval(s).1)
    ensures EvalExpr(e) == None
  {
    if EvalExpr(e).Some? {
      EvalIff(s, EvalExpr(e).value);
    }
  }

  /** A text has at most one value: the grammar is unambiguous in this sense. */
  lemma ValueUnique(s: string, e: Expr, f: Expr)
    requires IsCString(s) && ValidExpr(e) && Spells(s, e) && ValidExpr(f) && Spells(s, f)
    requires EvalExpr(e).Some? && EvalExpr(f).Some?
    ensures EvalExpr(e) == EvalExpr(f)
  {
    EvalIff(s, EvalExpr(e).value);
    EvalIff(s, EvalExpr(f).value);
  }
}
