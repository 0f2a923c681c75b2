/** The grammar of kernel/calc.c as trees, the texts that spell a tree, and what a tree evaluates to. */
module CalcGrammar {
  import opened Bytes

  /** A number with or without a sign, or an expression in parentheses. A term is a factor with further factors behind
      it, an expression a term with further terms; each further one carries the operator in front of it. */
  datatype Factor = Num(neg: bool, digits: string) | Paren(e: Expr)
  datatype Term = Term(f: Factor, rest: Factors)
  datatype Factors = NoFactor | MoreFactors(op: char, f: Factor, rest: Factors)
  datatype Expr = Expr(t: Term, rest: Terms)
  datatype Terms = NoTerm | MoreTerms(op: char, t: Term, rest: Terms)

  predicate IsDigit(c: char) { '0' <= c <= '9' }
  predicate IsFactorOp(c: char) { c == '*' || c == '/' || c == '%' }
  predicate IsTermOp(c: char) { c == '+' || c == '-' }

  predicate ValidFactor(f: Factor)
  {
    match f
    case Num(_, ds) => ds != [] && forall k :: 0 <= k < |ds| ==> IsDigit(ds[k])
    case Paren(e) => ValidExpr(e)
  }
  predicate ValidTerm(t: Term) { ValidFactor(t.f) && ValidFactors(t.rest) }
  predicate ValidFactors(r: Factors)
  {
    r.MoreFactors? ==> IsFactorOp(r.op) && ValidFactor(r.f) && ValidFactors(r.rest)
  }
  predicate ValidExpr(e: Expr) { ValidTerm(e.t) && ValidTerms(e.rest) }
  predicate ValidTerms(r: Terms)
  {
    r.MoreTerms? ==> IsTermOp(r.op) && ValidTerm(r.t) && ValidTerms(r.rest)
  }

  // ---------------------------------------------------------------- text

  datatype Token = Sym(c: char) | Number(digits: string)

  function FactorTokens(f: Factor): seq<Token>
  {
    match f
    case Num(neg, ds) => (if neg then [Sym('-')] else []) + [Number(ds)]
    case Paren(e) => [Sym('(')] + ExprTokens(e) + [Sym(')')]
  }
  function TermTokens(t: Term): seq<Token> { FactorTokens(t.f) + FactorsTokens(t.rest) }
  function FactorsTokens(r: Factors): seq<Token>
  {
    match r
    case NoFactor => []
    case MoreFactors(op, f, rest) => [Sym(op)] + FactorTokens(f) + FactorsTokens(rest)
  }
  function ExprTokens(e: Expr): seq<Token> { TermTokens(e.t) + TermsTokens(e.rest) }
  function TermsTokens(r: Terms): seq<Token>
  {
    match r
    case NoTerm => []
    case MoreTerms(op, t, rest) => [Sym(op)] + TermTokens(t) + TermsTokens(rest)
  }

  predicate IsSpace(c: char) { c == ' ' || c == '\t' }

  /** The first position from p on that is not a blank. */
  function SkipWs(s: string, p: nat): (q: nat)
    requires p <= |s|
    ensures p <= q <= |s|
    ensures q < |s| ==> !IsSpace(s[q])
    ensures forall k :: p <= k < q ==> IsSpace(s[k])
    decreases |s| - p
  {
    if p < |s| && IsSpace(s[p]) then SkipWs(s, p + 1) else p
  }

  /** The position behind one token that stands at p or behind blanks at p. */
  function MatchOne(s: string, p: nat, tok: Token): (r: Option<nat>)
    requires p <= |s|
    ensures r.Some? ==> p <= r.value <= |s|
  {
    var q := SkipWs(s, p);
    match tok
    case Sym(c) => if q < |s| && s[q] == c then Some(q + 1) else None
    case Number(ds) => if ds <= s[q..] then Some(q + |ds|) else None
  }

  /** The position behind the tokens when they stand at p in order, with blanks allowed before each. */
  function Match(s: string, p: nat, toks: seq<Token>): (r: Option<nat>)
    requires p <= |s|
    ensures r.Some? ==> p <= r.value <= |s|
    decreases |toks|
  {
    if toks == [] then Some(p)
    else
      match MatchOne(s, p, toks[0])
      case None => None
      case Some(q) => Match(s, q, toks[1..])
  }

  /** Up to blanks, the text is the tree written out. */
  predicate Spells(s: string, e: Expr)
  {
    var r := Match(s, 0, ExprTokens(e));
    r.Some? && SkipWs(s, r.value) == |s|
  }

  /** Tokens one after another. */
  lemma {:induction false} MatchJoin(s: string, p: nat, a: seq<Token>, b: seq<Token>)
    requires p <= |s|
    ensures Match(s, p, a + b) == match Match(s, p, a) case None => None case Some(q) => Match(s, q, b)
    decreases |a|
  {
    if a == [] {
      assert a + b == b;
    } else {
      assert (a + b)[0] == a[0] && (a + b)[1..] == a[1..] + b;
      var r := MatchOne(s, p, a[0]);
      if r.Some? {
        MatchJoin(s, r.value, a[1..], b);
      }
    }
  }

  /** Blanks before the first token do not matter. */
  lemma MatchSkips(s: string, p: nat, toks: seq<Token>)
    requires p <= |s| && toks != []
    ensures Match(s, SkipWs(s, p), toks) == Match(s, p, toks)
  {
    SkipTwice(s, p);
  }

  lemma SkipTwice(s: string, p: nat)
    requires p <= |s|
    ensures SkipWs(s, SkipWs(s, p)) == SkipWs(s, p)
  {
  }

  // ---------------------------------------------------------------- value

  const I32_MAX := 0x7FFF_FFFF
  const I32_MIN := -0x8000_0000

  predicate InI32(v: int) { I32_MIN <= v <= I32_MAX }

  /** C's division: towards zero. */
  function TruncDiv(a: int, b: int): int
    requires b != 0
  {
    if a >= 0 then a / b else -((-a) / b)
  }

  /** C's remainder: takes the sign of the dividend. */
  function TruncMod(a: int, b: int): int
    requires b != 0
  {
    a - b * TruncDiv(a, b)
  }

  /** A signed 32-bit result; none when it overflows, which C leaves undefined. */
  function Checked(v: int): Option<int> { if InI32(v) then Some(v) else None }

  /** One operation; none for a zero divisor and for overflow. The remainder of INT_MIN by -1 overflows with its
      quotient. */
  function Apply(op: char, a: int, b: int): Option<int>
  {
    if op == '+' then Checked(a + b)
    else if op == '-' then Checked(a - b)
    else if op == '*' then Checked(a * b)
    else if b == 0 then None
    else if !InI32(TruncDiv(a, b)) then None
    else if op == '/' then Some(TruncDiv(a, b))
    else Some(TruncMod(a, b))
  }

  function DigitValue(c: char): (d: nat)
    requires IsDigit(c)
  {
    var d: int := c as int - '0' as int;
    d
  }

  /** The number a string of digits denotes behind the digits already read. */
  function DigitsFrom(acc: nat, ds: string): (n: nat)
    requires forall k :: 0 <= k < |ds| ==> IsDigit(ds[k])
    ensures n >= acc
    decreases |ds|
  {
    if ds == [] then acc else DigitsFrom(10 * acc + DigitValue(ds[0]), ds[1..])
  }

  /** Left-associative evaluation; none as soon as a step has no 32-bit value. */
  function EvalFactor(f: Factor): (v: Option<int>)
    requires ValidFactor(f)
    ensures v.Some? ==> InI32(v.value)
  {
    match f
    case Num(neg, ds) =>
      var n: int := DigitsFrom(0, ds);
      if n > I32_MAX then None else Some(if neg then -n else n)
    case Paren(e) => EvalExpr(e)
  }
  function EvalTerm(t: Term): (v: Option<int>)
    requires ValidTerm(t)
    ensures v.Some? ==> InI32(v.value)
  {
    EvalFactors(EvalFactor(t.f), t.rest)
  }
  function EvalFactors(acc: Option<int>, r: Factors): (v: Option<int>)
    requires ValidFactors(r) && (acc.Some? ==> InI32(acc.value))
    ensures v.Some? ==> InI32(v.value)
    ensures acc.None? ==> v.None?
    decreases r
  {
    match r
    case NoFactor => acc
    case MoreFactors(op, f, rest) => EvalFactors(Step(op, acc, EvalFactor(f)), rest)
  }
  function EvalExpr(e: Expr): (v: Option<int>)
    requires ValidExpr(e)
    ensures v.Some? ==> InI32(v.value)
  {
    EvalTerms(EvalTerm(e.t), e.rest)
  }
  function EvalTerms(acc: Option<int>, r: Terms): (v: Option<int>)
    requires ValidTerms(r) && (acc.Some? ==> InI32(acc.value))
    ensures v.Some? ==> InI32(v.value)
    ensures acc.None? ==> v.None?
    decreases r
  {
    match r
    case NoTerm => acc
    case MoreTerms(op, t, rest) => EvalTerms(Step(op, acc, EvalTerm(t)), rest)
  }

  function Step(op: char, a: Option<int>, b: Option<int>): (v: Option<int>)
    requires (a.Some? ==> InI32(a.value)) && (b.Some? ==> InI32(b.value))
    ensures v.Some? ==> InI32(v.value) && a.Some? && b.Some?
  {
    if a.None? || b.None? then None
    else
      ApplyInI32(op, a.value, b.value);
      Apply(op, a.value, b.value)
  }

  lemma ApplyInI32(op: char, a: int, b: int)
    requires InI32(a) && InI32(b)
    ensures Apply(op, a, b).Some? ==> InI32(Apply(op, a, b).value)
  {
    if b != 0 {
      TruncModBounded(a, b);
    }
  }

  /** The truncating quotient and remainder: a == b * q + r with |r| < |b| and r on a's side of zero. */
  lemma TruncModBounded(a: int, b: int)
    requires b != 0
    ensures a == b * TruncDiv(a, b) + TruncMod(a, b)
    ensures a >= 0 ==> 0 <= TruncMod(a, b) <= a
    ensures a <= 0 ==> a <= TruncMod(a, b) <= 0
    ensures -b < TruncMod(a, b) < b || b < TruncMod(a, b) < -b
  {
    if a >= 0 {
      EuclidBounds(a, b);
    } else {
      EuclidBounds(-a, b);
      assert b * -((-a) / b) == -(b * ((-a) / b));
    }
  }

  lemma EuclidBounds(n: nat, b: int)
    requires b != 0
    ensures 0 <= n - b * (n / b) <= n
    ensures n - b * (n / b) < b || n - b * (n / b) < -b
  {
    assert n == b * (n / b) + n % b;
    if b > 0 {
      assert n / b >= 0;
    } else {
      assert n / b <= 0;
    }
    assert b * (n / b) >= 0;
  }
}
