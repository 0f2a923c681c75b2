/** What the recursive descent of kernel/calc.c computes, as functions of the text and the parser's state. */
module CalcParser {
  import opened Bytes
  import opened CalcGrammar

  /** A parse in progress: the value so far, the cursor, the sticky error flag, and whether some arithmetic step has
      left the 32-bit range, after which C gives the value no meaning. */
  datatype State = State(val: int, pos: nat, err: bool, ovf: bool)

  /** *pos: the terminator behind the text reads as NUL. */
  function Cur(s: string, p: nat): char
  {
    if p < |s| then s[p] else '\0'
  }

  /** A C string: no NUL inside. */
  predicate IsCString(s: string) { '\0' !in s }

  /** The digit loop of parse_factor: value and position behind the digits. */
  function Digits(s: string, p: nat, acc: nat): (r: (nat, nat))
    requires p <= |s|
    ensures p <= r.1 <= |s|
    decreases |s| - p
  {
    if IsDigit(Cur(s, p)) && p < |s| then Digits(s, p + 1, 10 * acc + DigitValue(Cur(s, p))) else (acc, p)
  }

  /** Later states of the same parse: the cursor moves forward and the flags stick. */
  predicate Later(s: string, before: State, after: State)
  {
    before.pos <= after.pos <= |s| && (before.err ==> after.err) && (before.ovf ==> after.ovf)
  }

  function ParseNumber(s: string, st: State): (r: State)
    requires st.pos <= |s|
    ensures Later(s, st, r)
  {
    var neg := Cur(s, st.pos) == '-' && st.pos < |s|;
    var p := if neg then SkipWs(s, st.pos + 1) else st.pos;
    if !IsDigit(Cur(s, p)) then State(0, p, true, st.ovf)
    else
      var (n, q) := Digits(s, p, 0);
      State(if neg then 0 - n else n, q, st.err, st.ovf || n > I32_MAX)
  }

  /** parse_factor */
  function ParseFactor(s: string, st: State): (r: State)
    requires st.pos <= |s|
    ensures Later(s, st, r)
    decreases |s| - st.pos, 0
  {
    var p := SkipWs(s, st.pos);
    if p < |s| && s[p] == '(' then
      var e := ParseExpr(s, st.(pos := p + 1));
      var q := SkipWs(s, e.pos);
      if q < |s| && s[q] == ')' then e.(pos := q + 1) else e.(pos := q, err := true)
    else ParseNumber(s, st.(pos := p))
  }

  /** parse_term */
  function ParseTerm(s: string, st: State): (r: State)
    requires st.pos <= |s|
    ensures Later(s, st, r)
    decreases |s| - st.pos, 2
  {
    TermLoop(s, ParseFactor(s, st))
  }

  /** The loop of parse_term. A zero divisor leaves it at once with value 0. */
  function TermLoop(s: string, st: State): (r: State)
    requires st.pos <= |s|
    ensures Later(s, st, r)
    decreases |s| - st.pos, 1
  {
    var p := SkipWs(s, st.pos);
    if p < |s| && IsFactorOp(s[p]) then
      var rhs := ParseFactor(s, st.(val := 0, pos := p + 1));
      if s[p] != '*' && rhs.val == 0 then rhs.(val := 0, err := true)
      else TermLoop(s, Combine(s[p], st.val, rhs))
    else st.(pos := p)
  }

  /** parse_expr */
  function ParseExpr(s: string, st: State): (r: State)
    requires st.pos <= |s|
    ensures Later(s, st, r)
    decreases |s| - st.pos, 4
  {
    ExprLoop(s, ParseTerm(s, st))
  }

  /** The loop of parse_expr. */
  function ExprLoop(s: string, st: State): (r: State)
    requires st.pos <= |s|
    ensures Later(s, st, r)
    decreases |s| - st.pos, 3
  {
    var p := SkipWs(s, st.pos);
    if p < |s| && IsTermOp(s[p]) then
      var rhs := ParseTerm(s, st.(val := 0, pos := p + 1));
      ExprLoop(s, Combine(s[p], st.val, rhs))
    else st.(pos := p)
  }

  /** val op rhs */
  function Compute(op: char, a: int, b: int): int
    requires op != '+' && op != '-' && op != '*' ==> b != 0
  {
    if op == '+' then a + b
    else if op == '-' then a - b
    else if op == '*' then a * b
    else if op == '/' then TruncDiv(a, b)
    else TruncMod(a, b)
  }

  function Combine(op: char, a: int, rhs: State): (r: State)
    requires op != '+' && op != '-' && op != '*' ==> rhs.val != 0
    ensures r.pos == rhs.pos && r.err == rhs.err && (rhs.ovf ==> r.ovf)
  {
    rhs.(val := Compute(op, a, rhs.val), ovf := rhs.ovf || Apply(op, a, rhs.val).None?)
  }

  /** calc_eval: the value, if the text is accepted; the last flag says that an arithmetic step overflowed. */
  function Eval(s: string): (Option<int>, bool)
  {
    var r := ParseExpr(s, State(0, 0, false, false));
    (if r.err || SkipWs(s, r.pos) != |s| then None else Some(r.val), r.ovf)
  }

  lemma TermLoopIs(s: string, st: State)
    requires st.pos <= |s|
    ensures var p := SkipWs(s, st.pos);
            if p < |s| && IsFactorOp(s[p]) then
              var rhs := ParseFactor(s, st.(val := 0, pos := p + 1));
              TermLoop(s, st) == if s[p] != '*' && rhs.val == 0 then rhs.(val := 0, err := true)
                                 else TermLoop(s, Combine(s[p], st.val, rhs))
            else TermLoop(s, st) == st.(pos := p)
  {
  }

  lemma ExprLoopIs(s: string, st: State)
    requires st.pos <= |s|
    ensures var p := SkipWs(s, st.pos);
            ExprLoop(s, st) == if p < |s| && IsTermOp(s[p]) then ExprLoop(s, Combine(s[p], st.val, ParseTerm(s, st.(val := 0, pos := p + 1))))
                               else st.(pos := p)
  {
  }

  // ---------------------------------------------------------------- what acceptance means

  /** A value v stands for the state: the state carries it, or has overflowed if there is none. */
  predicate Carries(st: State, v: Option<int>, ovf: bool)
  {
    if v.Some? then st.val == v.value && st.ovf == ovf else st.ovf
  }
}
