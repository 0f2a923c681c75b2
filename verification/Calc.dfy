/** The expression evaluator (kernel/calc.c) with its static cursor and error flag. */
module Calc {
  import opened CalcGrammar
  import opened CalcParser

  class Evaluator {
    /** The text and the cursor into it stand for the pointer pos. */
    var text: string
    var pos: nat
    var error: bool

    /** Some arithmetic step has overflowed, which C leaves undefined. */
    ghost var overflow: bool

    constructor ()
      ensures text == [] && pos == 0
    {
      text, pos, error, overflow := [], 0, false, false;
    }

    function Char(): char
      reads this
    {
      if pos < |text| then text[pos] else '\0'
    }

    /** The parser's state with a value in hand. */
    ghost function At(val: int): State
      reads this
    {
      State(val, pos, error, overflow)
    }

    /** skip_ws */
    method Skip()
      requires pos <= |text|
      modifies this`pos
      ensures pos == SkipWs(text, old(pos))
    {
      while Char() == ' ' || Char() == '\t'
        invariant pos <= |text| && SkipWs(text, pos) == SkipWs(text, old(pos))
        decreases |text| - pos
      {
        pos := pos + 1;
      }
    }

    /** parse_factor */
    method Factor() returns (val: int)
      requires pos <= |text| && IsCString(text)
      modifies this`pos, this`error, this`overflow
      ensures pos <= |text| && At(val) == ParseFactor(text, old(At(0)))
      decreases |text| - pos, 1
    {
      hide ParseExpr, ParseNumber, SkipWs;
      Skip();
      if Char() == '(' {
        val := Group();
        return;
      }
      val := ParseNumeral();
    }

    /** The part of parse_factor that reads a parenthesised expression. */
    method Group() returns (val: int)
      requires pos <= |text| && IsCString(text) && Char() == '('
      modifies this`pos, this`error, this`overflow
      ensures pos <= |text|
      ensures var e := ParseExpr(text, old(At(0)).(pos := old(pos) + 1));
              var q := SkipWs(text, e.pos);
              At(val) == if q < |text| && text[q] == ')' then e.(pos := q + 1) else e.(pos := q, err := true)
      decreases |text| - pos, 0
    {
      hide ParseExpr, SkipWs;
      pos := pos + 1;
      val := Expression();
      Skip();
      if Char() == ')' {
        pos := pos + 1;
      } else {
        error := true;
      }
    }

    /** The rest of parse_factor: an optional sign and a run of digits. */
    method ParseNumeral() returns (val: int)
      requires pos <= |text| && IsCString(text)
      modifies this`pos, this`error, this`overflow
      ensures pos <= |text| && At(val) == ParseNumber(text, old(At(0)))
    {
      var neg := false;
      if Char() == '-' {
        neg := true;
        pos := pos + 1;
        Skip();
      }
      if Char() < '0' || Char() > '9' {
        error := true;
        return 0;
      }
      var n: nat := 0;
      ghost var goal := Digits(text, pos, 0);
      while '0' <= Char() <= '9'
        invariant pos <= |text| && Digits(text, pos, n) == goal
        invariant text == old(text) && error == old(error) && overflow == old(overflow)
        decreases |text| - pos
      {
        n := 10 * n + DigitValue(Char());
        pos := pos + 1;
      }
      overflow := overflow || n > I32_MAX;
      val := if neg then 0 - n else n;
    }

    /** parse_term */
    method Term() returns (val: int)
      requires pos <= |text| && IsCString(text)
      modifies this`pos, this`error, this`overflow
      ensures pos <= |text| && At(val) == ParseTerm(text, old(At(0)))
      decreases |text| - pos, 2
    {
      hide ParseFactor, TermLoop, Compute, Apply, SkipWs;
      ghost var goal := ParseTerm(text, At(0));
      ghost var start := pos;
      val := Factor();
      while true
        invariant start <= pos <= |text| && text == old(text)
        invariant TermLoop(text, At(val)) == goal
        decreases |text| - pos
      {
        TermLoopIs(text, At(val));
        Skip();
        var op := Char();
        if op != '*' && op != '/' && op != '%' {
          break;
        }
        pos := pos + 1;
        var stop;
        val, stop := Operate(op, val);
        if stop {
          return;
        }
      }
    }

    /** One turn of the loop of parse_term behind its operator: a zero divisor ends the term. */
    method Operate(op: char, left: int) returns (val: int, stop: bool)
      requires pos <= |text| && IsCString(text) && (op == '*' || op == '/' || op == '%')
      modifies this`pos, this`error, this`overflow
      ensures old(pos) <= pos <= |text|
      ensures var rhs := ParseFactor(text, old(At(0)));
              if op != '*' && rhs.val == 0 then stop && At(val) == rhs.(val := 0, err := true)
              else !stop && At(val) == Combine(op, left, rhs)
      decreases |text| - pos, 2
    {
      hide ParseFactor, Compute, Apply;
      var rhs := Factor();
      stop := false;
      if op == '*' {
        val := Arith(op, left, rhs);
      } else if op == '/' {
        if rhs == 0 {
          error := true;
          return 0, true;
        }
        val := Arith(op, left, rhs);
      } else {
        if rhs == 0 {
          error := true;
          return 0, true;
        }
        val := Arith(op, left, rhs);
      }
    }

    /** One signed operation of C; the ghost flag records when it has no defined result. */
    method Arith(op: char, a: int, b: int) returns (val: int)
      requires op != '+' && op != '-' && op != '*' ==> b != 0
      modifies this`overflow
      ensures val == Compute(op, a, b)
      ensures overflow == (old(overflow) || Apply(op, a, b).None?)
    {
      overflow := overflow || Apply(op, a, b).None?;
      val := Compute(op, a, b);
    }

    /** parse_expr */
    method Expression() returns (val: int)
      requires pos <= |text| && IsCString(text)
      modifies this`pos, this`error, this`overflow
      ensures pos <= |text| && At(val) == ParseExpr(text, old(At(0)))
      decreases |text| - pos, 4
    {
      hide ParseTerm, ExprLoop, Compute, Apply, SkipWs;
      ghost var goal := ParseExpr(text, At(0));
      ghost var start := pos;
      val := Term();
      while true
        invariant start <= pos <= |text| && text == old(text)
        invariant ExprLoop(text, At(val)) == goal
        decreases |text| - pos
      {
        ExprLoopIs(text, At(val));
        Skip();
        var op := Char();
        if op != '+' && op != '-' {
          break;
        }
        pos := pos + 1;
        var rhs := Term();
        val := Arith(op, val, rhs);
      }
    }

    /** calc_eval: success and the value; out keeps its value on failure. */
    method CalcEval(expr: string, out: int) returns (ok: bool, result: int)
      requires IsCString(expr)
      modifies this
      ensures ok <==> Eval(expr).0.Some?
      ensures result == if ok then Eval(expr).0.value else out
      ensures overflow == Eval(expr).1
    {
      text, pos := expr, 0;
      error, overflow := false, false;
      var v := Expression();
      Skip();
      if error || Char() != '\0' {
        return false, out;
      }
      return true, v;
    }
  }
}
