/** Day 18: operator precedence (src/day18.rs). An `Evaluator` reads an
    expression of single digits, `+`, `*`, spaces and parentheses from a
    character cursor. In the first puzzle `+` and `*` bind equally and
    apply left to right; in the second, `*` takes the whole rest of the
    expression as its right operand, so `+` binds tighter. */
module Day18 {
  import opened Util

  datatype Puzzle = One | Two

  /** `parse_digit`. */
  function ParseDigit(digit: char): (d: nat)
    requires IsDigit(digit)
    ensures d < 10 && DigitChar(d) == digit
  {
    (digit as int) - ('0' as int)
  }

  /** Where `eval` stops: at the end of the input or before a `)`. */
  predicate Stopped(rest: string)
  {
    rest == [] || rest[0] == ')'
  }

  // ---------------------------------------------------------------------
  // The evaluation, on the characters the cursor has left. Each function
  // gives the value read and the characters left after it.

  /** `grab_next_value`: skip spaces, then a digit, or a parenthesised
      expression followed by its `)`. Running out of input, a missing `)`
      or any other character panics. */
  function Grab(s: string, puzzle: Puzzle): (r: Result<(nat, string)>)
    ensures r.Ok? ==> |r.value.1| < |s|
    decreases |s|, 0
  {
    if s == [] then Panic
    else if IsDigit(s[0]) then Ok((ParseDigit(s[0]), s[1..]))
    else if s[0] == '(' then
      match EvalExpr(s[1..], puzzle)
      case Panic => Panic
      case Ok((v, rest)) =>
        if rest != [] && rest[0] == ')' then Ok((v, rest[1..])) else Panic
    else if s[0] == ' ' then Grab(s[1..], puzzle)
    else Panic
  }

  /** `eval`: a value, then the loop over the operators. */
  function EvalExpr(s: string, puzzle: Puzzle): (r: Result<(nat, string)>)
    ensures r.Ok? ==> |r.value.1| < |s|
    ensures r.Ok? ==> Stopped(r.value.1)
    decreases |s|, 2
  {
    match Grab(s, puzzle)
    case Panic => Panic
    case Ok((v, rest)) => EvalRest(rest, v, puzzle)
  }

  /** The loop of `eval` with `total` so far: stop at the end of the input
      or before a `)`; `+` adds the next value; `*` multiplies by the next
      value (first puzzle) or by the rest of the expression (second); a
      space is skipped; anything else panics. */
  function EvalRest(s: string, total: nat, puzzle: Puzzle): (r: Result<(nat, string)>)
    ensures r.Ok? ==> |r.value.1| <= |s|
    ensures r.Ok? ==> Stopped(r.value.1)
    decreases |s|, 1
  {
    if s == [] || s[0] == ')' then Ok((total, s))
    else if s[0] == '+' then
      match Grab(s[1..], puzzle)
      case Panic => Panic
      case Ok((v, rest)) => EvalRest(rest, total + v, puzzle)
    else if s[0] == '*' then
      match (if puzzle == One then Grab(s[1..], puzzle) else EvalExpr(s[1..], puzzle))
      case Panic => Panic
      case Ok((v, rest)) => EvalRest(rest, total * v, puzzle)
    else if s[0] == ' ' then EvalRest(s[1..], total, puzzle)
    else Panic
  }

  /** The value of a result, dropping what is left of the input. */
  function ValueOf(r: Result<(nat, string)>): Result<nat>
  {
    match r
    case Panic => Panic
    case Ok((v, _)) => Ok(v)
  }

  // ---------------------------------------------------------------------
  // The evaluator object

  /** `Evaluator`: the characters the `Peekable` cursor has not yet handed
      out, and the puzzle's rules. */
  class Evaluator {
    var chars: string
    const puzzle: Puzzle

    /** `Evaluator::new`. */
    constructor (chars: string, puzzle: Puzzle)
      ensures this.chars == chars && this.puzzle == puzzle
    {
      this.chars := chars;
      this.puzzle := puzzle;
    }

    /** `eval`: the loop over the operators, consuming the expression up to
        the end of the input or an unconsumed `)`. */
    method Eval() returns (r: Result<nat>)
      modifies this
      decreases |chars|, 2
      ensures r == ValueOf(EvalExpr(old(chars), puzzle))
      ensures r.Ok? ==> chars == EvalExpr(old(chars), puzzle).value.1
    {
      var first := GrabNextValue();
      if first.Panic? {
        return Panic;
      }
      var total: nat := first.value;
      while true
        invariant |chars| < |old(chars)|
        invariant EvalExpr(old(chars), puzzle) == EvalRest(chars, total, puzzle)
        decreases |chars|
      {
        if chars == [] || chars[0] == ')' {
          return Ok(total);
        }
        var c := chars[0];
        chars := chars[1..];
        if c == '+' {
          var v := GrabNextValue();
          if v.Panic? {
            return Panic;
          }
          total := total + v.value;
        } else if c == '*' {
          var v;
          if puzzle == One {
            v := GrabNextValue();
          } else {
            v := Eval();
          }
          if v.Panic? {
            return Panic;
          }
          total := total * v.value;
        } else if c != ' ' {
          return Panic;
        }
      }
    }

    /** `grab_next_value`. */
    method GrabNextValue() returns (r: Result<nat>)
      modifies this
      decreases |chars|, 0
      ensures r == ValueOf(Grab(old(chars), puzzle))
      ensures r.Ok? ==> chars == Grab(old(chars), puzzle).value.1
    {
      if chars == [] {
        return Panic;
      }
      var c := chars[0];
      chars := chars[1..];
      if IsDigit(c) {
        return Ok(ParseDigit(c));
      } else if c == '(' {
        var result := Eval();
        if result.Panic? || chars == [] {
          return Panic;
        }
        var next := chars[0];
        chars := chars[1..];
        if next != ')' {
          return Panic;
        }
        return result;
      } else if c == ' ' {
        r := GrabNextValue();
      } else {
        return Panic;
      }
    }
  }

  /** `eval_1`. */
  method Eval1(line: string) returns (r: Result<nat>)
    ensures r == ValueOf(EvalExpr(line, One))
  {
    var e := new Evaluator(line, One);
    r := e.Eval();
  }

  /** `eval_2`. */
  method Eval2(line: string) returns (r: Result<nat>)
    ensures r == ValueOf(EvalExpr(line, Two))
  {
    var e := new Evaluator(line, Two);
    r := e.Eval();
  }

  /** `solve`: the sum of every line's value, as text. A line that panics
      makes the whole sum panic. */
  function LinesTotal(lines: seq<string>, puzzle: Puzzle): (r: Result<nat>)
    ensures r.Ok? <==> forall i :: 0 <= i < |lines| ==> EvalExpr(lines[i], puzzle).Ok?
  {
    if lines == [] then Ok(0)
    else
      match (ValueOf(EvalExpr(lines[0], puzzle)), LinesTotal(lines[1..], puzzle))
      case (Ok(v), Ok(rest)) => Ok(v + rest)
      case _ => Panic
  }

  /** The total is the sum of the lines' values. */
  lemma {:induction false} LinesTotalSum(lines: seq<string>, puzzle: Puzzle, values: seq<nat>)
    requires |values| == |lines|
    requires forall i :: 0 <= i < |lines| ==> ValueOf(EvalExpr(lines[i], puzzle)) == Ok(values[i])
    ensures LinesTotal(lines, puzzle) == Ok(Sum(values))
  {
    if lines != [] {
      LinesTotalSum(lines[1..], puzzle, values[1..]);
    }
  }

  /** `solve` over the lines of the file. */
  method Solve(lines: seq<string>, puzzle: Puzzle) returns (r: Result<string>)
    ensures r == match LinesTotal(lines, puzzle)
                 case Panic => Panic
                 case Ok(n) => Ok(NatToString(n))
  {
    var total: nat := 0;
    var i := 0;
    assert lines[0..] == lines;
    while i < |lines|
      invariant 0 <= i <= |lines|
      invariant LinesTotal(lines, puzzle) == match LinesTotal(lines[i..], puzzle)
                                             case Panic => Panic
                                             case Ok(n) => Ok(total + n)
    {
      var e := new Evaluator(lines[i], puzzle);
      var v := e.Eval();
      assert lines[i..][1..] == lines[i + 1..];
      if v.Panic? {
        return Panic;
      }
      total := total + v.value;
      i := i + 1;
    }
    return Ok(NatToString(total));
  }

  /** `grab_next_value` skips any number of leading spaces. */
  lemma {:induction false} GrabSkipsSpaces(n: nat, t: string, puzzle: Puzzle)
    ensures Grab(seq(n, _ => ' ') + t, puzzle) == Grab(t, puzzle)
  {
    if n > 0 {
      var s := seq(n, _ => ' ') + t;
      assert s[1..] == seq(n - 1, _ => ' ') + t;
      GrabSkipsSpaces(n - 1, t, puzzle);
    } else {
      assert seq(n, _ => ' ') + t == t;
    }
  }

  /** A `(` whose expression runs to the end of the input, with no `)`,
      panics. */
  lemma UnclosedPanics(s: string, puzzle: Puzzle)
    requires EvalExpr(s, puzzle).Ok? && EvalExpr(s, puzzle).value.1 == []
    ensures Grab(['('] + s, puzzle).Panic?
  {
    assert (['('] + s)[1..] == s;
  }

  // ---------------------------------------------------------------------
  // A grammar of the expressions, and what they mean in either puzzle

  type Decimal = d: nat | d < 10

  datatype Op = Plus | Times

  /** A single digit, or a parenthesised expression. */
  datatype Operand = Digit(d: Decimal) | Group(e: Expr)

  /** An operand followed by operators and operands. */
  datatype Expr = Expr(first: Operand, rest: Terms)

  datatype Terms = Nil | Cons(op: Op, operand: Operand, tail: Terms)

  function OpChar(op: Op): char
  {
    match op
    case Plus => '+'
    case Times => '*'
  }

  /** The puzzle's notation: operators surrounded by single spaces. */
  function FormatOperand(o: Operand): string
  {
    match o
    case Digit(d) => [DigitChar(d)]
    case Group(e) => ['('] + FormatExpr(e) + [')']
  }

  function FormatExpr(e: Expr): string
  {
    FormatOperand(e.first) + FormatTerms(e.rest)
  }

  function FormatTerms(t: Terms): string
  {
    match t
    case Nil => []
    case Cons(op, o, tail) => [' ', OpChar(op), ' '] + FormatOperand(o) + FormatTerms(tail)
  }

  function Apply(op: Op, a: nat, b: nat): nat
  {
    match op
    case Plus => a + b
    case Times => a * b
  }

  function OperandValue(o: Operand, puzzle: Puzzle): nat
    decreases o
  {
    match o
    case Digit(d) => d
    case Group(e) => ExprValue(e, puzzle)
  }

  /** The value of an expression: left to right with equal precedence in
      the first puzzle, additions before multiplications in the second. */
  function ExprValue(e: Expr, puzzle: Puzzle): nat
    decreases e
  {
    var v := OperandValue(e.first, puzzle);
    if puzzle == One then LeftToRight(v, e.rest, puzzle) else SumsThenProduct(v, e.rest, puzzle)
  }

  /** Apply each operator in turn to the value so far. */
  function LeftToRight(total: nat, t: Terms, puzzle: Puzzle): nat
    decreases t
  {
    match t
    case Nil => total
    case Cons(op, o, tail) => LeftToRight(Apply(op, total, OperandValue(o, puzzle)), tail, puzzle)
  }

  /** Add up each run of terms joined by `+`, then multiply the runs'
      sums: `total` is the running sum of the current run. */
  function SumsThenProduct(total: nat, t: Terms, puzzle: Puzzle): nat
    decreases t
  {
    match t
    case Nil => total
    case Cons(Plus, o, tail) => SumsThenProduct(total + OperandValue(o, puzzle), tail, puzzle)
    case Cons(Times, o, tail) => total * SumsThenProduct(OperandValue(o, puzzle), tail, puzzle)
  }

  /** Reading an operand yields its value and leaves whatever follows it. */
  lemma {:induction false} GrabOperand(o: Operand, puzzle: Puzzle, t: string)
    ensures Grab(FormatOperand(o) + t, puzzle) == Ok((OperandValue(o, puzzle), t))
    decreases o
  {
    match o
    case Digit(d) =>
      assert (FormatOperand(o) + t)[1..] == t;
    case Group(e) =>
      var s := FormatOperand(o) + t;
      assert s[1..] == FormatExpr(e) + ([')'] + t);
      EvalFormat(e, puzzle, [')'] + t);
  }

  /** Evaluating a formatted expression yields its value and stops at the
      end of the input or the `)` after it. */
  lemma {:induction false} EvalFormat(e: Expr, puzzle: Puzzle, t: string)
    requires Stopped(t)
    ensures EvalExpr(FormatExpr(e) + t, puzzle) == Ok((ExprValue(e, puzzle), t))
    decreases e
  {
    var rest := FormatTerms(e.rest) + t;
    assert FormatExpr(e) + t == FormatOperand(e.first) + rest;
    GrabOperand(e.first, puzzle, rest);
    RestFormat(e.rest, OperandValue(e.first, puzzle), puzzle, t);
  }

  lemma {:induction false} RestFormat(terms: Terms, total: nat, puzzle: Puzzle, t: string)
    requires Stopped(t)
    ensures EvalRest(FormatTerms(terms) + t, total, puzzle)
            == Ok((if puzzle == One then LeftToRight(total, terms, puzzle)
                   else SumsThenProduct(total, terms, puzzle), t))
    decreases terms
  {
    match terms
    case Nil =>
      assert FormatTerms(terms) + t == t;
    case Cons(op, o, tail) =>
      var after := FormatTerms(tail) + t;
      var body := FormatOperand(o) + after;
      assert FormatTerms(terms) + t == [' ', OpChar(op), ' '] + body;
      GrabOperand(o, puzzle, after);
      var v := OperandValue(o, puzzle);
      OperatorStep(op, body, after, v, total, puzzle);
      if puzzle == Two && op == Times {
        RestFormat(tail, v, puzzle, t);
        var inner := SumsThenProduct(v, tail, puzzle);
        assert EvalExpr([' '] + body, puzzle) == Ok((inner, t));
        assert EvalRest(t, total * inner, puzzle) == Ok((total * inner, t));
      } else {
        RestFormat(tail, Apply(op, total, v), puzzle, t);
        if puzzle == One {
          assert LeftToRight(total, terms, puzzle) == LeftToRight(Apply(op, total, v), tail, puzzle);
        } else {
          assert SumsThenProduct(total, terms, puzzle) == SumsThenProduct(Apply(op, total, v), tail, puzzle);
        }
      }
  }

  /** The loop of `eval` at an operator whose operand reads as `v`:
      the first puzzle, and `+` in the second, apply the operator to `v`;
      `*` in the second evaluates the whole rest of the expression. */
  lemma OperatorStep(op: Op, body: string, after: string, v: nat, total: nat, puzzle: Puzzle)
    requires Grab(body, puzzle) == Ok((v, after))
    ensures Grab([' '] + body, puzzle) == Ok((v, after))
    ensures puzzle == Two && op == Times ==>
              EvalRest([' ', OpChar(op), ' '] + body, total, puzzle)
              == var e := EvalExpr([' '] + body, puzzle);
                 if e.Panic? then Panic else EvalRest(e.value.1, total * e.value.0, puzzle)
    ensures !(puzzle == Two && op == Times) ==>
              EvalRest([' ', OpChar(op), ' '] + body, total, puzzle)
              == EvalRest(after, Apply(op, total, v), puzzle)
  {
    var s := [' ', OpChar(op), ' '] + body;
    var operand := [' '] + body;
    assert s[1..][1..] == operand && operand[1..] == body;
    assert EvalRest(s, total, puzzle) == EvalRest(s[1..], total, puzzle);
  }

  /** The evaluator computes the value of every expression of the grammar. */
  lemma EvaluatesExpr(e: Expr, puzzle: Puzzle)
    ensures ValueOf(EvalExpr(FormatExpr(e), puzzle)) == Ok(ExprValue(e, puzzle))
  {
    EvalFormat(e, puzzle, []);
    assert FormatExpr(e) + [] == FormatExpr(e);
  }
}
