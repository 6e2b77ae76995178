/**
 The evaluator of miniLab.c as it runs: one object holds the text, the cursor
 that every routine advances in place, and the error flag every routine may set.
 Each method is one C routine and is proved to compute what the matching
 function of module Grammar says, for the cursor and the flag as it finds them.
 */
module MiniLab {
  import opened Strtod
  import opened Grammar

  /** `calculate`: a fresh cursor at the start of the text and a cleared flag, then
      the expression. The result depends on the text alone: nothing from an earlier
      call is carried over. */
  method Calculate(libm: Libm, expression: seq<char>) returns (r: real, error: bool)
    ensures var o := Calculation(libm, expression);
      r == o.value && error == o.error
  {
    var cursor := new Cursor(libm, expression);
    r := cursor.EvaluateExpression();
    error := cursor.error;
  }

  /** The state one evaluation shares between the routines: the text, the cursor
      `*expression_ptr` that every routine advances in place, and the `*error` flag. */
  class Cursor {
    /** The `sin`, `cos` and `tan` of the C library. */
    const libm: Libm
    /** The text being evaluated (the C string without its terminator). */
    const s: seq<char>
    /** The position of the cursor in `s`. */
    var pos: nat
    /** The error flag. */
    var error: bool

    /** A cursor at the start of `s` with the flag cleared. */
    constructor (libm: Libm, s: seq<char>)
      ensures this.libm == libm && this.s == s && pos == 0 && !error
    {
      this.libm, this.s := libm, s;
      pos, error := 0, false;
    }

    /** `evaluate_expression`. */
    method EvaluateExpression() returns (r: real)
      requires pos <= |s|
      modifies this`pos, this`error
      ensures var o := Expression(libm, s, old(pos), old(error));
        r == o.value && pos == o.pos && error == o.error
      decreases |s| - pos, 4
    {
      r := ParseTerm();
      SkipWhitespace();
      while Peek(s, pos) == '+' || Peek(s, pos) == '-'
        invariant pos <= |s|
        invariant ExpressionLoop(libm, s, pos, r, error) == Expression(libm, s, old(pos), old(error))
        decreases |s| - pos
      {
        r := AdditiveStep(r);
      }
    }

    /** One turn of the `while` loop of `evaluate_expression`. */
    method AdditiveStep(acc: real) returns (r: real)
      requires pos < |s| && (s[pos] == '+' || s[pos] == '-')
      modifies this`pos, this`error
      ensures old(pos) < pos <= |s|
      ensures ExpressionLoop(libm, s, pos, r, error) == ExpressionStep(libm, s, old(pos), acc, old(error))
      decreases |s| - pos, 3
    {
      var op := s[pos];
      pos := pos + 1;
      var value := ParseTerm();
      r := EvaluateOperation(acc, value, op);
    }

    /** `parse_term`. */
    method ParseTerm() returns (r: real)
      requires pos <= |s|
      modifies this`pos, this`error
      ensures var o := Term(libm, s, old(pos), old(error));
        r == o.value && pos == o.pos && error == o.error
      decreases |s| - pos, 2
    {
      r := ParseFactor();
      SkipWhitespace();
      while Peek(s, pos) == '*' || Peek(s, pos) == '/'
        invariant pos <= |s|
        invariant TermLoop(libm, s, pos, r, error) == Term(libm, s, old(pos), old(error))
        decreases |s| - pos
      {
        r := MultiplicativeStep(r);
      }
    }

    /** One turn of the `while` loop of `parse_term`. */
    method MultiplicativeStep(acc: real) returns (r: real)
      requires pos < |s| && (s[pos] == '*' || s[pos] == '/')
      modifies this`pos, this`error
      ensures old(pos) < pos <= |s|
      ensures TermLoop(libm, s, pos, r, error) == TermStep(libm, s, old(pos), acc, old(error))
      decreases |s| - pos, 1
    {
      var op := s[pos];
      pos := pos + 1;
      var value := ParseFactor();
      r := EvaluateOperation(acc, value, op);
    }

    /** `parse_factor`. The three `strncmp` branches of the C code share one body,
        selected here by the name that matched. */
    method ParseFactor() returns (r: real)
      requires pos <= |s|
      modifies this`pos, this`error
      ensures var o := Factor(libm, s, old(pos), old(error));
        r == o.value && pos == o.pos && error == o.error
      decreases |s| - pos, 0
    {
      SkipWhitespace();
      if Peek(s, pos) == '(' {
        pos := pos + 1;
        r := ParseGroup();
        return;
      }
      var call := TrigCall(s, pos);
      if call.Some? {
        pos := pos + 4;
        r := ParseCall(call.value);
      } else {
        r := ParseNumber();
      }
    }

    /** The parenthesised branch of `parse_factor`, after the `(`. */
    method ParseGroup() returns (r: real)
      requires pos <= |s|
      modifies this`pos, this`error
      ensures var o := Group(libm, s, old(pos), old(error));
        r == o.value && pos == o.pos && error == o.error
      decreases |s| - pos, 5
    {
      r := EvaluateExpression();
      if Peek(s, pos) == ')' {
        pos := pos + 1;
      } else {
        error := true;
      }
    }

    /** The trigonometric branch of `parse_factor`, after the name and its `(`. */
    method ParseCall(f: Trig) returns (r: real)
      requires pos <= |s|
      modifies this`pos, this`error
      ensures var o := Call(libm, f, s, old(pos), old(error));
        r == o.value && pos == o.pos && error == o.error
      decreases |s| - pos, 5
    {
      var value := EvaluateExpression();
      if Peek(s, pos) == ')' {
        pos := pos + 1;
        return libm(f, Radians(value));
      }
      r := ParseNumber();
    }

    /** `parse_number`: `strtod` at the cursor after spaces. */
    method ParseNumber() returns (r: real)
      requires pos <= |s|
      modifies this`pos, this`error
      ensures var o := Number(s, old(pos), old(error));
        r == o.value && pos == o.pos && error == o.error
    {
      SkipWhitespace();
      var c := Convert(s, pos);
      if c.end == pos {
        error := true;
        return 0.0;
      }
      pos := c.end;
      r := c.value;
    }

    /** `skip_whitespace`. */
    method SkipWhitespace()
      requires pos <= |s|
      modifies this`pos
      ensures pos == SkipSpaces(s, old(pos))
    {
      while pos < |s| && IsSpace(s[pos])
        invariant old(pos) <= pos <= |s|
        invariant SkipSpaces(s, pos) == SkipSpaces(s, old(pos))
        decreases |s| - pos
      {
        pos := pos + 1;
      }
    }

    /** `evaluate_operation`. */
    method EvaluateOperation(a: real, b: real, op: char) returns (r: real)
      modifies this`error
      ensures var o := Operation(a, b, op);
        r == o.value && error == (old(error) || o.failed)
    {
      match op
      case '+' => return a + b;
      case '-' => return a - b;
      case '*' => return a * b;
      case '/' =>
        if b == 0.0 {
          error := true;
          return 0.0;
        }
        return a / b;
      case _ =>
        error := true;
        return 0.0;
    }
  }
}
