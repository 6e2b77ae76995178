/**
 The evaluator on particular inputs: what `calculate` returns for them, where it
 stops reading and whether it reports an error.
 */
module Examples {
  import opened Strtod
  import opened Grammar
  import opened Precedence

  /** Left association: `10-2-3` is `(10-2)-3`. */
  lemma SubtractionGroupsLeft(libm: Libm)
    ensures Calculation(libm, "10-2-3") == Outcome(5.0, 6, false)
  {
    var x := Bin(Minus, Bin(Minus, Num(10), Num(2)), Num(3));
    assert Show(x, 0) + [] == "10-2-3";
    assert Eval(x) == Arith(5.0, false);
    CalculationOfShown(libm, x, []);
  }

  /** Precedence: `2+3*4` is `2+(3*4)`. */
  lemma ProductBindsTighter(libm: Libm)
    ensures Calculation(libm, "2+3*4") == Outcome(14.0, 5, false)
  {
    var x := Bin(Plus, Num(2), Bin(Times, Num(3), Num(4)));
    assert Show(x, 0) + [] == "2+3*4";
    assert Eval(x) == Arith(14.0, false);
    CalculationOfShown(libm, x, []);
  }

  /** Parentheses group first: `2*(3+4)` is 14. */
  lemma ParenthesesFirst(libm: Libm)
    ensures Calculation(libm, "2*(3+4)") == Outcome(14.0, 7, false)
  {
    var x := Bin(Times, Num(2), Bin(Plus, Num(3), Num(4)));
    assert Show(x, 0) + [] == "2*(3+4)";
    assert Eval(x) == Arith(14.0, false);
    CalculationOfShown(libm, x, []);
  }

  /** Spaces around a single operator change nothing but how far the cursor gets:
      `2 + 3` and `2+3` are both 5 without an error. */
  lemma SpacesAroundOperator(libm: Libm)
    ensures Calculation(libm, "2 + 3") == Outcome(5.0, 5, false)
    ensures Calculation(libm, "2+3") == Outcome(5.0, 3, false)
  {
    SpacedSum(libm, "2 + 3");
    PlainSum(libm);
  }

  lemma PlainSum(libm: Libm)
    ensures Calculation(libm, "2+3") == Outcome(5.0, 3, false)
  {
    var x := Bin(Plus, Num(2), Num(3));
    assert Show(x, 0) + [] == "2+3";
    assert Eval(x) == Arith(5.0, false);
    CalculationOfShown(libm, x, []);
  }

  lemma SpacedSum(libm: Libm, s: seq<char>)
    requires |s| == 5 && s[0] == '2' && s[1] == ' ' && s[2] == '+' && s[3] == ' ' && s[4] == '3'
    ensures Calculation(libm, s) == Outcome(5.0, 5, false)
  {
    LiteralAt(libm, s, 0, 0, false, "2", 2);
    assert SkipSpaces(s, 1) == 2;
    assert Term(libm, s, 0, false) == TermLoop(libm, s, 2, 2.0, false);
    assert SkipSpaces(s, 3) == 4;
    LiteralAt(libm, s, 3, 4, false, "3", 3);
    Alone(libm, s, 3, false, Outcome(3.0, 5, false), 5);
    assert ExpressionLoop(libm, s, 2, 2.0, false) == ExpressionLoop(libm, s, 5, 5.0, false);
  }

  /** Text after a complete expression is not read: `2 3` is 2, and the cursor
      stops on the `3`. */
  lemma TrailingTextIgnored(libm: Libm)
    ensures Calculation(libm, "2 3") == Outcome(2.0, 2, false)
  {
    LiteralAt(libm, "2 3", 0, 0, false, "2", 2);
    assert SkipSpaces("2 3", 1) == 2;
    Alone(libm, "2 3", 0, false, Outcome(2.0, 1, false), 2);
  }

  /** Spaces are skipped before the multiplicative loop starts but not between its
      turns: in `2*3 *4` the loop stops at the space, and the `*` after it is a
      trailing character. */
  lemma NoSpacesBetweenTurns(libm: Libm)
    ensures Calculation(libm, "2*3 *4") == Outcome(6.0, 4, false)
  {
    Product(libm, "2*3 *4");
  }

  lemma Product(libm: Libm, s: seq<char>)
    requires |s| == 6 && s[0] == '2' && s[1] == '*' && s[2] == '3' && s[3] == ' ' && s[4] == '*' && s[5] == '4'
    ensures Calculation(libm, s) == Outcome(6.0, 4, false)
  {
    LiteralAt(libm, s, 0, 0, false, "2", 2);
    LiteralAt(libm, s, 2, 2, false, "3", 3);
    assert TermLoop(libm, s, 1, 2.0, false) == TermLoop(libm, s, 3, 6.0, false);
    assert Term(libm, s, 0, false) == Outcome(6.0, 3, false);
    assert SkipSpaces(s, 3) == 4;
    assert Expression(libm, s, 0, false) == ExpressionLoop(libm, s, 4, 6.0, false);
  }

  /** The same for the additive loop: `1 + 2*3 + 4` stops at the space after `3`. */
  lemma AdditiveLoopStopsAtSpace(libm: Libm)
    ensures Calculation(libm, "1 + 2*3 + 4") == Outcome(7.0, 7, false)
  {
    Sum(libm, "1 + 2*3 + 4");
  }

  lemma Sum(libm: Libm, s: seq<char>)
    requires |s| == 11 && s[0] == '1' && s[1] == ' ' && s[2] == '+' && s[3] == ' ' && s[4] == '2'
    requires s[5] == '*' && s[6] == '3' && s[7] == ' ' && s[8] == '+' && s[9] == ' ' && s[10] == '4'
    ensures Calculation(libm, s) == Outcome(7.0, 7, false)
  {
    assert SkipSpaces(s, 1) == 2 && SkipSpaces(s, 3) == 4;
    LiteralAt(libm, s, 0, 0, false, "1", 1);
    LiteralAt(libm, s, 3, 4, false, "2", 2);
    LiteralAt(libm, s, 6, 6, false, "3", 3);
    assert Term(libm, s, 0, false) == Outcome(1.0, 2, false);
    assert TermLoop(libm, s, 5, 2.0, false) == TermLoop(libm, s, 7, 6.0, false);
    assert Term(libm, s, 3, false) == Outcome(6.0, 7, false);
    assert ExpressionLoop(libm, s, 2, 1.0, false) == ExpressionLoop(libm, s, 7, 7.0, false);
  }

  /** A call without its closing parenthesis reads a number after the argument,
      without an error of its own: `sin(90 5` is 5. */
  lemma UnclosedCallFallsThrough(libm: Libm)
    ensures Calculation(libm, "sin(90 5") == Outcome(5.0, 8, false)
  {
    UnclosedCall(libm, "sin(90 5");
  }

  lemma UnclosedCall(libm: Libm, s: seq<char>)
    requires |s| == 8 && s[0] == 's' && s[1] == 'i' && s[2] == 'n' && s[3] == '('
    requires s[4] == '9' && s[5] == '0' && s[6] == ' ' && s[7] == '5'
    ensures Calculation(libm, s) == Outcome(5.0, 8, false)
  {
    LiteralAt(libm, s, 4, 4, false, "90", 90);
    assert SkipSpaces(s, 6) == 7;
    Alone(libm, s, 4, false, Outcome(90.0, 6, false), 7);
    NumberAt(s, 7, 7, false, "5", 5);
    assert TrigCall(s, 0) == Some(Sin);
    assert Factor(libm, s, 0, false) == Call(libm, Sin, s, 4, false) == Outcome(5.0, 8, false);
    Alone(libm, s, 0, false, Outcome(5.0, 8, false), 8);
  }

  /** A closed call is the function of its argument in radians. */
  lemma ClosedCall(libm: Libm)
    ensures Calculation(libm, "sin(90)") == Outcome(libm(Sin, 90.0 * PI / 180.0), 7, false)
  {
    SineCall(libm, "sin(90)");
  }

  lemma SineCall(libm: Libm, s: seq<char>)
    requires |s| == 7 && s[0] == 's' && s[1] == 'i' && s[2] == 'n' && s[3] == '('
    requires s[4] == '9' && s[5] == '0' && s[6] == ')'
    ensures Calculation(libm, s) == Outcome(libm(Sin, Radians(90.0)), 7, false)
  {
    LiteralAt(libm, s, 4, 4, false, "90", 90);
    Alone(libm, s, 4, false, Outcome(90.0, 6, false), 6);
    assert TrigCall(s, 0) == Some(Sin);
    var o := Outcome(libm(Sin, Radians(90.0)), 7, false);
    assert Factor(libm, s, 0, false) == Call(libm, Sin, s, 4, false) == o;
    Alone(libm, s, 0, false, o, 7);
  }

  /** A missing `)` sets the flag, and the value inside is still returned. */
  lemma UnclosedGroup(libm: Libm)
    ensures Calculation(libm, "(2+3") == Outcome(5.0, 4, true)
  {
    LiteralAt(libm, "(2+3", 1, 1, false, "2", 2);
    assert Term(libm, "(2+3", 1, false) == Outcome(2.0, 2, false);
    LiteralAt(libm, "(2+3", 3, 3, false, "3", 3);
    assert Term(libm, "(2+3", 3, false) == Outcome(3.0, 4, false);
    assert Expression(libm, "(2+3", 1, false) == Outcome(5.0, 4, false);
    assert Factor(libm, "(2+3", 0, false) == Outcome(5.0, 4, true);
    assert Term(libm, "(2+3", 0, false) == Outcome(5.0, 4, true);
  }

  /** Text that is no number sets the flag and gives zero, without moving the cursor. */
  lemma NotANumber(libm: Libm)
    ensures Calculation(libm, "abc") == Outcome(0.0, 0, true)
  {
    assert TrigCall("abc", 0) == None;
    NoFactor(libm, "abc");
  }

  /** Function names are case-sensitive: `Sin(0)` is not a call. */
  lemma CapitalisedName(libm: Libm)
    ensures Calculation(libm, "Sin(0)") == Outcome(0.0, 0, true)
  {
    assert TrigCall("Sin(0)", 0) == None;
    NoFactor(libm, "Sin(0)");
  }

  /** Division by zero sets the flag and gives zero. */
  lemma DivisionByZero(libm: Libm)
    ensures Calculation(libm, "10/0") == Outcome(0.0, 4, true)
  {
    LiteralAt(libm, "10/0", 0, 0, false, "10", 10);
    LiteralAt(libm, "10/0", 3, 3, false, "0", 0);
    assert TermLoop(libm, "10/0", 2, 10.0, false) == TermLoop(libm, "10/0", 4, 0.0, true);
    assert Term(libm, "10/0", 0, false) == Outcome(0.0, 4, true);
  }

  /** The one or two digits `d` at `q`, not continued, are the literal of `n`. */
  lemma DigitsAt(s: seq<char>, q: nat, d: seq<char>, n: nat)
    requires 1 <= |d| <= 2 && q + |d| <= |s| && LiteralEnd(s, q + |d|)
    requires s[q] == d[0] && (|d| == 2 ==> s[q + 1] == d[1])
    requires d == Decimal(n)
    ensures HasPrefix(s, q, Decimal(n)) && LiteralEnd(s, q + |Decimal(n)|)
  {
    if |d| == 1 {
      assert s[q..q + 1] == [s[q]];
    } else {
      assert s[q..q + 2] == [s[q], s[q + 1]];
    }
  }

  /** `parse_number` on the digits `d` of `n` at `q`, after the spaces from `p`. */
  lemma NumberAt(s: seq<char>, p: nat, q: nat, e: bool, d: seq<char>, n: nat)
    requires p <= |s| && q == SkipSpaces(s, p)
    requires 1 <= |d| <= 2 && q + |d| <= |s| && LiteralEnd(s, q + |d|)
    requires s[q] == d[0] && (|d| == 2 ==> s[q + 1] == d[1])
    requires d == Decimal(n)
    ensures Number(s, p, e) == Outcome(n as real, q + |d|, e)
  {
    DigitsAt(s, q, d, n);
    ConvertDecimal(s, q, n);
  }

  /** `parse_factor` on the digits `d` of `n` at `q`, after the spaces from `p`. */
  lemma LiteralAt(libm: Libm, s: seq<char>, p: nat, q: nat, e: bool, d: seq<char>, n: nat)
    requires p <= |s| && q == SkipSpaces(s, p)
    requires 1 <= |d| <= 2 && q + |d| <= |s| && LiteralEnd(s, q + |d|)
    requires s[q] == d[0] && (|d| == 2 ==> s[q + 1] == d[1])
    requires d == Decimal(n)
    ensures Factor(libm, s, p, e) == Outcome(n as real, q + |d|, e)
  {
    assert IsDigit(s[q]);
    assert TrigCall(s, q) == None;
    NumberAt(s, p, q, e, d, n);
  }

  /** A factor with no operator after it (past the spaces that follow it) is the
      whole term and the whole expression. */
  /** A text that starts with neither a space, a group, a call nor a number: nothing is
      read, and the flag is set. */
  lemma NoFactor(libm: Libm, s: seq<char>)
    requires 0 < |s| && !IsSpace(s[0]) && s[0] != '(' && TrigCall(s, 0) == None && !HasSubject(s, 0)
    requires s[0] != '+' && s[0] != '-' && s[0] != '*' && s[0] != '/'
    ensures Calculation(libm, s) == Outcome(0.0, 0, true)
  {
    assert SkipSpaces(s, 0) == 0;
    assert Factor(libm, s, 0, false) == Number(s, 0, false) == Outcome(0.0, 0, true);
    Alone(libm, s, 0, false, Outcome(0.0, 0, true), 0);
  }

  lemma Alone(libm: Libm, s: seq<char>, p: nat, e: bool, o: Outcome, r: nat)
    requires p <= |s| && Factor(libm, s, p, e) == o
    requires r == SkipSpaces(s, o.pos)
    requires Peek(s, r) != '+' && Peek(s, r) != '-' && Peek(s, r) != '*' && Peek(s, r) != '/'
    ensures Term(libm, s, p, e) == Outcome(o.value, r, o.error)
    ensures Expression(libm, s, p, e) == Outcome(o.value, r, o.error)
  {
    assert SkipSpaces(s, r) == r;
  }
}
