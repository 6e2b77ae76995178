/**
 Properties of the evaluator that relate several of its routines: what skipping
 spaces skips, that the error flag never steers the parse, and how `parse_factor`
 chooses its branch from the text.
 */
module Properties {
  import opened Strtod
  import opened Grammar

  /** Every character `skip_whitespace` steps over is a space. */
  lemma {:induction false} SkippedAreSpaces(s: seq<char>, p: nat)
    requires p <= |s|
    ensures forall i :: p <= i < SkipSpaces(s, p) ==> IsSpace(s[i])
    decreases |s| - p
  {
    if p < |s| && IsSpace(s[p]) {
      SkippedAreSpaces(s, p + 1);
    }
  }

  /** Skipping spaces a second time does not move the cursor. */
  lemma SkipSpacesIdempotent(s: seq<char>, p: nat)
    requires p <= |s|
    ensures SkipSpaces(s, SkipSpaces(s, p)) == SkipSpaces(s, p)
  {
  }

  /** An outcome with the flag raised if it was already raised on entry. */
  function Raise(o: Outcome, e: bool): Outcome
  {
    Outcome(o.value, o.pos, e || o.error)
  }

  /*
   The flag is only ever set, never read: a routine entered with the flag already
   raised computes the same value and leaves the cursor in the same place as it
   would with the flag clear, and leaves the flag raised. So an error met early
   cannot change how the rest of the text is parsed, and `calculate`, which
   clears it, starts every evaluation afresh.
   */

  lemma {:induction false} ExpressionFlag(libm: Libm, s: seq<char>, p: nat, e: bool)
    requires p <= |s|
    ensures Expression(libm, s, p, e) == Raise(Expression(libm, s, p, false), e)
    decreases |s| - p, 5
  {
    var t := Term(libm, s, p, false);
    TermFlag(libm, s, p, e);
    ExpressionLoopFlag(libm, s, SkipSpaces(s, t.pos), t.value, e || t.error);
    ExpressionLoopFlag(libm, s, SkipSpaces(s, t.pos), t.value, t.error);
  }

  lemma {:induction false} ExpressionLoopFlag(libm: Libm, s: seq<char>, p: nat, acc: real, e: bool)
    requires p <= |s|
    ensures ExpressionLoop(libm, s, p, acc, e) == Raise(ExpressionLoop(libm, s, p, acc, false), e)
    decreases |s| - p, 4
  {
    var op := Peek(s, p);
    if op == '+' || op == '-' {
      var t := Term(libm, s, p + 1, false);
      TermFlag(libm, s, p + 1, e);
      var a := Operation(acc, t.value, op);
      ExpressionLoopFlag(libm, s, t.pos, a.value, e || t.error || a.failed);
      ExpressionLoopFlag(libm, s, t.pos, a.value, t.error || a.failed);
    }
  }

  lemma {:induction false} TermFlag(libm: Libm, s: seq<char>, p: nat, e: bool)
    requires p <= |s|
    ensures Term(libm, s, p, e) == Raise(Term(libm, s, p, false), e)
    decreases |s| - p, 3
  {
    var f := Factor(libm, s, p, false);
    FactorFlag(libm, s, p, e);
    TermLoopFlag(libm, s, SkipSpaces(s, f.pos), f.value, e || f.error);
    TermLoopFlag(libm, s, SkipSpaces(s, f.pos), f.value, f.error);
  }

  lemma {:induction false} TermLoopFlag(libm: Libm, s: seq<char>, p: nat, acc: real, e: bool)
    requires p <= |s|
    ensures TermLoop(libm, s, p, acc, e) == Raise(TermLoop(libm, s, p, acc, false), e)
    decreases |s| - p, 2
  {
    var op := Peek(s, p);
    if op == '*' || op == '/' {
      var f := Factor(libm, s, p + 1, false);
      FactorFlag(libm, s, p + 1, e);
      var a := Operation(acc, f.value, op);
      TermLoopFlag(libm, s, f.pos, a.value, e || f.error || a.failed);
      TermLoopFlag(libm, s, f.pos, a.value, f.error || a.failed);
    }
  }

  lemma {:induction false} FactorFlag(libm: Libm, s: seq<char>, p: nat, e: bool)
    requires p <= |s|
    ensures Factor(libm, s, p, e) == Raise(Factor(libm, s, p, false), e)
    decreases |s| - p, 1
  {
    var q := SkipSpaces(s, p);
    if Peek(s, q) == '(' {
      GroupFlag(libm, s, p, e);
    } else if TrigCall(s, q).Some? {
      CallFlag(libm, s, p, e);
    } else {
      LiteralFlag(libm, s, p, e);
    }
  }

  lemma {:induction false} GroupFlag(libm: Libm, s: seq<char>, p: nat, e: bool)
    requires p <= |s| && Peek(s, SkipSpaces(s, p)) == '('
    ensures Factor(libm, s, p, e) == Raise(Factor(libm, s, p, false), e)
    decreases |s| - p, 0
  {
    var q := SkipSpaces(s, p);
    FactorIsGroup(libm, s, p, e);
    FactorIsGroup(libm, s, p, false);
    GroupInnerFlag(libm, s, q + 1, e);
  }

  lemma FactorIsGroup(libm: Libm, s: seq<char>, p: nat, e: bool)
    requires p <= |s| && Peek(s, SkipSpaces(s, p)) == '('
    ensures Factor(libm, s, p, e) == Group(libm, s, SkipSpaces(s, p) + 1, e)
  {
  }

  lemma {:induction false} GroupInnerFlag(libm: Libm, s: seq<char>, p: nat, e: bool)
    requires p <= |s|
    ensures Group(libm, s, p, e) == Raise(Group(libm, s, p, false), e)
    decreases |s| - p, 6
  {
    ExpressionFlag(libm, s, p, e);
  }

  lemma {:induction false} CallFlag(libm: Libm, s: seq<char>, p: nat, e: bool)
    requires p <= |s| && Peek(s, SkipSpaces(s, p)) != '(' && TrigCall(s, SkipSpaces(s, p)).Some?
    ensures Factor(libm, s, p, e) == Raise(Factor(libm, s, p, false), e)
    decreases |s| - p, 0
  {
    var q := SkipSpaces(s, p);
    FactorIsCall(libm, s, p, e);
    FactorIsCall(libm, s, p, false);
    CallArgFlag(libm, TrigCall(s, q).value, s, q + 4, e);
  }

  lemma FactorIsCall(libm: Libm, s: seq<char>, p: nat, e: bool)
    requires p <= |s| && Peek(s, SkipSpaces(s, p)) != '(' && TrigCall(s, SkipSpaces(s, p)).Some?
    ensures Factor(libm, s, p, e) == Call(libm, TrigCall(s, SkipSpaces(s, p)).value, s, SkipSpaces(s, p) + 4, e)
  {
  }

  lemma {:induction false} CallArgFlag(libm: Libm, f: Trig, s: seq<char>, p: nat, e: bool)
    requires p <= |s|
    ensures Call(libm, f, s, p, e) == Raise(Call(libm, f, s, p, false), e)
    decreases |s| - p, 6
  {
    ExpressionFlag(libm, s, p, e);
    var arg := Expression(libm, s, p, false);
    if Peek(s, arg.pos) != ')' {
      NumberFlag(s, arg.pos, arg.error, e);
    }
  }

  lemma LiteralFlag(libm: Libm, s: seq<char>, p: nat, e: bool)
    requires p <= |s| && Peek(s, SkipSpaces(s, p)) != '(' && TrigCall(s, SkipSpaces(s, p)).None?
    ensures Factor(libm, s, p, e) == Raise(Factor(libm, s, p, false), e)
  {
    NumberFlag(s, SkipSpaces(s, p), false, e);
  }

  lemma NumberFlag(s: seq<char>, p: nat, x: bool, e: bool)
    requires p <= |s|
    ensures Number(s, p, e || x) == Raise(Number(s, p, x), e)
  {
  }

  /** A `(` after the spaces opens a group: the value inside is the factor's value
      whether or not a `)` closes it, and only a missing `)` sets the flag. */
  lemma FactorGroup(libm: Libm, s: seq<char>, p: nat, e: bool)
    requires p <= |s|
    requires Peek(s, SkipSpaces(s, p)) == '('
    ensures var inner := Expression(libm, s, SkipSpaces(s, p) + 1, e);
      var r := Factor(libm, s, p, e);
      r.value == inner.value
      && (r.error <==> inner.error || Peek(s, inner.pos) != ')')
      && r.pos == if Peek(s, inner.pos) == ')' then inner.pos + 1 else inner.pos
  {
  }

  /** A function name spelt exactly, followed at once by `(`, is a call: with a `)`
      after the argument, the function of the argument in radians; without one,
      whatever number follows the argument, with no error of the call's own. */
  lemma FactorCall(libm: Libm, s: seq<char>, p: nat, e: bool, f: Trig)
    requires p <= |s|
    requires HasPrefix(s, SkipSpaces(s, p), Name(f) + "(")
    ensures var arg := Expression(libm, s, SkipSpaces(s, p) + 4, e);
      Factor(libm, s, p, e) ==
        if Peek(s, arg.pos) == ')' then Outcome(libm(f, Radians(arg.value)), arg.pos + 1, arg.error)
        else Number(s, arg.pos, arg.error)
  {
    TrigCallNamed(s, SkipSpaces(s, p), f);
    FactorIsCall(libm, s, p, e);
  }

  /** Text that opens neither a group nor a call is read as a number. */
  lemma FactorNumber(libm: Libm, s: seq<char>, p: nat, e: bool)
    requires p <= |s|
    requires Peek(s, SkipSpaces(s, p)) != '('
    requires forall g: Trig :: !HasPrefix(s, SkipSpaces(s, p), Name(g) + "(")
    ensures Factor(libm, s, p, e) == Number(s, p, e)
  {
    TrigCallExact(s, SkipSpaces(s, p));
  }
}
