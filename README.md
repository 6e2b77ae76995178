# MiniLab expression evaluator in Dafny

MiniLab's `calculate` evaluates arithmetic text in one pass. It is a recursive-descent
parser that computes while it parses. It handles:

- `+ - * /`, with the usual precedence, both levels grouping to the left;
- parenthesised groups;
- `sin(`, `cos(` and `tan(` calls on arguments given in degrees;
- decimal literals read as `strtod` reads them.

All routines share one cursor into the text and one error flag. The cursor only moves
forward. The flag is sticky: once set, no routine clears it.

The project has seven modules:

- `Strtod` (`strtod.dfy`) describes the decimal part of `strtod`. It finds the subject
  sequence, its exact real value and where the conversion stops. It also proves that a
  natural number's decimal text converts back to that number.
- `Literals` (`literals.dfy`) defines decimal literals on their own: a sign, digits with
  an optional point and fraction, and an optional exponent part, each with its text and
  its value. It proves that `strtod` on any literal that is not continued gives exactly
  that literal's value and ends right after it. Conversely, whatever `strtod` converts
  is such a literal. So `parse_number` reads exactly the longest literal after the
  spaces.
- `Grammar` (`grammar.dfy`) gives one pure function per C routine, and one per loop and
  per loop turn. Each takes the text, the cursor and the flag on entry. It returns an
  `Outcome`: the routine's value, where the cursor ends and the flag afterwards. Every
  such function is proved to keep the cursor inside the text and to move it only
  forward, and to keep a raised flag raised. The routines (`Expression`, `Term`,
  `Factor`, `Group`, `Call`) consume at least one character when no error occurs. Each
  loop turn consumes at least its operator. A whole loop may consume nothing. The
  `decreases` clauses prove that the mutual recursion terminates.
- `MiniLab` (`minilab.dfy`) is the C code as it runs. A `Cursor` object holds the text,
  the cursor `pos` and the flag `error`. Each C routine is one method that updates those
  fields in place: `EvaluateExpression`, `ParseTerm`, `ParseFactor`, `ParseNumber`,
  `SkipWhitespace` and `EvaluateOperation`. Each method is proved to produce the value,
  cursor and flag of its `Grammar` function.
- `Properties` (`properties.dfy`) relates the routines to each other:
  - the flag is written but never read, so an error changes no later parse decision;
  - skipping spaces is exact and idempotent;
  - how `parse_factor` picks its branch.
- `Precedence` (`precedence.dfy`) proves precedence and left associativity for every
  tree of the following kind. Take any arithmetic tree over natural literals, printed with the fewest
  parentheses. Evaluating the printed text gives the tree's value. It flags an error
  exactly when the tree divides by zero, and it stops right after the tree's text.
- `Examples` (`examples.dfy`) gives the evaluator's outcome on particular inputs. These
  are the documented sample inputs and the code's edge cases.

`sin`, `cos` and `tan` are foreign C functions, so the model takes them as a parameter
`libm` of type `(Trig, real) -> real`. `M_PI` is the constant `Grammar.PI`.

### Behaviour a reader might not expect

The model follows `miniLab.c` as written.

- **Spaces in the loops.** One might expect each turn of the additive loop to skip spaces
  first. The code skips spaces once, after the first operand of each level, and not
  between turns (`miniLab.c:28`, `miniLab.c:42`). So `1 + 2*3 + 4` is 7: `parse_term`
  stops at the space after `3`, and so does the additive loop
  (`Examples.AdditiveLoopStopsAtSpace`). Likewise `2*3 *4` is 6
  (`Examples.NoSpacesBetweenTurns`). Spaces around a single operator are still harmless
  (`Examples.SpacesAroundOperator`).
- **Unclosed calls.** One might expect a call without its `)` to be an error. The code recognises a call only as the exact lower-case name
  followed at once by `(`. When the matching `)` is missing, `parse_factor` falls
  through to `parse_number` at the point where the argument ended, and the call itself
  raises no error. `sin(90 5` is therefore 5 with no error
  (`Examples.UnclosedCallFallsThrough`).

## Model

| member | source | states |
|---|---|---|
| MiniLab.Calculate | miniLab.c:19-23 | The value and flag are those of `Calculation` on the text alone: the cursor starts at 0 and the flag is cleared, so no earlier call has any effect |
| MiniLab.Cursor.constructor | miniLab.c:20-21 | A fresh cursor at the start of the text, with the flag cleared |
| MiniLab.Cursor.EvaluateExpression | miniLab.c:26-37 | Returns the value of `Expression` from the cursor and flag on entry, and leaves the cursor and flag where `Expression` does; the while-loop invariant ties each turn to `ExpressionLoop` |
| MiniLab.Cursor.AdditiveStep | miniLab.c:30-33 | One turn of the additive loop moves the cursor strictly forward; looping on from the new state gives what `ExpressionStep` gives from the old one |
| MiniLab.Cursor.ParseTerm | miniLab.c:40-51 | Value, cursor and flag are those of `Term` from the entry state |
| MiniLab.Cursor.MultiplicativeStep | miniLab.c:44-47 | One turn of the multiplicative loop moves the cursor strictly forward; looping on from the new state gives what `TermStep` gives from the old one |
| MiniLab.Cursor.ParseFactor | miniLab.c:54-92 | Value, cursor and flag are those of `Factor` from the entry state |
| MiniLab.Cursor.ParseGroup | miniLab.c:58-65 | Value, cursor and flag are those of `Group` from the entry state |
| MiniLab.Cursor.ParseCall | miniLab.c:69-74 | Value, cursor and flag are those of `Call` for the recognised function |
| MiniLab.Cursor.ParseNumber | miniLab.c:95-108 | Value, cursor and flag are those of `Number` from the entry state |
| MiniLab.Cursor.SkipWhitespace | miniLab.c:111-115 | The cursor ends at `SkipSpaces` of where it started, and nothing else changes |
| MiniLab.Cursor.EvaluateOperation | miniLab.c:118-133 | Returns `Operation`'s value. The flag is raised if it was raised before or the operation failed, and is otherwise left alone |
| Grammar.SkipSpaces | miniLab.c:111-115 | The cursor does not move back, stays inside the text, and stops at the end or on a character `isspace` rejects |
| Grammar.Operation | miniLab.c:118-133 | Fails exactly on a division by zero or an operator other than `+ - * /`; a failure gives zero |
| Grammar.Number | miniLab.c:95-108 | The flag is raised exactly when it was raised on entry or no subject sequence follows the spaces. Without one: zero, with the cursor on the first non-space. With one: the value and end of `strtod` at the first non-space, which lie past it |
| Grammar.SpacesOfCLocale | miniLab.c:112 | Exactly the six characters `isspace` accepts in the C locale: space, tab, newline, vertical tab, form feed and carriage return |
| Grammar.PeekTerminated | miniLab.c:29 | The character under the cursor is that of the C string, the text followed by its terminator `'\0'` |
| Grammar.CallSyntaxPrefix | miniLab.c:68 | For a name without NUL, the four-character `strncmp` test succeeds exactly when the name and `(` are written at the cursor |
| Grammar.Radians | miniLab.c:73 | Degrees converted to radians: the result times 180 is the degrees times π |
| Grammar.TrigCall | miniLab.c:68-89 | A recognised call has its four characters inside the text |
| Grammar.TrigCallExact | miniLab.c:68-89 | A call is recognised exactly when the text is `sin(`, `cos(` or `tan(`, in lower case with no space before `(` |
| Grammar.TrigCallNamed | miniLab.c:68-89 | A function's name followed by `(` is recognised as a call of that very function, and is not taken for a group |
| Grammar.Expression | miniLab.c:26-37 | The cursor moves only forward and stays in the text; a raised flag stays raised; without an error at least one character is consumed |
| Grammar.ExpressionLoop | miniLab.c:29-34 | The additive loop moves the cursor only forward and keeps a raised flag |
| Grammar.ExpressionStep | miniLab.c:30-33 | A turn consumes at least its operator and keeps a raised flag |
| Grammar.Term | miniLab.c:40-51 | As `Expression`, for `parse_term` |
| Grammar.TermLoop | miniLab.c:43-48 | As `ExpressionLoop`, for the multiplicative loop |
| Grammar.TermStep | miniLab.c:44-47 | As `ExpressionStep`, for a multiplicative turn |
| Grammar.Factor | miniLab.c:54-92 | As `Expression`, for `parse_factor` |
| Grammar.Group | miniLab.c:57-66 | As `Expression`, for the parenthesised branch after its `(` |
| Grammar.Call | miniLab.c:68-91 | As `Expression`, for a call after its name and `(`, including the fall-through to `parse_number` |
| Grammar.Calculation | miniLab.c:19-23 | The cursor ends inside the text; without an error at least one character was read |
| Strtod.DigitRun | miniLab.c:99 | A digit run stays inside the text and is maximal: it ends at the end or before a non-digit |
| Strtod.ScaleUp | miniLab.c:99 | A non-negative exponent multiplies the mantissa by that power of ten |
| Strtod.ScaleDown | miniLab.c:99 | A negative exponent divides the mantissa by that power of ten |
| Strtod.ExponentAt | miniLab.c:99 | A non-empty exponent part starts with `e` or `E`, spans at least two characters, stays inside the text and is not followed by a digit; an empty one has power zero |
| Strtod.MantissaAt | miniLab.c:99 | The mantissa stays inside the text, is empty exactly when it has no digits, and is never followed by a digit |
| Strtod.Convert | miniLab.c:99 | The end never moves back. When nothing is converted the end stays put and the value is zero. The converted text is never followed by a digit |
| Strtod.ConvertSigned | miniLab.c:99 | One leading sign applies to the unsigned conversion after it: `-` negates the value, `+` keeps it, the end is the same; with nothing to convert the sign is not consumed |
| Strtod.ConvertTwoSigns | miniLab.c:99 | A second sign right after the first makes the conversion fail |
| Strtod.ConvertsIffSubject | miniLab.c:99-104 | `strtod` consumes characters exactly when a subject sequence is present, which is the test `parse_number` makes |
| Strtod.DecimalValue | miniLab.c:99 | Wherever the decimal text of `n` appears, its digits are worth `n` |
| Strtod.ConvertDecimal | miniLab.c:99 | Converting the decimal text of `n`, followed by anything that does not continue a literal, gives `n` and ends right after the text |
| Literals.ConvertLiteral | miniLab.c:99 | For every well-formed literal written at `p` and not continued by a digit, a point after a bare integer, or an exponent part after a literal without one, `strtod` gives the literal's value (sign, whole and fraction digits, times ten to the signed exponent) and ends right after its text |
| Literals.ScannedLiteral | miniLab.c:99-101 | Wherever a subject sequence is present, the text `strtod` reads there is a well-formed literal that nothing continues |
| Literals.ConvertScanned | miniLab.c:99-101 | Wherever a subject sequence is present, `strtod` gives the value of that literal and ends right after its text |
| Literals.TakenUnique | miniLab.c:99 | Two literals that both start at `p` and are not continued have the same value and the same length, so the literal read is the longest one |
| Literals.NumberOfLiteral | miniLab.c:95-107 | `parse_number` on a literal after spaces returns its value, leaves the cursor right after it and leaves the flag as it was |
| Literals.NumberOfScanned | miniLab.c:95-107 | `parse_number` on any subject after spaces returns the value of the literal `strtod` reads there and leaves the cursor right after it |
| Literals.MantissaOfLiteral | miniLab.c:99 | The digits and optional point of a literal are read as its mantissa: its end, its digit count and the exact value of whole plus fraction |
| Literals.ExponentOfPower | miniLab.c:99 | The exponent part of a literal is read up to its end with its signed value; a literal without one is followed by none |
| Literals.SignAtWritten | miniLab.c:99 | The sign `strtod` accepts is the one written at the start, and only `-` negates |
| Literals.PowerAtWritten | miniLab.c:99 | After the digits, a complete exponent part is taken and not continued by a digit; without a complete one, none starts there |
| Properties.SkippedAreSpaces | miniLab.c:111-115 | Every character `skip_whitespace` steps over is a space |
| Properties.SkipSpacesIdempotent | miniLab.c:111-115 | Skipping spaces twice moves the cursor no further than skipping once |
| Properties.ExpressionFlag | miniLab.c:26-37 | Entering with the flag raised gives the value and cursor of entering with it clear, with the flag raised: the flag never steers the parse |
| Properties.ExpressionLoopFlag | miniLab.c:29-34 | The same for the additive loop |
| Properties.TermFlag | miniLab.c:40-51 | The same for `parse_term` |
| Properties.TermLoopFlag | miniLab.c:43-48 | The same for the multiplicative loop |
| Properties.FactorFlag | miniLab.c:54-92 | The same for `parse_factor` |
| Properties.GroupFlag | miniLab.c:57-66 | The same for `parse_factor` when it opens a group |
| Properties.GroupInnerFlag | miniLab.c:58-65 | The same for a group after its `(` |
| Properties.CallFlag | miniLab.c:68-89 | The same for `parse_factor` when it recognises a call |
| Properties.CallArgFlag | miniLab.c:69-91 | The same for a call after its name and `(` |
| Properties.LiteralFlag | miniLab.c:91 | The same for `parse_factor` when it falls to `parse_number` |
| Properties.NumberFlag | miniLab.c:95-108 | The same for `parse_number` |
| Properties.FactorIsGroup | miniLab.c:55-59 | After the spaces, a `(` makes the factor a group that starts after `(` |
| Properties.FactorIsCall | miniLab.c:68-70 | A recognised name with `(` that is not a group makes the factor that function's call, starting four characters later |
| Properties.FactorGroup | miniLab.c:57-66 | A group is worth its inner expression whether or not `)` closes it. Only a missing `)` raises the flag, and only `)` is consumed after it |
| Properties.FactorCall | miniLab.c:68-91 | Given the exact name and `(`: with `)` after the argument, the function of the argument in radians; without it, the number read where the argument ended, with only the argument's flag |
| Properties.FactorNumber | miniLab.c:54-91 | Text that is neither a `(` nor an exact call is read by `parse_number` |
| Precedence.OperationApplies | miniLab.c:118-128 | `evaluate_operation` on an operator's character is that operator's arithmetic, failing only on division by zero |
| Precedence.TermLoopOver | miniLab.c:43-48 | One multiplicative turn over a product node: the right operand is read as a factor, and the loop goes on with the node's value and flag |
| Precedence.ExpressionLoopOver | miniLab.c:29-34 | One additive turn over a sum node: the right operand is read as a term, and the loop goes on with the node's value and flag |
| Precedence.TermOfFactor | miniLab.c:41-43 | A factor that ends at a boundary hands its value straight to the multiplicative loop |
| Precedence.ExpressionOfTerm | miniLab.c:27-29 | A term that ends at a boundary hands its value straight to the additive loop |
| Precedence.FactorOfGroup | miniLab.c:57-66 | A `(`, then an expression that ends on `)`, is a factor worth the expression that ends after the `)` |
| Precedence.FactorShown | miniLab.c:54-108 | A tree printed as a factor is parsed by `parse_factor` into its value and its division-by-zero flag, ending right after it |
| Precedence.FactorLiteral | miniLab.c:91-107 | The same for a literal |
| Precedence.FactorParenthesised | miniLab.c:57-66 | The same for a parenthesised tree |
| Precedence.TermShown | miniLab.c:40-51 | A tree printed as a term is parsed by `parse_term` into its value and flag, and the multiplicative loop continues right after it |
| Precedence.TermProduct | miniLab.c:43-48 | The same for a product: left operand as a term, right operand as a factor, left to right |
| Precedence.TermFactor | miniLab.c:41 | The same for a tree that is a single factor |
| Precedence.ExpressionShown | miniLab.c:26-37 | A tree printed as an expression is parsed by `evaluate_expression` into its value and flag, and the additive loop continues right after it |
| Precedence.ExpressionSum | miniLab.c:29-34 | The same for a sum: left operand as an expression, right operand as a term, left to right |
| Precedence.ExpressionTerm | miniLab.c:27 | The same for a tree that is a single term |
| Precedence.CalculationOfShown | miniLab.c:19-133 | For every tree, `calculate` on its text plus any trailer that does not continue it returns the tree's value. It flags an error exactly when the tree divides by zero, and reads exactly the tree's text |
| Examples.SubtractionGroupsLeft | miniLab.c:29-34 | `10-2-3` is 5 |
| Examples.ProductBindsTighter | miniLab.c:26-51 | `2+3*4` is 14 |
| Examples.ParenthesesFirst | miniLab.c:57-66 | `2*(3+4)` is 14 |
| Examples.SpacesAroundOperator | miniLab.c:28 | `2 + 3` and `2+3` are both 5 without an error |
| Examples.TrailingTextIgnored | miniLab.c:26-37 | `2 3` is 2, and the cursor stops on the `3` |
| Examples.NoSpacesBetweenTurns | miniLab.c:42-48 | `2*3 *4` is 6: the loop stops at the space before the second `*` |
| Examples.AdditiveLoopStopsAtSpace | miniLab.c:28-34 | `1 + 2*3 + 4` is 7: both loops stop at the space after `3` |
| Examples.UnclosedCallFallsThrough | miniLab.c:68-91 | `sin(90 5` is 5 with no error |
| Examples.ClosedCall | miniLab.c:68-74 | `sin(90)` is `sin` of 90 degrees in radians, with no error |
| Examples.UnclosedGroup | miniLab.c:57-66 | `(2+3` raises the flag and still returns 5 |
| Examples.NotANumber | miniLab.c:101-104 | `abc` raises the flag and returns 0, without moving the cursor |
| Examples.CapitalisedName | miniLab.c:68 | `Sin(0)` is no call; it fails as a number |
| Examples.DivisionByZero | miniLab.c:123-127 | `10/0` raises the flag and returns 0 |
| Examples.NumberAt | miniLab.c:95-107 | `parse_number` on one or two digits after spaces returns their value and stops after them |
| Examples.LiteralAt | miniLab.c:54-91 | `parse_factor` on one or two digits after spaces returns their value and stops after them |
| Examples.Alone | miniLab.c:26-51 | A factor followed, after spaces, by no operator is the whole term and the whole expression |

## Left out

- `main` is not part of this model. That covers reading lines, the `exit` command and printing results.
- Floating point is not modelled. All values are exact reals, so double rounding, overflow, underflow, `ERANGE`, infinities and negative zero are absent.
- Strtod.Convert: models only the decimal subject sequence, with its exact value. Hexadecimal forms, `inf`, `infinity` and `nan` are not modelled; the C library accepts them, so `calculate("nan")` does not fail in C. The locale's radix character is taken to be `.`.
- `isspace` is modelled for the C locale only (`Grammar.IsSpace`, `Grammar.SpacesOfCLocale`).
- `sin`, `cos` and `tan` are the parameter `libm`; their values are not modelled.
- `M_PI` is the exact decimal constant `Grammar.PI`, not the double nearest to π.
- The text is a sequence with no embedded NUL. Reading past its end sees the terminator `'\0'` (`Grammar.Peek`).
- The three `strncmp` branches of `parse_factor` have identical bodies. The model selects one shared body by the recognised function (`Grammar.TrigCall`, `MiniLab.Cursor.ParseCall`).
- The loop bodies of `evaluate_expression` and `parse_term` are the methods `AdditiveStep` and `MultiplicativeStep`. The group and call branches of `parse_factor` are the methods `ParseGroup` and `ParseCall`. This changes only how the code is divided into methods, not what it does.
- Precedence.CalculationOfShown: covers trees of natural-number literals printed without spaces, with the fewest parentheses, and followed by a trailer that does not start with a space, a digit, `.`, `e`, `E` or an operator. Inputs with signs, fractions, exponents, calls or spaces are covered by the `Grammar` functions and the examples, not by this theorem.
- The invalid-operator case of `evaluate_operation` is modelled (`Grammar.Operation`), but the parser never reaches it: it calls the routine only on `+ - * /`.
