# Circuit-description grammars of the excalibur visualizer

The visualizer reads a PLONK circuit and its assignment table from text.
`src/parsers.hpp` holds the six Boost.Spirit Qi grammars that do the
reading:

- the table-size header `witnesses_size: W public_inputs_size: P constants_size: C selectors_size: S max_size: M`;
- a table row made of `W + P + C + S` hexadecimal cells in four regions split by `|`;
- the circuit-size header;
- a gate header;
- a gate-constraint expression over variables and signed constants with `+`, `-`, `*`, `^` and parentheses;
- a copy constraint made of two variables.

This project models each grammar as a Dafny parser function over `string`.
Each parser returns `Ok(value, rest)` or a failure, which is one of:

- `Soft`: the rule did not match, so an enclosing alternative may try the next branch;
- `Hard(expected, at)`: an expectation failure raised by Qi's `>` operator.

Every primitive first skips ASCII whitespace, as Qi's phrase-level skipper
does. `modulus_bits` is a parameter. The model proves the following:

- each grammar reads back whatever its canonical printer emits and yields the printed value (round trips);
- expectation failures arise at the points the grammar's `>` operators fix. A failed primitive (a literal, `uint_`, `int_`, or the suffix alternative) has already skipped blanks on the sequence's own position, so its failure is reported after those blanks. A failed rule (a `repeat`, a nested rule) skips on a copy of the position, so its failure is reported before them;
- a row always has the promised number of cells in region order and consumes three `|` separators;
- for expressions, `+`, `-` and `*` fold to the left, precedence comes from the rule nesting, and `^` applies at most once;
- gate and copy variables have the column and relative flag their suffix table assigns.

Modules:

- `ParseResult`: the result type, suffix facts and `Expect`, which models `a > b`.
- `Lexeme`: the skipper, literals, `uint_`, `int_`, the bounded `uint_parser`/`int_parser`, and their printers.
- `Headers`: the three header grammars.
- `TableRow`: the row grammar.
- `Variables`: the shared `var_` grammar and `var_constructor_impl`.
- `GateConstraint`: the gate grammar.
- `GateProofs`: its printer and theorems.
- `CopyConstraint`: the copy grammar.

## Model

| member | source | states |
|---|---|---|
| ParseResult.Expect | src/parsers.hpp:126-130 | `a > b` passes a success and an expectation failure of b through unchanged, and turns a soft failure of b into an expectation failure naming b at the given position |
| Lexeme.SkipSpace | src/parsers.hpp:126 | the skipper leaves a suffix of the text that starts with no ASCII whitespace |
| Lexeme.SkipSpaceExact | src/parsers.hpp:126 | the skipper drops exactly the leading run of ASCII whitespace (blanks, tabs, line breaks, any number of them): what it drops is all whitespace and what it keeps is the rest of the text, not starting with whitespace |
| Lexeme.Lit | src/parsers.hpp:126 | `lit(w)` succeeds exactly when w follows the blanks; then the text after the blanks is w followed by what is left, so it consumes the blanks and w and nothing more; otherwise it fails softly |
| Lexeme.Unsigned32 | src/parsers.hpp:126 | `uint_` succeeds only on a digit after the blanks, consumes input, stops at a non-digit, and fails only softly |
| Lexeme.Signed32 | src/parsers.hpp:241 | `int_` consumes input, stops at a non-digit, and fails only softly |
| Lexeme.BoundedUnsigned | src/parsers.hpp:153-154 | `uint_parser<T, radix, 1, D>` yields a value below radix^D, consumes input, and fails only softly |
| Lexeme.BoundedSigned | src/parsers.hpp:239-240 | `int_parser<T, radix, 1, D>` yields a value of magnitude below radix^D, consumes input, and fails only softly |
| Lexeme.Unsigned32Reads | src/parsers.hpp:126 | a successful `uint_` consumes, after the blanks, a nonempty run of decimal digits and yields the value of that run |
| Lexeme.Unsigned32LeadingZeros | src/parsers.hpp:126 | leading zeros do not change what `uint_` reads: any number of `0`s before the decimal text of n still yields n |
| Lexeme.Signed32Reads | src/parsers.hpp:241 | a successful `int_` consumes, after the blanks and an optional sign, a nonempty run of decimal digits and yields its value, negated exactly after a `-` |
| Lexeme.BoundedUnsignedReads | src/parsers.hpp:153-154 | a successful bounded unsigned parser consumes, after the blanks, one to D digits of its radix and yields their value |
| Lexeme.BoundedSignedReads | src/parsers.hpp:239-240 | a successful bounded signed parser consumes, after the blanks and an optional sign, one to D digits and yields their value, negated exactly after a `-` |
| Lexeme.Unsigned32Overflow | src/parsers.hpp:126 | the full digit run of a number of 2^32 or more is no `uint_`: it fails softly, neither truncated nor wrapped |
| Lexeme.Signed32Overflow | src/parsers.hpp:241 | the signed text of a number outside the 32-bit signed range is no `int_`: it fails softly |
| Lexeme.Unsigned32RoundTrip | src/parsers.hpp:126-130 | `uint_` reads back the decimal text of any 32-bit value and stops at the first non-digit |
| Lexeme.Unsigned32NoDigit | src/parsers.hpp:126-130 | `uint_` fails softly when no digit follows the blanks |
| Lexeme.Unsigned32Negative | src/parsers.hpp:304 | `uint_` reads no sign, so the text of a negative number is no unsigned number |
| Lexeme.Signed32RoundTrip | src/parsers.hpp:241 | `int_` reads back the signed decimal text of any 32-bit signed value |
| Lexeme.BoundedUnsignedRoundTrip | src/parsers.hpp:153-154 | the bounded hex parser reads back any value printed in at most its maximum digit count |
| Lexeme.BoundedSignedRoundTrip | src/parsers.hpp:239-240 | the bounded signed constant parser reads back any value with at most its maximum digit count |
| Headers.KeyValue | src/parsers.hpp:126 | `lit(key) > uint_` fails softly exactly when the first key is missing after the blanks; otherwise a failure is an expectation failure inside the text |
| Headers.ParseKeyed | src/parsers.hpp:126-130 | the keyed sequence yields one number per key; after the first key nothing fails softly |
| Headers.KeyedPrefix | src/parsers.hpp:126-130 | reading the first i pairs of the canonical text hands the rest of the text to the remaining keys |
| Headers.KeyedRoundTrip | src/parsers.hpp:126-130 | the text `k1: v1 k2: v2 ...` yields exactly `[v1, v2, ...]` in key order and leaves what follows unread |
| Headers.KeyedSplit | src/parsers.hpp:126-130 | whatever text the first keys read, the remaining keys continue from where they stopped, and the values are concatenated in key order |
| Headers.KeyedMissingKey | src/parsers.hpp:126-130 | after any text the first n keys read, text that lacks the next key fails, naming that key after the skipped blanks |
| Headers.KeyedMissingValue | src/parsers.hpp:126-130 | after any text the first n keys read, the next key not followed by a 32-bit number fails, naming the unsigned integer after the blanks that follow the key |
| Headers.ParseTableSizes | src/parsers.hpp:126-130 | fails softly exactly when the text does not start with `witnesses_size:` |
| Headers.TableSizesRoundTrip | src/parsers.hpp:44-51 | the printed table-size header reads back as the same record, fields in declaration order |
| Headers.TableSizesMissingMaxSize | src/parsers.hpp:130 | a table-size header that stops after `selectors_size:` and its number fails, naming `max_size:` after the skipped blanks |
| Headers.TableSizesRejectsOverflow | src/parsers.hpp:126 | a `witnesses_size:` value of 2^32 or more fails, naming the unsigned integer at the digits |
| Headers.ParseCircuitSizes | src/parsers.hpp:180-182 | fails softly exactly when the text does not start with `gates_size:` |
| Headers.CircuitSizesRoundTrip | src/parsers.hpp:59-64 | the printed circuit-size header reads back as the same record |
| Headers.ParseGateHeader | src/parsers.hpp:202 | fails softly exactly when the text does not start with `selector:` |
| Headers.GateHeaderRoundTrip | src/parsers.hpp:71-75 | the printed gate header reads back as the same record |
| TableRow.HexCell | src/parsers.hpp:153-154 | a cell is below 16^D, where D is the digit bound (modulus_bits + 3) / 4, and it consumes input |
| TableRow.HexCellRoundTrip | src/parsers.hpp:153-154 | every value below 16^D reads back from its D-digit hex text |
| TableRow.HexCellNoRangeCheck | src/parsers.hpp:153-154 | the all-`f` cell 16^D - 1 is accepted, so a cell is not checked against the field modulus |
| TableRow.OverlongCellSplits | src/parsers.hpp:153-155 | a hex run longer than D digits is read as two cells, not rejected |
| TableRow.Repeat | src/parsers.hpp:155 | `repeat(n)[hex]` yields exactly n bounded cells, or fails softly |
| TableRow.RepeatRoundTrip | src/parsers.hpp:155 | n printed cells read back as the same n values |
| TableRow.RepeatFailsBeyond | src/parsers.hpp:155 | once k < n cells have been read up to text where no cell starts, `repeat(n)` fails |
| TableRow.RepeatTooFew | src/parsers.hpp:155 | fewer than n cells before a non-hex character is a failure |
| TableRow.BarThenCells | src/parsers.hpp:156 | a bar separator then `repeat(n)[hex]` yields n bounded cells, or fails with an expectation failure inside the text |
| TableRow.ParseRow | src/parsers.hpp:155-158 | a row yields exactly W + P + C + S bounded cells; it fails softly only when the witness region fails |
| TableRow.RowRoundTrip | src/parsers.hpp:155-158 | a printed row reads back as the concatenation of the four regions in region order, empty regions included |
| TableRow.RowMissingBar | src/parsers.hpp:155 | a row whose witness cells are not followed by the bar separator fails, naming the bar after the skipped blanks |
| TableRow.RowTooFewPublicInputs | src/parsers.hpp:156 | too few public-input cells after the first bar separator is an expectation failure |
| TableRow.RowTakesThreeBars | src/parsers.hpp:155-158 | a successful row consumes exactly three bar characters |
| TableRow.RowNeedsThreeBars | src/parsers.hpp:155-158 | text with fewer than three bar characters never parses as a row |
| Variables.Place | src/parsers.hpp:83-86 | `var_constructor_impl` sets index and rotation and keeps the typed variable's column and relative flag |
| Variables.ParseSuffix | src/parsers.hpp:242-244 | the suffix alternative yields the typed variable of a table entry whose word is a prefix of the text; it fails exactly when no word is |
| Variables.SuffixPart | src/parsers.hpp:241-244 | the expected suffix alternative yields the typed variable of one of the table's entries, or fails naming the column suffix after the skipped blanks |
| Variables.ParseRotation | src/parsers.hpp:241 | the rotation is a signed 32-bit value for gate variables and an unsigned 32-bit value for copy variables |
| Variables.ParseVariable | src/parsers.hpp:241-245 | index below 2^32, rotation in range, column and flag from the suffix table; only a missing `var_` fails softly |
| Variables.VariableRoundTrip | src/parsers.hpp:241-245 | a printed variable reads back with its index, rotation, column and flag |
| Variables.VariableBadSuffix | src/parsers.hpp:241-244 | after `var_`, index, `_` and rotation, text matching no suffix fails, naming the column suffix after the skipped blanks |
| Variables.VariableBadRotation | src/parsers.hpp:241 | after `var_`, index and `_`, a missing rotation fails, naming the rotation's integer type after the skipped blanks |
| Variables.VariableNoKeyword | src/parsers.hpp:241 | text that starts with a character other than `v` fails softly |
| Variables.VariableRejectsSuffix | src/parsers.hpp:241-244 | a printed variable with a suffix outside the table fails, naming the column suffix after the skipped blanks |
| GateConstraint.ParseGateVariable | src/parsers.hpp:241-245 | a gate variable is a witness with relative = true, or a public input or constant with relative = false; never a selector |
| GateConstraint.ParseConstant | src/parsers.hpp:239-240 | a constant's magnitude is below 10^D', where D' is the digit bound (modulus_bits + 2) / 3 |
| GateConstraint.ParseAtom | src/parsers.hpp:247 | an atom is a variable or a constant, with the variable tried first |
| GateConstraint.ParseFactor | src/parsers.hpp:255 | a factor stays within the grammar's values and consumes input |
| GateConstraint.ParseExponent | src/parsers.hpp:253-254 | an exponent stays within the grammar's values and consumes input |
| GateConstraint.ParseTerm | src/parsers.hpp:250 | a term consumes input and stays within the grammar's values |
| GateConstraint.TermTail | src/parsers.hpp:250 | the `*` loop never fails softly and keeps the accumulated value inside the grammar |
| GateConstraint.ExpressionTail | src/parsers.hpp:248-249 | the `+`/`-` loop never fails softly and keeps the accumulated value inside the grammar |
| GateConstraint.ParseExpression | src/parsers.hpp:248-249 | an expression consumes input and stays within the grammar's values |
| GateConstraint.ParseGateConstraintAsWritten | src/parsers.hpp:256 | the start rule as written produces no negation node |
| GateConstraint.ParseGateConstraint | src/parsers.hpp:256 | the start rule with unary minus negating produces only values of the grammar |
| GateProofs.GateVariableRoundTrip | src/parsers.hpp:241-245 | every well-formed gate variable reads back from its text |
| GateProofs.GateVariableRejectsSelector | src/parsers.hpp:242-244 | a `_selector` gate variable fails, naming the column suffix |
| GateProofs.SumLemma | src/parsers.hpp:248-249 | a printed sum reads as its left-folded tree, ready to continue the `+`/`-` loop |
| GateProofs.ProductLemma | src/parsers.hpp:250 | a printed product reads as its left-folded tree, ready to continue the `*` loop |
| GateProofs.PowerLemma | src/parsers.hpp:253-254 | `b^k` reads as the power node of b and k |
| GateProofs.FactorLemma | src/parsers.hpp:255 | a printed factor (variable, constant, parenthesised expression or negation) reads back |
| GateProofs.ParenLemma | src/parsers.hpp:255 | `(e)` reads as e |
| GateProofs.ExpressionRoundTrip | src/parsers.hpp:248-255 | under either minus rule, every expression of that rule's grammar reads back from its printed text through the `expression` rule, leaving unread a following text that cannot continue the sum |
| GateProofs.GateConstraintRoundTrip | src/parsers.hpp:248-256 | every expression of the grammar reads back from its printed text and leaves what follows unread |
| GateProofs.GateConstraintAsWrittenRoundTrip | src/parsers.hpp:248-256 | the same for the grammar as written, on negation-free expressions |
| GateProofs.GateConstraintLine | src/parsers.hpp:248-256 | under either minus rule, a line holding one printed expression is accepted whole |
| GateProofs.SubtractionFoldsLeft | src/parsers.hpp:248-249 | under either minus rule, `a-b-c` is `(a-b)-c` |
| GateProofs.ProductBindsTighter | src/parsers.hpp:248-250 | under either minus rule, `a+b*c` is `a+(b*c)` and `a*b+c` is `(a*b)+c` |
| GateProofs.CaretAtMostOnce | src/parsers.hpp:253-254 | after `b^j`, a second `^k` is left unread, so the line is rejected |
| GateProofs.MinusBeforeCaret | src/parsers.hpp:253-255 | `-v^k` is `(-v)^k`, and as written it is `v^k` |
| GateProofs.UnaryMinusDropped | src/parsers.hpp:255 | as written, `-(x)` reads as x |
| GateProofs.UnaryMinusNegates | src/parsers.hpp:255 | with the negating action, `-(x)` reads as the negation of x |
| GateProofs.SpacedMinusAsWritten | src/parsers.hpp:247-255 | as written, `-5` is the constant -5 and `- 5` is the constant 5 |
| GateProofs.SpacedMinusNegates | src/parsers.hpp:255 | with the negating action, `- 5` is the negation of 5 |
| GateProofs.DanglingSumOperator | src/parsers.hpp:249 | `+` or `-` followed by no term fails, naming the term |
| GateProofs.DanglingTimes | src/parsers.hpp:250 | `*` followed by no factor fails, naming the exponent rule |
| GateProofs.DanglingCaret | src/parsers.hpp:254 | `^` followed by no digit fails, naming the unsigned integer after the skipped blanks |
| GateProofs.DanglingOpenParen | src/parsers.hpp:255 | `(` followed by no expression fails, naming the expression |
| GateProofs.UnclosedParen | src/parsers.hpp:255 | `(e` not followed by `)` fails, naming `)` after the skipped blanks |
| CopyConstraint.ParseCopyVariable | src/parsers.hpp:304-308 | a copy variable has a 32-bit index and a non-negative 32-bit row, is never relative and never a selector |
| CopyConstraint.ParseCopyConstraint | src/parsers.hpp:309 | two valid copy variables; once the first is read, a missing second fails hard |
| CopyConstraint.CopyVariableRoundTrip | src/parsers.hpp:304-308 | every well-formed copy variable reads back from its text |
| CopyConstraint.CopyRoundTrip | src/parsers.hpp:113-114 | a printed copy constraint reads back with its two variables in textual order |
| CopyConstraint.CopyLine | src/parsers.hpp:309 | a line holding one printed copy constraint is accepted whole |
| CopyConstraint.CopyMissingSecond | src/parsers.hpp:309 | one variable not followed by `var_` fails, naming the second variable |
| CopyConstraint.CopyReadsRelativeAsPlain | src/parsers.hpp:305 | `_witness_relative` is read as `_witness`, leaving `_relative` unread |
| CopyConstraint.CopyRejectsRelative | src/parsers.hpp:305-309 | a copy constraint starting with a gate-style witness variable fails hard at `_relative` |
| CopyConstraint.CopyRejectsNegativeRotation | src/parsers.hpp:304 | a negative row number fails, naming the unsigned integer |

## Left out

- The `on_error` handlers (src/parsers.hpp:132-136 and the same code in each grammar) print to standard error. That output is I/O; the model keeps only the failure result.
- Expectation failures carry a short name of what was expected (`"term"`, `"unsigned integer"`, the literal). Qi's own `what()` wording is not modelled.
- The crypto3 types are library code not shown here.
  - `plonk_variable`, `math::expression`, `pow` and the field element type are replaced by the local `Variable` and `Expr` datatypes.
  - `pow_constructor_impl` becomes the `Power` node.
  - Constants and cells are unbounded integers with the digit bounds Qi applies.
  - No field arithmetic is modelled.
- Variables.Variable: the index and rotation are unbounded integers. The widths of `plonk_variable`'s fields are not shown, so no narrowing of a copy row number above 2^31 is modelled.
- Lexeme.SkipSpace: the function's own contract says only that what it keeps is a suffix with no leading whitespace. That it drops exactly the leading whitespace is the contract of `Lexeme.SkipSpaceExact`. The skipper is called in every grammar, and the stronger clause on the function itself makes the proofs of its callers too costly.
- Lexeme.Unsigned32, Lexeme.Signed32, Lexeme.BoundedUnsigned, Lexeme.BoundedSigned: the functions' own contracts bound the value and its digits but do not pin it. What each reads and yields is the contract of its `…Reads` lemma, for the same reason.
- Checking that a whole line was consumed, and prepending the row-index column, are done by callers not shown. `Lexeme.WholeLine` states the first for the round-trip lemmas.
- src/table.hpp (window and dialog setup) and src/main.cpp (start-up) are not part of this model.
- A constraint index and an evaluator are not in the source and are not modelled.
- Printers:
  - Each printer emits one canonical spacing: blanks between header items and row cells, none inside expressions.
  - The round trips are stated for that text.
  - Tolerance of other spacing follows from the skipper, but is proved only for the single-blank cases the printers use.
- The source and the documented behaviour disagree in four places. The model follows the source in each.
  - Hex cells:
    - The documentation says a cell has exactly `ceil(modulus_bits/4)` digits.
    - The code accepts 1 to that many digits (`TableRow.HexCell`).
    - A longer run splits into two cells (`TableRow.OverlongCellSplits`).
  - The documentation says `^` binds tighter than unary minus. In the code, unary minus is an alternative of `factor`, so `-v^k` is `(-v)^k` (`GateProofs.MinusBeforeCaret`).
  - Relative flags:
    - The documentation calls `_constant_relative` variables row-relative.
    - The code sets relative = true only for `_witness_relative` (src/parsers.hpp:242-244).
  - Rotation range: the documentation limits gate rotations to -1, 0 and +1, and the code accepts any 32-bit signed rotation (`Variables.ParseRotation`).

## Findings

| source | as written | input that shows it | evidently intended | confidence | as-written member | corrected member |
|---|---|---|---|---|---|---|
| src/parsers.hpp:255 | `lit("-") >> factor` has no semantic action, so the alternative passes the inner factor's value through and the minus is lost | `-(var_0_0_witness_relative)` reads as `var_0_0_witness_relative`; `- 5` reads as `5` | the alternative negates its operand | not executed | GateProofs.UnaryMinusDropped | GateProofs.UnaryMinusNegates |

Notes on the finding:

- The grammar as written is `GateConstraint.ParseGateConstraintAsWritten`.
  - `GateProofs.UnaryMinusDropped` shows that `-(x)` reads as x.
  - `GateProofs.SpacedMinusAsWritten` shows that `-5` is -5 but `- 5` is 5.
- The corrected grammar is `GateConstraint.ParseGateConstraint`, which wraps the operand in `Neg`.
  - `GateProofs.UnaryMinusNegates` and `GateProofs.SpacedMinusNegates` prove that the same inputs read as negations.
  - `GateProofs.GateConstraintRoundTrip` proves that every expression, negations included, reads back from its printed text.
