/** The copy-constraint grammar of src/parsers.hpp: two variables, the
    second expected once the first has been read.

    Copy variables differ from gate variables in two ways: the rotation is
    read by `uint_`, so it is never negative, and the suffix table is
    `_witness`, `_public_input`, `_constant`, all of which leave the
    variable's relative flag false.  Literals match prefixes, so a gate-style
    `_witness_relative` is read as `_witness` followed by the unread text
    `_relative`.
 */
module CopyConstraint {
  import opened ParseResult
  import opened Lexeme
  import opened Variables

  const COPY_SUFFIXES: seq<Suffix> := [
    Suffix("_witness", Variable(0, 0, false, Witness)),
    Suffix("_public_input", Variable(0, 0, false, PublicInput)),
    Suffix("_constant", Variable(0, 0, false, Constant))]

  /** The name under which the second variable is expected. */
  const VARIABLE: string := "variable"

  /** What a copy variable can be: a 32-bit index, an unsigned 32-bit
      rotation, never relative, never a selector. */
  predicate CopyVariableOk(v: Variable)
  {
    v.index < UINT32_LIMIT && 0 <= v.rotation < UINT32_LIMIT && !v.relative && v.column != Selector
  }

  function ParseCopyVariable(s: string): (r: Parsed<Variable>)
    ensures r.Ok? ==> SuffixOf(r.rest, s) && |r.rest| < |s| && CopyVariableOk(r.value)
    ensures r.IsHardFailure() ==> SuffixOf(r.failure.at, s)
    ensures r.IsSoftFailure() <==> !(VAR <= SkipSpace(s))
  {
    var r := ParseVariable(s, UnsignedRotation, COPY_SUFFIXES);
    if r.Ok? then
      var i :| 0 <= i < |COPY_SUFFIXES| && COPY_SUFFIXES[i].typed.column == r.value.column && COPY_SUFFIXES[i].typed.relative == r.value.relative;
      assert i == 0 || i == 1 || i == 2;
      r
    else r
  }

  /** `plonk_copy_constraint(var1, var2)` */
  datatype Copy = Copy(first: Variable, second: Variable)

  /** `start = (variable > variable)` */
  function ParseCopyConstraint(s: string): (r: Parsed<Copy>)
    ensures r.Ok? ==> SuffixOf(r.rest, s) && CopyVariableOk(r.value.first) && CopyVariableOk(r.value.second)
    ensures r.IsHardFailure() ==> SuffixOf(r.failure.at, s)
    ensures r.IsSoftFailure() <==> !(VAR <= SkipSpace(s))
  {
    var a :- ParseCopyVariable(s);
    var b := Expect(ParseCopyVariable(a.rest), VARIABLE, a.rest);
    if b.Err? then FailureWithin(b.failure, a.rest, s); b.PropagateFailure()
    else SuffixOfTransitive(b.rest, a.rest, s); Ok(Copy(a.value, b.value), b.rest)
  }

  // ---------------------------------------------------------------------
  // Printing and reading back

  function CopySuffixWord(v: Variable): string
  {
    match v.column
    case Witness => "_witness"
    case PublicInput => "_public_input"
    case _ => "_constant"
  }

  function ShowCopyVariable(v: Variable): string
  {
    ShowVariable(v, UnsignedRotation, CopySuffixWord(v))
  }

  /** The two variables, separated by one blank. */
  function ShowCopy(c: Copy): string
  {
    ShowCopyVariable(c.first) + " " + ShowCopyVariable(c.second)
  }

  lemma CopySuffixRoundTrip(v: Variable, t: string)
    requires CopyVariableOk(v)
    ensures ParseSuffix(CopySuffixWord(v) + t, COPY_SUFFIXES) == Ok(Variable(0, 0, false, v.column), t)
  {
    var w := CopySuffixWord(v);
    var s := w + t;
    var rest1 := COPY_SUFFIXES[1..];
    var rest2 := rest1[1..];
    LitMatches(w, t);
    if v.column == Witness {
      SuffixHit(s, COPY_SUFFIXES, t);
    } else if v.column == PublicInput {
      assert s[1] == 'p' && COPY_SUFFIXES[0].word[1] == 'w';
      LitMismatch(s, COPY_SUFFIXES[0].word, 1);
      SuffixMiss(s, COPY_SUFFIXES);
      SuffixHit(s, rest1, t);
    } else {
      assert s[1] == 'c' && COPY_SUFFIXES[0].word[1] == 'w' && rest1[0].word[1] == 'p';
      LitMismatch(s, COPY_SUFFIXES[0].word, 1);
      SuffixMiss(s, COPY_SUFFIXES);
      LitMismatch(s, rest1[0].word, 1);
      SuffixMiss(s, rest1);
      SuffixHit(s, rest2, t);
    }
  }

  /** Every well-formed copy variable reads back from its text. */
  lemma CopyVariableRoundTrip(v: Variable, t: string)
    requires CopyVariableOk(v)
    ensures ParseCopyVariable(ShowCopyVariable(v) + t) == Ok(v, t)
  {
    var word := CopySuffixWord(v);
    assert word[0] == '_';
    CopySuffixRoundTrip(v, t);
    VariableRoundTrip(v, UnsignedRotation, COPY_SUFFIXES, word, Variable(0, 0, false, v.column), t);
  }

  lemma CopyVariableAfterBlank(s: string)
    ensures ParseCopyVariable(" " + s) == ParseCopyVariable(s)
  {
    SkipSpaceBlank(s);
  }

  lemma CopyOk(s: string, a: Variable, x: string, b: Variable, t: string)
    requires ParseCopyVariable(s) == Ok(a, x) && ParseCopyVariable(x) == Ok(b, t)
    ensures ParseCopyConstraint(s) == Ok(Copy(a, b), t)
  {
  }

  lemma CopyErr(s: string, a: Variable, x: string)
    requires ParseCopyVariable(s) == Ok(a, x) && ParseCopyVariable(x).IsSoftFailure()
    ensures ParseCopyConstraint(s) == Err(Hard(VARIABLE, x))
  {
  }

  /** Every copy constraint between well-formed copy variables reads back
      from its text, and nothing after it is consumed. */
  lemma CopyRoundTrip(c: Copy, t: string)
    requires CopyVariableOk(c.first) && CopyVariableOk(c.second)
    ensures ParseCopyConstraint(ShowCopy(c) + t) == Ok(c, t)
  {
    var y := ShowCopyVariable(c.second) + t;
    var x := " " + y;
    assert ShowCopy(c) + t == ShowCopyVariable(c.first) + x;
    CopyVariableRoundTrip(c.first, x);
    CopyVariableAfterBlank(y);
    CopyVariableRoundTrip(c.second, t);
    CopyOk(ShowCopy(c) + t, c.first, x, c.second, t);
  }

  /** A whole line holding a printed copy constraint is accepted. */
  lemma CopyLine(c: Copy)
    requires CopyVariableOk(c.first) && CopyVariableOk(c.second)
    ensures WholeLine(ParseCopyConstraint(ShowCopy(c))) == Ok(c, [])
  {
    CopyRoundTrip(c, []);
    assert ShowCopy(c) + [] == ShowCopy(c);
  }

  // ---------------------------------------------------------------------
  // Rejections

  /** One variable and then no `var_` is an expectation failure naming the
      second variable, at the text after the first. */
  lemma CopyMissingSecond(a: Variable, t: string)
    requires CopyVariableOk(a) && !(VAR <= SkipSpace(t))
    ensures ParseCopyConstraint(ShowCopyVariable(a) + t) == Err(Hard(VARIABLE, t))
  {
    CopyVariableRoundTrip(a, t);
    CopyErr(ShowCopyVariable(a) + t, a, t);
  }

  /** A gate-style `_witness_relative` suffix is read as `_witness`, so the
      copy variable is not relative and `_relative` is left unread. */
  lemma CopyReadsRelativeAsPlain(v: Variable, t: string)
    requires v.index < UINT32_LIMIT && 0 <= v.rotation < UINT32_LIMIT
    requires v.column == Witness && v.relative
    ensures ParseCopyVariable(ShowVariable(v, UnsignedRotation, "_witness_relative") + t)
         == Ok(v.(relative := false), "_relative" + t)
  {
    var w := v.(relative := false);
    assert ShowVariable(v, UnsignedRotation, "_witness_relative") + t
        == ShowCopyVariable(w) + ("_relative" + t);
    CopyVariableRoundTrip(w, "_relative" + t);
  }

  /** Hence a copy constraint between gate-style witness variables is
      rejected once the first one is read. */
  lemma CopyRejectsRelative(v: Variable, t: string)
    requires v.index < UINT32_LIMIT && 0 <= v.rotation < UINT32_LIMIT
    requires v.column == Witness && v.relative
    ensures ParseCopyConstraint(ShowVariable(v, UnsignedRotation, "_witness_relative") + t)
         == Err(Hard(VARIABLE, "_relative" + t))
  {
    var x := "_relative" + t;
    CopyReadsRelativeAsPlain(v, t);
    SkipSpaceNoop(x);
    CopyErr(ShowVariable(v, UnsignedRotation, "_witness_relative") + t, v.(relative := false), x);
  }

  /** A negative rotation is an expectation failure: `uint_` reads no sign. */
  lemma CopyRejectsNegativeRotation(v: Variable, word: string, t: string)
    requires v.index < UINT32_LIMIT && INT32_MIN <= v.rotation < 0
    requires word != [] && !IsDigit(word[0], 10)
    ensures ParseCopyVariable(ShowVariable(v, SignedRotation, word) + t)
         == Err(Hard(UNSIGNED_INTEGER, SignedDecimal(v.rotation) + (word + t)))
  {
    var x4 := word + t;
    var x3 := ShowRotation(v.rotation, SignedRotation) + x4;
    var x2 := UNDERSCORE + x3;
    var x1 := Decimal(v.index) + x2;
    ShowVariableSplit(v, SignedRotation, word, t);
    assert x4 == [] || !IsDigit(x4[0], 10);
    VariableHead(v, SignedRotation, x4);
    Unsigned32Negative(v.rotation, x4);
    SignedDecimalShape(v.rotation, x4);
    VariableBadRotation(VAR + x1, UnsignedRotation, COPY_SUFFIXES, x1, v.index as uint32, x2, x3);
  }
}
