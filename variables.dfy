/** Variable references, shared by the gate-constraint and copy-constraint
    grammars of src/parsers.hpp.

    A reference is `var_` index `_` rotation followed by one column suffix.
    The suffix alternative builds a typed variable with index and rotation 0
    and the column and relative flag the suffix stands for; the semantic
    action `var_constructor` then overwrites the index and rotation of that
    copy with the two numbers read.  The two grammars differ in how they read
    the rotation and in their suffix tables.
 */
module Variables {
  import opened ParseResult
  import opened Lexeme

  datatype Column = Witness | PublicInput | Constant | Selector

  datatype Variable = Variable(index: nat, rotation: int, relative: bool, column: Column)

  /** `var_constructor_impl`: the typed variable with its index and rotation
      replaced; its column and relative flag are kept. */
  function Place(typed: Variable, index: nat, rotation: int): (v: Variable)
    ensures v.index == index && v.rotation == rotation
    ensures v.relative == typed.relative && v.column == typed.column
  {
    typed.(index := index, rotation := rotation)
  }

  /** One alternative of a suffix table: the literal and the typed variable
      its semantic action assigns. */
  datatype Suffix = Suffix(word: string, typed: Variable)

  datatype RotationRule = SignedRotation | UnsignedRotation

  const VAR: string := "var_"
  const UNDERSCORE: string := "_"
  const COLUMN_SUFFIX: string := "column suffix"

  /** The alternative `lit(w1)[...] | lit(w2)[...] | ...`: the first
      literal that matches decides the typed variable. */
  function ParseSuffix(s: string, suffixes: seq<Suffix>): (r: Parsed<Variable>)
    ensures r.Ok? ==> SuffixOf(r.rest, s)
    ensures r.Ok? ==> exists i :: 0 <= i < |suffixes| && suffixes[i].typed == r.value && Lit(s, suffixes[i].word) == Ok((), r.rest)
    ensures r.Err? ==> r.failure == Soft
    ensures r.Err? <==> forall i :: 0 <= i < |suffixes| ==> !(suffixes[i].word <= SkipSpace(s))
    decreases |suffixes|
  {
    if suffixes == [] then Err(Soft)
    else
      var l := Lit(s, suffixes[0].word);
      if l.Ok? then Ok(suffixes[0].typed, l.rest)
      else
        var r := ParseSuffix(s, suffixes[1..]);
        assert forall i :: 1 <= i < |suffixes| ==> suffixes[i] == suffixes[1..][i - 1];
        r
  }

  lemma SuffixHit(s: string, suffixes: seq<Suffix>, x: string)
    requires suffixes != [] && Lit(s, suffixes[0].word) == Ok((), x)
    ensures ParseSuffix(s, suffixes) == Ok(suffixes[0].typed, x)
  {
  }

  lemma SuffixMiss(s: string, suffixes: seq<Suffix>)
    requires suffixes != [] && Lit(s, suffixes[0].word).Err?
    ensures ParseSuffix(s, suffixes) == ParseSuffix(s, suffixes[1..])
  {
  }

  predicate RotationFits(rotation: int, rule: RotationRule)
  {
    match rule
    case SignedRotation => INT32_MIN <= rotation <= INT32_MAX
    case UnsignedRotation => 0 <= rotation < UINT32_LIMIT
  }

  /** `int_` or `uint_`, as the grammar reads the rotation. */
  function ParseRotation(s: string, rule: RotationRule): (r: Parsed<int>)
    ensures r.Ok? ==> SuffixOf(r.rest, s) && RotationFits(r.value, rule)
    ensures r.Err? ==> r.failure == Soft
  {
    match rule
    case SignedRotation =>
      (match Signed32(s) case Ok(i, rest) => Ok(i as int, rest) case Err(f) => Err(f))
    case UnsignedRotation =>
      (match Unsigned32(s) case Ok(n, rest) => Ok(n as int, rest) case Err(f) => Err(f))
  }

  function RotationName(rule: RotationRule): string
  {
    if rule.SignedRotation? then SIGNED_INTEGER else UNSIGNED_INTEGER
  }

  /** The column and relative flag of `v` are those of some entry of the
      suffix table. */
  ghost predicate KindIn(v: Variable, suffixes: seq<Suffix>)
  {
    exists i :: 0 <= i < |suffixes| && suffixes[i].typed.column == v.column && suffixes[i].typed.relative == v.relative
  }

  /** `uint_ > lit("_")`, after the keyword: both expected.  Both are
      primitives, which skip blanks on the sequence's position before they
      fail, so a failure is reported after the skipped blanks. */
  function IndexPart(s: string): (r: Parsed<uint32>)
    ensures r.Ok? ==> SuffixOf(r.rest, s) && |r.rest| < |s|
    ensures r.Err? ==> r.failure.Hard? && SuffixOf(r.failure.at, s)
  {
    var i :- Expect(Unsigned32(s), UNSIGNED_INTEGER, SkipSpace(s));
    var us := Expect(Lit(i.rest, UNDERSCORE), UNDERSCORE, SkipSpace(i.rest));
    if us.Err? then FailureWithin(us.failure, i.rest, s); us.PropagateFailure()
    else SuffixOfTransitive(us.rest, i.rest, s); Ok(i.value, us.rest)
  }

  /** The expected suffix alternative, which skips blanks on the sequence's
      position before it fails. */
  function SuffixPart(s: string, suffixes: seq<Suffix>): (r: Parsed<Variable>)
    ensures r.Ok? ==> SuffixOf(r.rest, s) && exists i :: 0 <= i < |suffixes| && suffixes[i].typed == r.value
    ensures r.Err? ==> r == Err(Hard(COLUMN_SUFFIX, SkipSpace(s)))
  {
    Expect(ParseSuffix(s, suffixes), COLUMN_SUFFIX, SkipSpace(s))
  }

  /** `rotation > suffixes`, after the index: both expected.  The rotation,
      like the suffix alternative, skips blanks on the sequence's position
      before it fails. */
  function ColumnPart(s: string, rule: RotationRule, suffixes: seq<Suffix>): (r: Parsed<(int, Variable)>)
    ensures r.Ok? ==> SuffixOf(r.rest, s) && RotationFits(r.value.0, rule)
    ensures r.Ok? ==> exists i :: 0 <= i < |suffixes| && suffixes[i].typed == r.value.1
    ensures r.Err? ==> r.failure.Hard? && SuffixOf(r.failure.at, s)
  {
    var rot :- Expect(ParseRotation(s, rule), RotationName(rule), SkipSpace(s));
    var typed := SuffixPart(rot.rest, suffixes);
    if typed.Err? then FailureWithin(typed.failure, rot.rest, s); typed.PropagateFailure()
    else SuffixOfTransitive(typed.rest, rot.rest, s); Ok((rot.value, typed.value), typed.rest)
  }

  /** `lit("var_") > uint_ > lit("_") > rotation > suffixes`, then
      `var_constructor`.  Only the keyword may fail softly. */
  function ParseVariable(s: string, rule: RotationRule, suffixes: seq<Suffix>): (r: Parsed<Variable>)
    ensures r.Ok? ==> SuffixOf(r.rest, s) && |r.rest| < |s|
    ensures r.Ok? ==> r.value.index < UINT32_LIMIT && RotationFits(r.value.rotation, rule)
    ensures r.Ok? ==> KindIn(r.value, suffixes)
    ensures r.IsHardFailure() ==> SuffixOf(r.failure.at, s)
    ensures r.IsSoftFailure() <==> !(VAR <= SkipSpace(s))
  {
    var kw :- Lit(s, VAR);
    var i := IndexPart(kw.rest);
    if i.Err? then FailureWithin(i.failure, kw.rest, s); i.PropagateFailure() else
    var c := ColumnPart(i.rest, rule, suffixes);
    if c.Err? then SuffixOfTransitive(i.rest, kw.rest, s); FailureWithin(c.failure, i.rest, s); c.PropagateFailure() else
    SuffixOfTransitive(c.rest, i.rest, kw.rest);
    SuffixOfTransitive(c.rest, kw.rest, s);
    SuffixOfShorter(c.rest, i.rest);
    Ok(Place(c.value.1, i.value, c.value.0), c.rest)
  }

  // ---------------------------------------------------------------------
  // Canonical text

  function ShowRotation(rotation: int, rule: RotationRule): string
  {
    if rule.SignedRotation? then SignedDecimal(rotation) else Decimal(Abs(rotation))
  }

  /** `var_<index>_<rotation><suffix>` */
  function ShowVariable(v: Variable, rule: RotationRule, word: string): string
  {
    VAR + Decimal(v.index) + UNDERSCORE + ShowRotation(v.rotation, rule) + word
  }

  lemma VariableOk(s: string, rule: RotationRule, suffixes: seq<Suffix>,
                   x1: string, i: uint32, x2: string, x3: string, rot: int, x4: string, typed: Variable, t: string)
    requires Lit(s, VAR) == Ok((), x1)
    requires Unsigned32(x1) == Ok(i, x2)
    requires Lit(x2, UNDERSCORE) == Ok((), x3)
    requires ParseRotation(x3, rule) == Ok(rot, x4)
    requires ParseSuffix(x4, suffixes) == Ok(typed, t)
    ensures ParseVariable(s, rule, suffixes) == Ok(Place(typed, i, rot), t)
  {
    assert IndexPart(x1) == Ok(i, x3);
    assert ColumnPart(x3, rule, suffixes) == Ok((rot, typed), t);
  }

  lemma RotationRoundTrip(rotation: int, rule: RotationRule, t: string)
    requires RotationFits(rotation, rule)
    requires t == [] || !IsDigit(t[0], 10)
    ensures ParseRotation(ShowRotation(rotation, rule) + t, rule) == Ok(rotation, t)
  {
    if rule.SignedRotation? {
      Signed32RoundTrip(rotation, t);
    } else {
      Unsigned32RoundTrip(rotation, t);
    }
  }

  /** A variable's canonical text reads back as that variable, once the
      suffix table maps `word` to its column and relative flag. */
  lemma VariableRoundTrip(v: Variable, rule: RotationRule, suffixes: seq<Suffix>, word: string, typed: Variable, t: string)
    requires v.index < UINT32_LIMIT && RotationFits(v.rotation, rule)
    requires word != [] && !IsDigit(word[0], 10)
    requires ParseSuffix(word + t, suffixes) == Ok(typed, t)
    requires typed.column == v.column && typed.relative == v.relative
    ensures ParseVariable(ShowVariable(v, rule, word) + t, rule, suffixes) == Ok(v, t)
  {
    var x4 := word + t;
    var x3 := ShowRotation(v.rotation, rule) + x4;
    var x2 := UNDERSCORE + x3;
    var x1 := Decimal(v.index) + x2;
    ShowVariableSplit(v, rule, word, t);
    VariableHead(v, rule, x4);
    VariableOk(VAR + x1, rule, suffixes, x1, v.index, x2, x3, v.rotation, x4, typed, t);
  }

  lemma VariableNoKeyword(s: string, rule: RotationRule, suffixes: seq<Suffix>)
    requires s != [] && !IsSpace(s[0]) && s[0] != 'v'
    ensures ParseVariable(s, rule, suffixes) == Err(Soft)
  {
    LitFails(s, VAR);
  }

  lemma VariableBadSuffix(s: string, rule: RotationRule, suffixes: seq<Suffix>, x1: string, i: uint32, x2: string, x3: string, rot: int, x4: string)
    requires Lit(s, VAR) == Ok((), x1)
    requires Unsigned32(x1) == Ok(i, x2)
    requires Lit(x2, UNDERSCORE) == Ok((), x3)
    requires ParseRotation(x3, rule) == Ok(rot, x4)
    requires ParseSuffix(x4, suffixes).Err?
    ensures ParseVariable(s, rule, suffixes) == Err(Hard(COLUMN_SUFFIX, SkipSpace(x4)))
  {
    assert IndexPart(x1) == Ok(i, x3);
    assert ColumnPart(x3, rule, suffixes) == Err(Hard(COLUMN_SUFFIX, SkipSpace(x4)));
  }

  lemma VariableBadRotation(s: string, rule: RotationRule, suffixes: seq<Suffix>, x1: string, i: uint32, x2: string, x3: string)
    requires Lit(s, VAR) == Ok((), x1)
    requires Unsigned32(x1) == Ok(i, x2)
    requires Lit(x2, UNDERSCORE) == Ok((), x3)
    requires ParseRotation(x3, rule).Err?
    ensures ParseVariable(s, rule, suffixes) == Err(Hard(RotationName(rule), SkipSpace(x3)))
  {
    assert IndexPart(x1) == Ok(i, x3);
  }

  /** The parts of a variable's text before the suffix, over an abstract
      remainder `x`. */
  lemma VariableHead(v: Variable, rule: RotationRule, x: string)
    requires v.index < UINT32_LIMIT && RotationFits(v.rotation, rule)
    requires x == [] || !IsDigit(x[0], 10)
    ensures Lit(VAR + (Decimal(v.index) + (UNDERSCORE + (ShowRotation(v.rotation, rule) + x))), VAR)
         == Ok((), Decimal(v.index) + (UNDERSCORE + (ShowRotation(v.rotation, rule) + x)))
    ensures Unsigned32(Decimal(v.index) + (UNDERSCORE + (ShowRotation(v.rotation, rule) + x)))
         == Ok(v.index, UNDERSCORE + (ShowRotation(v.rotation, rule) + x))
    ensures Lit(UNDERSCORE + (ShowRotation(v.rotation, rule) + x), UNDERSCORE) == Ok((), ShowRotation(v.rotation, rule) + x)
    ensures ParseRotation(ShowRotation(v.rotation, rule) + x, rule) == Ok(v.rotation, x)
  {
    var x3 := ShowRotation(v.rotation, rule) + x;
    var x2 := UNDERSCORE + x3;
    var x1 := Decimal(v.index) + x2;
    LitMatches(VAR, x1);
    Unsigned32RoundTrip(v.index, x2);
    LitMatches(UNDERSCORE, x3);
    RotationRoundTrip(v.rotation, rule, x);
  }

  lemma ShowVariableSplit(v: Variable, rule: RotationRule, word: string, t: string)
    ensures ShowVariable(v, rule, word) + t
         == VAR + (Decimal(v.index) + (UNDERSCORE + (ShowRotation(v.rotation, rule) + (word + t))))
  {
  }

  /** A suffix that no entry of the table matches is an expectation failure
      at the suffix, after any blanks before it, whatever index and rotation
      precede it. */
  lemma VariableRejectsSuffix(v: Variable, rule: RotationRule, suffixes: seq<Suffix>, word: string, t: string)
    requires v.index < UINT32_LIMIT && RotationFits(v.rotation, rule)
    requires word != [] && !IsDigit(word[0], 10)
    requires ParseSuffix(word + t, suffixes).Err?
    ensures ParseVariable(ShowVariable(v, rule, word) + t, rule, suffixes) == Err(Hard(COLUMN_SUFFIX, SkipSpace(word + t)))
  {
    var x4 := word + t;
    var x3 := ShowRotation(v.rotation, rule) + x4;
    var x2 := UNDERSCORE + x3;
    var x1 := Decimal(v.index) + x2;
    ShowVariableSplit(v, rule, word, t);
    VariableHead(v, rule, x4);
    VariableBadSuffix(VAR + x1, rule, suffixes, x1, v.index, x2, x3, v.rotation, x4);
  }
}
