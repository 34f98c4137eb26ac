/** The gate-constraint grammar of src/parsers.hpp.

        expression = term_ >> *(('+' > term_) | ('-' > term_))
        term_      = exponent >> *('*' > exponent)
        exponent   = factor >> -('^' > uint_)
        factor     = atom | ('(' > expression > ')') | ('-' >> factor)
        atom       = variable | constant

    The Kleene stars accumulate into the rule's value (`_val = _val + _1`),
    so sums and products fold to the left; `ExpressionTail` and `TermTail`
    are those loops, carrying the accumulated value.  `factor` has no
    semantic action, so its unary-minus alternative passes the inner value
    through unchanged.  Every rule is parameterised by a `MinusRule`: `Ignored`
    is the rule as written, `Negates` the evidently intended negation.

    An expected primitive (`')'`, the `uint_` after `'^'`) that fails is
    reported after the blanks it skipped; an expected rule (`term_`,
    `exponent`, `expression`) works on its own copy of the position and is
    reported before them.
 */
module GateConstraint {
  import opened ParseResult
  import opened Lexeme
  import opened Variables

  /** The gate suffix table: `_witness_relative`, `_public_input`,
      `_constant_relative`, with the flags their semantic actions assign. */
  const GATE_SUFFIXES: seq<Suffix> := [
    Suffix("_witness_relative", Variable(0, 0, true, Witness)),
    Suffix("_public_input", Variable(0, 0, false, PublicInput)),
    Suffix("_constant_relative", Variable(0, 0, false, Constant))]

  /** What a gate variable can be: a 32-bit index, a signed 32-bit rotation,
      and one of the three suffixes' column and relative flag; never a
      selector. */
  predicate GateVariableOk(v: Variable)
  {
    v.index < UINT32_LIMIT && INT32_MIN <= v.rotation <= INT32_MAX &&
    ((v.column == Witness && v.relative) ||
     (v.column == PublicInput && !v.relative) ||
     (v.column == Constant && !v.relative))
  }

  function ParseGateVariable(s: string): (r: Parsed<Variable>)
    ensures r.Ok? ==> SuffixOf(r.rest, s) && |r.rest| < |s| && GateVariableOk(r.value)
    ensures r.IsHardFailure() ==> SuffixOf(r.failure.at, s)
    ensures r.IsSoftFailure() <==> !(VAR <= SkipSpace(s))
  {
    var r := ParseVariable(s, SignedRotation, GATE_SUFFIXES);
    if r.Ok? then
      var i :| 0 <= i < |GATE_SUFFIXES| && GATE_SUFFIXES[i].typed.column == r.value.column && GATE_SUFFIXES[i].typed.relative == r.value.relative;
      assert i == 0 || i == 1 || i == 2;
      r
    else r
  }

  datatype Expr =
    | Var(v: Variable)
    | Const(c: int)
    | Add(left: Expr, right: Expr)
    | Sub(left: Expr, right: Expr)
    | Mul(left: Expr, right: Expr)
    | Power(base: Expr, exponent: nat)
    | Neg(operand: Expr)

  /** What `'-' >> factor` does with the factor's value. */
  datatype MinusRule = Ignored | Negates

  function ApplyMinus(minus: MinusRule, e: Expr): Expr
  {
    if minus.Negates? then Neg(e) else e
  }

  /** The digit bound of a constant: `(modulus_bits + 2) / 3` decimal digits. */
  function ConstWidth(modulusBits: nat): nat
  {
    (modulusBits + 3 - 1) / 3
  }

  /** The values the grammar can produce: well-formed gate variables,
      constants within the digit bound, 32-bit exponents, and negations only
      when unary minus negates. */
  predicate InGrammar(e: Expr, modulusBits: nat, minus: MinusRule)
  {
    match e
    case Var(v) => GateVariableOk(v)
    case Const(c) => Abs(c) < Pow(10, ConstWidth(modulusBits))
    case Add(a, b) => InGrammar(a, modulusBits, minus) && InGrammar(b, modulusBits, minus)
    case Sub(a, b) => InGrammar(a, modulusBits, minus) && InGrammar(b, modulusBits, minus)
    case Mul(a, b) => InGrammar(a, modulusBits, minus) && InGrammar(b, modulusBits, minus)
    case Power(b, k) => k < UINT32_LIMIT && InGrammar(b, modulusBits, minus)
    case Neg(x) => minus.Negates? && InGrammar(x, modulusBits, minus)
  }

  const EXPRESSION: string := "expression"
  const TERM: string := "term"
  const EXPONENT: string := "exponent"
  const OPEN: string := "("
  const CLOSE: string := ")"
  const PLUS: string := "+"
  const MINUS: string := "-"
  const TIMES: string := "*"
  const CARET: string := "^"

  /** `int_parser<integral_type, 10, 1, ConstWidth>` */
  function ParseConstant(s: string, modulusBits: nat): (r: Parsed<int>)
    ensures r.Ok? ==> SuffixOf(r.rest, s) && |r.rest| < |s| && Abs(r.value) < Pow(10, ConstWidth(modulusBits))
    ensures r.Err? ==> r.failure == Soft
  {
    BoundedSigned(s, 10, ConstWidth(modulusBits))
  }

  /** `atom = variable | constant` */
  function ParseAtom(s: string, modulusBits: nat, minus: MinusRule): (r: Parsed<Expr>)
    ensures r.Ok? ==> SuffixOf(r.rest, s) && |r.rest| < |s| && InGrammar(r.value, modulusBits, minus)
    ensures r.Ok? ==> r.value.Var? || r.value.Const?
  {
    match ParseGateVariable(s)
    case Ok(v, rest) => Ok(Var(v), rest)
    case Err(Hard(e, at)) => Err(Hard(e, at))
    case Err(Soft) =>
      match ParseConstant(s, modulusBits)
      case Ok(c, rest) => Ok(Const(c), rest)
      case Err(f) => Err(f)
  }

  function ParseFactor(s: string, modulusBits: nat, minus: MinusRule): (r: Parsed<Expr>)
    ensures r.Ok? ==> SuffixOf(r.rest, s) && |r.rest| < |s| && InGrammar(r.value, modulusBits, minus)
    decreases |s|, 0
  {
    var a := ParseAtom(s, modulusBits, minus);
    if !a.IsSoftFailure() then a
    else
      var open := Lit(s, OPEN);
      if open.Ok? then
        var e := Expect(ParseExpression(open.rest, modulusBits, minus), EXPRESSION, open.rest);
        if e.Err? then e
        else
          var close := Expect(Lit(e.rest, CLOSE), CLOSE, SkipSpace(e.rest));
          if close.Err? then close.PropagateFailure()
          else
            SuffixOfTransitive(e.rest, open.rest, s);
            SuffixOfTransitive(close.rest, e.rest, s);
            SuffixOfShorter(e.rest, open.rest);
            Ok(e.value, close.rest)
      else
        var neg := Lit(s, MINUS);
        if neg.Err? then Err(Soft)
        else
          var f := ParseFactor(neg.rest, modulusBits, minus);
          if f.Ok? then
            SuffixOfTransitive(f.rest, neg.rest, s);
            Ok(ApplyMinus(minus, f.value), f.rest)
          else f
  }

  function ParseExponent(s: string, modulusBits: nat, minus: MinusRule): (r: Parsed<Expr>)
    ensures r.Ok? ==> SuffixOf(r.rest, s) && |r.rest| < |s| && InGrammar(r.value, modulusBits, minus)
    decreases |s|, 1
  {
    var f :- ParseFactor(s, modulusBits, minus);
    var caret := Lit(f.rest, CARET);
    if caret.Err? then f
    else
      var k := Expect(Unsigned32(caret.rest), UNSIGNED_INTEGER, SkipSpace(caret.rest));
      if k.Err? then k.PropagateFailure()
      else
        SuffixOfTransitive(caret.rest, f.rest, s);
        SuffixOfTransitive(k.rest, caret.rest, s);
        SuffixOfShorter(caret.rest, f.rest);
        Ok(Power(f.value, k.value), k.rest)
  }

  /** The loop `*('*' > exponent)`, with `_val` as the accumulator. */
  function TermTail(acc: Expr, s: string, modulusBits: nat, minus: MinusRule): (r: Parsed<Expr>)
    ensures r.Ok? ==> SuffixOf(r.rest, s)
    ensures r.Ok? && InGrammar(acc, modulusBits, minus) ==> InGrammar(r.value, modulusBits, minus)
    ensures !r.IsSoftFailure()
    decreases |s|, 4
  {
    var star := Lit(s, TIMES);
    if star.Err? then Ok(acc, s)
    else
      var x := Expect(ParseExponent(star.rest, modulusBits, minus), EXPONENT, star.rest);
      if x.Err? then x
      else
        SuffixOfTransitive(x.rest, star.rest, s);
        var r := TermTail(Mul(acc, x.value), x.rest, modulusBits, minus);
        if r.Ok? then SuffixOfTransitive(r.rest, x.rest, s); r else r
  }

  function ParseTerm(s: string, modulusBits: nat, minus: MinusRule): (r: Parsed<Expr>)
    ensures r.Ok? ==> SuffixOf(r.rest, s) && |r.rest| < |s| && InGrammar(r.value, modulusBits, minus)
    decreases |s|, 2
  {
    var first :- ParseExponent(s, modulusBits, minus);
    var r := TermTail(first.value, first.rest, modulusBits, minus);
    if r.Ok? then
      SuffixOfTransitive(r.rest, first.rest, s);
      SuffixOfShorter(r.rest, first.rest);
      r
    else r
  }

  /** The loop `*(('+' > term_) | ('-' > term_))`, with `_val` as the
      accumulator. */
  function ExpressionTail(acc: Expr, s: string, modulusBits: nat, minus: MinusRule): (r: Parsed<Expr>)
    ensures r.Ok? ==> SuffixOf(r.rest, s)
    ensures r.Ok? && InGrammar(acc, modulusBits, minus) ==> InGrammar(r.value, modulusBits, minus)
    ensures !r.IsSoftFailure()
    decreases |s|, 4
  {
    var plus := Lit(s, PLUS);
    var less := Lit(s, MINUS);
    if plus.Err? && less.Err? then Ok(acc, s)
    else
      var after := if plus.Ok? then plus.rest else less.rest;
      var x := Expect(ParseTerm(after, modulusBits, minus), TERM, after);
      if x.Err? then x
      else
        SuffixOfTransitive(x.rest, after, s);
        var next := if plus.Ok? then Add(acc, x.value) else Sub(acc, x.value);
        var r := ExpressionTail(next, x.rest, modulusBits, minus);
        if r.Ok? then SuffixOfTransitive(r.rest, x.rest, s); r else r
  }

  function ParseExpression(s: string, modulusBits: nat, minus: MinusRule): (r: Parsed<Expr>)
    ensures r.Ok? ==> SuffixOf(r.rest, s) && |r.rest| < |s| && InGrammar(r.value, modulusBits, minus)
    decreases |s|, 3
  {
    var first :- ParseTerm(s, modulusBits, minus);
    var r := ExpressionTail(first.value, first.rest, modulusBits, minus);
    if r.Ok? then
      SuffixOfTransitive(r.rest, first.rest, s);
      SuffixOfShorter(r.rest, first.rest);
      r
    else r
  }

  /** The grammar's start rule as written: unary minus is a pass-through. */
  function ParseGateConstraintAsWritten(s: string, modulusBits: nat): (r: Parsed<Expr>)
    ensures r.Ok? ==> SuffixOf(r.rest, s) && InGrammar(r.value, modulusBits, Ignored)
  {
    ParseExpression(s, modulusBits, Ignored)
  }

  /** The start rule with unary minus negating its operand. */
  function ParseGateConstraint(s: string, modulusBits: nat): (r: Parsed<Expr>)
    ensures r.Ok? ==> SuffixOf(r.rest, s) && InGrammar(r.value, modulusBits, Negates)
  {
    ParseExpression(s, modulusBits, Negates)
  }
}
