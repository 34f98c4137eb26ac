/** What the gate-constraint grammar reads, proved against a printer.

    `ShowSum` prints an expression with the fewest parentheses the grammar
    needs, and no whitespace: sums and products are chained to the left,
    a right operand of lower precedence is parenthesised, a compound base of
    `^` is parenthesised, and a negation is `-(...)`.  The round trip
    `ParseExpression(ShowSum(e)) == e` for every `e` the grammar can produce
    is the statement that the grammar folds `+`, `-` and `*` to the left and
    gives `*` precedence over `+` and `-` and `^` over `*`.
 */
module GateProofs {
  import opened ParseResult
  import opened Lexeme
  import opened Variables
  import opened GateConstraint

  // ---------------------------------------------------------------------
  // Variables

  function GateSuffixWord(v: Variable): string
  {
    match v.column
    case Witness => "_witness_relative"
    case PublicInput => "_public_input"
    case _ => "_constant_relative"
  }

  function ShowGateVariable(v: Variable): string
  {
    ShowVariable(v, SignedRotation, GateSuffixWord(v))
  }

  lemma GateSuffixRoundTrip(v: Variable, t: string)
    requires GateVariableOk(v)
    ensures ParseSuffix(GateSuffixWord(v) + t, GATE_SUFFIXES)
         == Ok(Variable(0, 0, v.relative, v.column), t)
  {
    var w := GateSuffixWord(v);
    var s := w + t;
    LitMatches(w, t);
    if v.column == Witness {
      SuffixHit(s, GATE_SUFFIXES, t);
    } else if v.column == PublicInput {
      LitMismatch(s, GATE_SUFFIXES[0].word, 1);
      SuffixMiss(s, GATE_SUFFIXES);
      SuffixHit(s, GATE_SUFFIXES[1..], t);
    } else {
      LitMismatch(s, GATE_SUFFIXES[0].word, 1);
      SuffixMiss(s, GATE_SUFFIXES);
      LitMismatch(s, GATE_SUFFIXES[1..][0].word, 1);
      SuffixMiss(s, GATE_SUFFIXES[1..]);
      assert GATE_SUFFIXES[1..][1..] == GATE_SUFFIXES[2..];
      SuffixHit(s, GATE_SUFFIXES[2..], t);
    }
  }

  /** Every well-formed gate variable reads back from its text. */
  lemma GateVariableRoundTrip(v: Variable, t: string)
    requires GateVariableOk(v)
    ensures ParseGateVariable(ShowGateVariable(v) + t) == Ok(v, t)
  {
    GateSuffixRoundTrip(v, t);
    VariableRoundTrip(v, SignedRotation, GATE_SUFFIXES, GateSuffixWord(v), Variable(0, 0, v.relative, v.column), t);
  }

  lemma SelectorIsNoGateSuffix(t: string)
    ensures ParseSuffix("_selector" + t, GATE_SUFFIXES).Err?
  {
    var x := "_selector" + t;
    assert x[0] == '_' && x[1] == 's';
    SkipSpaceNoop(x);
    forall i | 0 <= i < |GATE_SUFFIXES|
      ensures !(GATE_SUFFIXES[i].word <= SkipSpace(x))
    {
      assert GATE_SUFFIXES[i].word[1] != x[1];
    }
  }

  /** A gate variable that names no column of the table, such as a
      selector, is an expectation failure once `var_` has been read. */
  lemma GateVariableRejectsSelector(index: uint32, rotation: int32, t: string)
    ensures ParseGateVariable(ShowVariable(Variable(index, rotation, false, Selector), SignedRotation, "_selector") + t)
         == Err(Hard(COLUMN_SUFFIX, "_selector" + t))
  {
    SelectorIsNoGateSuffix(t);
    SkipSpaceNoop("_selector" + t);
    VariableRejectsSuffix(Variable(index, rotation, false, Selector), SignedRotation, GATE_SUFFIXES, "_selector", t);
  }

  // ---------------------------------------------------------------------
  // The printer

  /** The precedence level an expression belongs to: 0 sums, 1 products,
      2 powers, 3 atoms and negations. */
  function Home(e: Expr): nat
  {
    match e
    case Add(_, _) => 0
    case Sub(_, _) => 0
    case Mul(_, _) => 1
    case Power(_, _) => 2
    case _ => 3
  }

  /** How many levels printing or parsing `e` at `level` still descends
      before it reaches `e`'s own level, counting around `levels` levels. */
  function Distance(level: nat, e: Expr, levels: nat): nat
    requires level < levels && Home(e) < levels
  {
    (Home(e) + levels - level) % levels
  }

  function ShowSum(e: Expr): string
    decreases e, Distance(0, e, 4)
  {
    match e
    case Add(a, b) => ShowSum(a) + PLUS + ShowProduct(b)
    case Sub(a, b) => ShowSum(a) + MINUS + ShowProduct(b)
    case _ => ShowProduct(e)
  }

  function ShowProduct(e: Expr): string
    decreases e, Distance(1, e, 4)
  {
    match e
    case Mul(a, b) => ShowProduct(a) + TIMES + ShowPower(b)
    case _ => ShowPower(e)
  }

  function ShowPower(e: Expr): string
    decreases e, Distance(2, e, 4)
  {
    match e
    case Power(b, k) => ShowFactor(b) + CARET + Decimal(k)
    case _ => ShowFactor(e)
  }

  function ShowFactor(e: Expr): string
    decreases e, Distance(3, e, 4)
  {
    match e
    case Var(v) => ShowGateVariable(v)
    case Const(c) => SignedDecimal(c)
    case Neg(x) => MINUS + (OPEN + ShowSum(x) + CLOSE)
    case _ => OPEN + ShowSum(e) + CLOSE
  }

  // ---------------------------------------------------------------------
  // What may follow each level without being read into it

  predicate EndsFactor(t: string)
  {
    t == [] || !IsDigit(t[0], 10)
  }

  predicate EndsPower(t: string)
  {
    EndsFactor(t) && !(CARET <= SkipSpace(t))
  }

  predicate EndsProduct(t: string)
  {
    EndsPower(t) && !(TIMES <= SkipSpace(t))
  }

  predicate EndsSum(t: string)
  {
    EndsProduct(t) && !(PLUS <= SkipSpace(t)) && !(MINUS <= SkipSpace(t))
  }

  lemma EndsAfterOperator(op: char, x: string)
    requires op == '+' || op == '-' || op == '*' || op == ')'
    ensures EndsPower([op] + x)
    ensures op != '*' ==> EndsProduct([op] + x)
    ensures op == ')' ==> EndsSum([op] + x)
  {
    SkipSpaceNoop([op] + x);
  }

  // ---------------------------------------------------------------------
  // One step of each rule, over abstract texts
  //
  // Proof scaffolding, not properties of the grammar: each lemma unfolds one
  // rule once, with its sub-results named, so that the inductive proofs below
  // can take one step without unfolding the parsers themselves.

  lemma AtomFromVariable(s: string, modulusBits: nat, minus: MinusRule, v: Variable, t: string)
    requires ParseGateVariable(s) == Ok(v, t)
    ensures ParseAtom(s, modulusBits, minus) == Ok(Var(v), t)
  {
  }

  lemma AtomFromConstant(s: string, modulusBits: nat, minus: MinusRule, c: int, t: string)
    requires ParseGateVariable(s).IsSoftFailure() && ParseConstant(s, modulusBits) == Ok(c, t)
    ensures ParseAtom(s, modulusBits, minus) == Ok(Const(c), t)
  {
  }

  lemma AtomFails(s: string, modulusBits: nat, minus: MinusRule)
    requires ParseGateVariable(s).IsSoftFailure() && ParseConstant(s, modulusBits).Err?
    ensures ParseAtom(s, modulusBits, minus) == Err(Soft)
  {
  }

  lemma FactorFromAtom(s: string, modulusBits: nat, minus: MinusRule)
    requires ParseAtom(s, modulusBits, minus).Ok?
    ensures ParseFactor(s, modulusBits, minus) == ParseAtom(s, modulusBits, minus)
  {
  }

  lemma FactorFromParen(s: string, modulusBits: nat, minus: MinusRule, x1: string, e: Expr, x2: string, t: string)
    requires ParseAtom(s, modulusBits, minus) == Err(Soft)
    requires Lit(s, OPEN) == Ok((), x1)
    requires ParseExpression(x1, modulusBits, minus) == Ok(e, x2)
    requires Lit(x2, CLOSE) == Ok((), t)
    ensures ParseFactor(s, modulusBits, minus) == Ok(e, t)
  {
  }

  lemma FactorFromMinus(s: string, modulusBits: nat, minus: MinusRule, x1: string, e: Expr, t: string)
    requires ParseAtom(s, modulusBits, minus) == Err(Soft)
    requires Lit(s, OPEN).Err? && Lit(s, MINUS) == Ok((), x1)
    requires ParseFactor(x1, modulusBits, minus) == Ok(e, t)
    ensures ParseFactor(s, modulusBits, minus) == Ok(ApplyMinus(minus, e), t)
  {
  }

  lemma ExponentWithoutCaret(s: string, modulusBits: nat, minus: MinusRule, e: Expr, t: string)
    requires ParseFactor(s, modulusBits, minus) == Ok(e, t) && Lit(t, CARET).Err?
    ensures ParseExponent(s, modulusBits, minus) == Ok(e, t)
  {
  }

  lemma ExponentWithCaret(s: string, modulusBits: nat, minus: MinusRule, b: Expr, x1: string, x2: string, k: uint32, t: string)
    requires ParseFactor(s, modulusBits, minus) == Ok(b, x1)
    requires Lit(x1, CARET) == Ok((), x2) && Unsigned32(x2) == Ok(k, t)
    ensures ParseExponent(s, modulusBits, minus) == Ok(Power(b, k), t)
  {
  }

  lemma TermFrom(s: string, modulusBits: nat, minus: MinusRule, e: Expr, x: string)
    requires ParseExponent(s, modulusBits, minus) == Ok(e, x)
    ensures ParseTerm(s, modulusBits, minus) == TermTail(e, x, modulusBits, minus)
  {
  }

  lemma TermTailStop(acc: Expr, t: string, modulusBits: nat, minus: MinusRule)
    requires Lit(t, TIMES).Err?
    ensures TermTail(acc, t, modulusBits, minus) == Ok(acc, t)
  {
  }

  lemma TermTailStep(acc: Expr, s: string, modulusBits: nat, minus: MinusRule, x1: string, b: Expr, x2: string)
    requires Lit(s, TIMES) == Ok((), x1) && ParseExponent(x1, modulusBits, minus) == Ok(b, x2)
    ensures TermTail(acc, s, modulusBits, minus) == TermTail(Mul(acc, b), x2, modulusBits, minus)
  {
  }

  lemma ExpressionFrom(s: string, modulusBits: nat, minus: MinusRule, e: Expr, x: string)
    requires ParseTerm(s, modulusBits, minus) == Ok(e, x)
    ensures ParseExpression(s, modulusBits, minus) == ExpressionTail(e, x, modulusBits, minus)
  {
  }

  lemma ExpressionTailStop(acc: Expr, t: string, modulusBits: nat, minus: MinusRule)
    requires Lit(t, PLUS).Err? && Lit(t, MINUS).Err?
    ensures ExpressionTail(acc, t, modulusBits, minus) == Ok(acc, t)
  {
  }

  lemma ExpressionTailStep(acc: Expr, s: string, modulusBits: nat, minus: MinusRule, plus: bool, x1: string, b: Expr, x2: string)
    requires if plus then Lit(s, PLUS) == Ok((), x1) else Lit(s, PLUS).Err? && Lit(s, MINUS) == Ok((), x1)
    requires ParseTerm(x1, modulusBits, minus) == Ok(b, x2)
    ensures ExpressionTail(acc, s, modulusBits, minus)
         == ExpressionTail(if plus then Add(acc, b) else Sub(acc, b), x2, modulusBits, minus)
  {
  }

  // ---------------------------------------------------------------------
  // The round trip, level by level

  /** Neither a variable nor a constant starts with `(` or `-(`. */
  lemma NotAnAtom(s: string, modulusBits: nat, minus: MinusRule)
    requires |s| >= 2 && (s[0] == '(' || (s[0] == '-' && s[1] == '('))
    ensures ParseAtom(s, modulusBits, minus) == Err(Soft)
  {
    SkipSpaceNoop(s);
    LitFails(s, VAR);
    assert ParseGateVariable(s).IsSoftFailure();
    assert TakeDigits(DropSign(s), 10, ConstWidth(modulusBits)) == [];
    AtomFails(s, modulusBits, minus);
  }

  lemma {:induction false} SumLemma(e: Expr, modulusBits: nat, minus: MinusRule, t: string)
    requires modulusBits > 0 && InGrammar(e, modulusBits, minus) && EndsProduct(t)
    ensures ParseExpression(ShowSum(e) + t, modulusBits, minus) == ExpressionTail(e, t, modulusBits, minus)
    decreases e, 1 + Distance(0, e, 5)
  {
    match e
    case Add(a, b) =>
      SumOperand(a, b, true, modulusBits, minus, t);
    case Sub(a, b) =>
      SumOperand(a, b, false, modulusBits, minus, t);
    case _ =>
      ProductLemma(e, modulusBits, minus, t);
      ExpressionFrom(ShowSum(e) + t, modulusBits, minus, e, t);
  }

  /** `a + b` or `a - b`: the left operand's fold continues with `b`. */
  lemma {:induction false} SumOperand(a: Expr, b: Expr, plus: bool, modulusBits: nat, minus: MinusRule, t: string)
    requires modulusBits > 0 && InGrammar(a, modulusBits, minus) && InGrammar(b, modulusBits, minus) && EndsProduct(t)
    ensures ParseExpression(ShowSum(if plus then Add(a, b) else Sub(a, b)) + t, modulusBits, minus)
         == ExpressionTail(if plus then Add(a, b) else Sub(a, b), t, modulusBits, minus)
    decreases if plus then Add(a, b) else Sub(a, b), 0
  {
    var op := if plus then PLUS else MINUS;
    var y := ShowProduct(b) + t;
    var x := op + y;
    assert ShowSum(if plus then Add(a, b) else Sub(a, b)) + t == ShowSum(a) + x;
    EndsAfterOperator(op[0], y);
    SumLemma(a, modulusBits, minus, x);
    LitMatches(op, y);
    if !plus {
      LitFails(x, PLUS);
    }
    ProductLemma(b, modulusBits, minus, t);
    ExpressionTailStep(a, x, modulusBits, minus, plus, y, b, t);
  }

  lemma {:induction false} ProductLemma(e: Expr, modulusBits: nat, minus: MinusRule, t: string)
    requires modulusBits > 0 && InGrammar(e, modulusBits, minus) && EndsPower(t)
    ensures ParseTerm(ShowProduct(e) + t, modulusBits, minus) == TermTail(e, t, modulusBits, minus)
    decreases e, 1 + Distance(1, e, 5)
  {
    match e
    case Mul(a, b) =>
      var y := ShowPower(b) + t;
      var x := TIMES + y;
      assert ShowProduct(e) + t == ShowProduct(a) + x;
      EndsAfterOperator('*', y);
      ProductLemma(a, modulusBits, minus, x);
      LitMatches(TIMES, y);
      PowerLemma(b, modulusBits, minus, t);
      TermTailStep(a, x, modulusBits, minus, y, b, t);
    case _ =>
      PowerLemma(e, modulusBits, minus, t);
      TermFrom(ShowProduct(e) + t, modulusBits, minus, e, t);
  }

  lemma {:induction false} PowerLemma(e: Expr, modulusBits: nat, minus: MinusRule, t: string)
    requires modulusBits > 0 && InGrammar(e, modulusBits, minus)
    requires if e.Power? then EndsFactor(t) else EndsPower(t)
    ensures ParseExponent(ShowPower(e) + t, modulusBits, minus) == Ok(e, t)
    decreases e, 1 + Distance(2, e, 5)
  {
    match e
    case Power(b, k) =>
      var y := Decimal(k) + t;
      var x := CARET + y;
      assert ShowPower(e) + t == ShowFactor(b) + x;
      FactorLemma(b, modulusBits, minus, x);
      LitMatches(CARET, y);
      Unsigned32RoundTrip(k, t);
      ExponentWithCaret(ShowPower(e) + t, modulusBits, minus, b, x, y, k, t);
    case _ =>
      FactorLemma(e, modulusBits, minus, t);
      ExponentWithoutCaret(ShowPower(e) + t, modulusBits, minus, e, t);
  }

  lemma VariableFactor(v: Variable, modulusBits: nat, minus: MinusRule, t: string)
    requires GateVariableOk(v)
    ensures ParseFactor(ShowGateVariable(v) + t, modulusBits, minus) == Ok(Var(v), t)
  {
    var s := ShowGateVariable(v) + t;
    GateVariableRoundTrip(v, t);
    AtomFromVariable(s, modulusBits, minus, v, t);
    FactorFromAtom(s, modulusBits, minus);
  }

  lemma ConstantFactor(c: int, modulusBits: nat, minus: MinusRule, t: string)
    requires modulusBits > 0 && Abs(c) < Pow(10, ConstWidth(modulusBits)) && EndsFactor(t)
    ensures ParseFactor(SignedDecimal(c) + t, modulusBits, minus) == Ok(Const(c), t)
  {
    var s := SignedDecimal(c) + t;
    SignedDecimalShape(c, t);
    assert s[0] == '-' || IsDigit(s[0], 10);
    VariableNoKeyword(s, SignedRotation, GATE_SUFFIXES);
    DecimalLength(Abs(c), ConstWidth(modulusBits));
    BoundedSignedRoundTrip(c, ConstWidth(modulusBits), t);
    AtomFromConstant(s, modulusBits, minus, c, t);
    FactorFromAtom(s, modulusBits, minus);
  }

  lemma {:induction false} FactorLemma(e: Expr, modulusBits: nat, minus: MinusRule, t: string)
    requires modulusBits > 0 && InGrammar(e, modulusBits, minus) && EndsFactor(t)
    ensures ParseFactor(ShowFactor(e) + t, modulusBits, minus) == Ok(e, t)
    decreases e, 1 + Distance(3, e, 5)
  {
    match e
    case Var(v) =>
      VariableFactor(v, modulusBits, minus, t);
    case Const(c) =>
      ConstantFactor(c, modulusBits, minus, t);
    case Neg(x) =>
      var y := OPEN + ShowSum(x) + CLOSE + t;
      assert ShowFactor(e) + t == MINUS + y;
      NotAnAtom(MINUS + y, modulusBits, minus);
      LitFails(MINUS + y, OPEN);
      LitMatches(MINUS, y);
      ParenLemma(x, modulusBits, minus, t);
      FactorFromMinus(MINUS + y, modulusBits, minus, y, x, t);
    case _ =>
      ParenLemma(e, modulusBits, minus, t);
  }

  lemma {:induction false} ParenLemma(e: Expr, modulusBits: nat, minus: MinusRule, t: string)
    requires modulusBits > 0 && InGrammar(e, modulusBits, minus)
    ensures ParseFactor(OPEN + ShowSum(e) + CLOSE + t, modulusBits, minus) == Ok(e, t)
    decreases e, 1 + Distance(4, e, 5)
  {
    var y := CLOSE + t;
    var x := ShowSum(e) + y;
    var s := OPEN + ShowSum(e) + CLOSE + t;
    assert s == OPEN + x;
    NotAnAtom(s, modulusBits, minus);
    LitMatches(OPEN, x);
    EndsAfterOperator(')', t);
    SumLemma(e, modulusBits, minus, y);
    LitFails(y, PLUS);
    LitFails(y, MINUS);
    ExpressionTailStop(e, y, modulusBits, minus);
    LitMatches(CLOSE, t);
    FactorFromParen(s, modulusBits, minus, x, e, y, t);
  }

  // ---------------------------------------------------------------------
  // The whole grammar

  lemma EndsSumStops(t: string)
    requires EndsSum(t)
    ensures Lit(t, PLUS).Err? && Lit(t, MINUS).Err? && Lit(t, TIMES).Err? && Lit(t, CARET).Err?
  {
  }

  /** Under either minus rule, every expression that rule can produce is
      read back from its printed text, and nothing after it is consumed. */
  lemma ExpressionRoundTrip(e: Expr, modulusBits: nat, minus: MinusRule, t: string)
    requires modulusBits > 0 && InGrammar(e, modulusBits, minus) && EndsSum(t)
    ensures ParseExpression(ShowSum(e) + t, modulusBits, minus) == Ok(e, t)
  {
    SumLemma(e, modulusBits, minus, t);
    EndsSumStops(t);
    ExpressionTailStop(e, t, modulusBits, minus);
  }

  /** Every expression the corrected grammar can produce, negations
      included, is read back by its start rule. */
  lemma GateConstraintRoundTrip(e: Expr, modulusBits: nat, t: string)
    requires modulusBits > 0 && InGrammar(e, modulusBits, Negates) && EndsSum(t)
    ensures ParseGateConstraint(ShowSum(e) + t, modulusBits) == Ok(e, t)
  {
    ExpressionRoundTrip(e, modulusBits, Negates, t);
  }

  /** The same for the start rule as written, on expressions without
      negation. */
  lemma GateConstraintAsWrittenRoundTrip(e: Expr, modulusBits: nat, t: string)
    requires modulusBits > 0 && InGrammar(e, modulusBits, Ignored) && EndsSum(t)
    ensures ParseGateConstraintAsWritten(ShowSum(e) + t, modulusBits) == Ok(e, t)
  {
    ExpressionRoundTrip(e, modulusBits, Ignored, t);
  }

  /** A whole line holding a printed expression is accepted as that
      expression, by the start rule as written and by the corrected one. */
  lemma GateConstraintLine(e: Expr, modulusBits: nat, minus: MinusRule)
    requires modulusBits > 0 && InGrammar(e, modulusBits, minus)
    ensures WholeLine(ParseExpression(ShowSum(e), modulusBits, minus)) == Ok(e, [])
  {
    assert EndsSum([]);
    ExpressionRoundTrip(e, modulusBits, minus, []);
    assert ShowSum(e) + [] == ShowSum(e);
  }

  lemma FactorToExpression(s: string, modulusBits: nat, minus: MinusRule, e: Expr, t: string)
    requires ParseFactor(s, modulusBits, minus) == Ok(e, t) && EndsSum(t)
    ensures ParseExpression(s, modulusBits, minus) == Ok(e, t)
  {
    EndsSumStops(t);
    ExponentWithoutCaret(s, modulusBits, minus, e, t);
    TermFrom(s, modulusBits, minus, e, t);
    TermTailStop(e, t, modulusBits, minus);
    ExpressionFrom(s, modulusBits, minus, e, t);
    ExpressionTailStop(e, t, modulusBits, minus);
  }

  /** `'-' >> factor` with either minus rule. */
  lemma MinusParen(x: Expr, modulusBits: nat, minus: MinusRule, t: string)
    requires modulusBits > 0 && InGrammar(x, modulusBits, minus)
    ensures ParseFactor(MINUS + (OPEN + ShowSum(x) + CLOSE) + t, modulusBits, minus) == Ok(ApplyMinus(minus, x), t)
  {
    var y := OPEN + ShowSum(x) + CLOSE + t;
    assert MINUS + (OPEN + ShowSum(x) + CLOSE) + t == MINUS + y;
    NotAnAtom(MINUS + y, modulusBits, minus);
    LitFails(MINUS + y, OPEN);
    LitMatches(MINUS, y);
    ParenLemma(x, modulusBits, minus, t);
    FactorFromMinus(MINUS + y, modulusBits, minus, y, x, t);
  }

  /** As written, a negated parenthesised expression `-(x)` reads as `x`:
      the unary minus alternative carries no semantic action. */
  lemma UnaryMinusDropped(x: Expr, modulusBits: nat, t: string)
    requires modulusBits > 0 && InGrammar(x, modulusBits, Ignored) && EndsSum(t)
    ensures ParseGateConstraintAsWritten(MINUS + (OPEN + ShowSum(x) + CLOSE) + t, modulusBits) == Ok(x, t)
  {
    MinusParen(x, modulusBits, Ignored, t);
    FactorToExpression(MINUS + (OPEN + ShowSum(x) + CLOSE) + t, modulusBits, Ignored, x, t);
  }

  /** With the intended action, the same text reads as the negation. */
  lemma UnaryMinusNegates(x: Expr, modulusBits: nat, t: string)
    requires modulusBits > 0 && InGrammar(x, modulusBits, Negates) && EndsSum(t)
    ensures ParseGateConstraint(MINUS + (OPEN + ShowSum(x) + CLOSE) + t, modulusBits) == Ok(Neg(x), t)
  {
    MinusParen(x, modulusBits, Negates, t);
    FactorToExpression(MINUS + (OPEN + ShowSum(x) + CLOSE) + t, modulusBits, Negates, Neg(x), t);
  }

  /** `-v^k` is `(-v)^k`: the minus belongs to the factor, and `^` applies
      to the factor's value.  As written that value is `v` itself. */
  lemma MinusBeforeCaret(v: Variable, k: uint32, modulusBits: nat, minus: MinusRule)
    requires modulusBits > 0 && GateVariableOk(v)
    ensures ParseExpression(MINUS + ShowGateVariable(v) + CARET + Decimal(k), modulusBits, minus)
         == Ok(Power(ApplyMinus(minus, Var(v)), k), [])
  {
    var y := Decimal(k);
    var x := CARET + y;
    var z := ShowGateVariable(v) + x;
    var s := MINUS + ShowGateVariable(v) + CARET + Decimal(k);
    assert s == MINUS + z;
    assert z[0] == 'v';
    SkipSpaceNoop(s);
    LitFails(s, VAR);
    assert TakeDigits(DropSign(s), 10, ConstWidth(modulusBits)) == [];
    AtomFails(s, modulusBits, minus);
    LitFails(s, OPEN);
    LitMatches(MINUS, z);
    assert ShowFactor(Var(v)) == ShowGateVariable(v);
    FactorLemma(Var(v), modulusBits, minus, x);
    FactorFromMinus(s, modulusBits, minus, z, Var(v), x);
    LitMatches(CARET, y);
    Unsigned32RoundTrip(k, []);
    assert y + [] == y;
    ExponentWithCaret(s, modulusBits, minus, ApplyMinus(minus, Var(v)), x, y, k, []);
    ExponentToExpression(s, modulusBits, minus, Power(ApplyMinus(minus, Var(v)), k), []);
  }

  /** As written, `-5` is the constant -5 but `- 5` is the constant 5: the
      signed constant is tried first and needs its sign next to its digits. */
  lemma SpacedMinusAsWritten(modulusBits: nat)
    requires modulusBits > 0
    ensures ParseGateConstraintAsWritten("-5", modulusBits) == Ok(Const(-5), [])
    ensures ParseGateConstraintAsWritten("- 5", modulusBits) == Ok(Const(5), [])
  {
    assert InGrammar(Const(-5), modulusBits, Ignored) by {
      PowMonotone(10, 1, ConstWidth(modulusBits));
    }
    assert ShowSum(Const(-5)) + [] == "-5";
    GateConstraintAsWrittenRoundTrip(Const(-5), modulusBits, []);
    SpacedMinus(modulusBits, Ignored);
  }

  /** With the intended action, `- 5` is the negation of the constant 5. */
  lemma SpacedMinusNegates(modulusBits: nat)
    requires modulusBits > 0
    ensures ParseGateConstraint("- 5", modulusBits) == Ok(Neg(Const(5)), [])
  {
    SpacedMinus(modulusBits, Negates);
  }

  lemma SpacedMinus(modulusBits: nat, minus: MinusRule)
    requires modulusBits > 0
    ensures ParseExpression("- 5", modulusBits, minus) == Ok(ApplyMinus(minus, Const(5)), [])
  {
    var s := "- 5";
    var y := " 5";
    PowMonotone(10, 1, ConstWidth(modulusBits));
    SkipSpaceNoop(s);
    LitFails(s, VAR);
    assert TakeDigits(DropSign(s), 10, ConstWidth(modulusBits)) == [];
    AtomFails(s, modulusBits, minus);
    LitFails(s, OPEN);
    assert Lit(s, MINUS) == Ok((), y);
    assert SkipSpace(y) == "5";
    LitFails("5", VAR);
    assert ParseGateVariable(y).IsSoftFailure();
    assert TakeDigits("5", 10, ConstWidth(modulusBits)) == "5";
    assert ParseConstant(y, modulusBits) == Ok(5, []);
    AtomFromConstant(y, modulusBits, minus, 5, []);
    FactorFromAtom(y, modulusBits, minus);
    FactorFromMinus(s, modulusBits, minus, y, Const(5), []);
    FactorToExpression(s, modulusBits, minus, ApplyMinus(minus, Const(5)), []);
  }

  // ---------------------------------------------------------------------
  // Expectation failures

  /** Text at which no operand can start. */
  predicate NoOperand(t: string)
  {
    var u := SkipSpace(t);
    u == [] || (u[0] != 'v' && u[0] != '(' && u[0] != '-' && u[0] != '+' && !IsDigit(u[0], 10))
  }

  lemma NoOperandSoft(t: string, modulusBits: nat, minus: MinusRule)
    requires NoOperand(t)
    ensures ParseFactor(t, modulusBits, minus) == Err(Soft)
    ensures ParseExponent(t, modulusBits, minus) == Err(Soft)
    ensures ParseTerm(t, modulusBits, minus) == Err(Soft)
  {
    var u := SkipSpace(t);
    assert TakeDigits(DropSign(u), 10, ConstWidth(modulusBits)) == [];
    assert ParseGateVariable(t).IsSoftFailure();
    AtomFails(t, modulusBits, minus);
  }

  /** `+` or `-` followed by no term is an expectation failure naming a term. */
  lemma DanglingSumOperator(e: Expr, plus: bool, modulusBits: nat, minus: MinusRule, t: string)
    requires modulusBits > 0 && InGrammar(e, modulusBits, minus) && NoOperand(t)
    ensures ParseExpression(ShowSum(e) + (if plus then PLUS else MINUS) + t, modulusBits, minus) == Err(Hard(TERM, t))
  {
    var op := if plus then PLUS else MINUS;
    var x := op + t;
    assert ShowSum(e) + op + t == ShowSum(e) + x;
    EndsAfterOperator(op[0], t);
    SumLemma(e, modulusBits, minus, x);
    LitMatches(op, t);
    if !plus {
      LitFails(x, PLUS);
    }
    NoOperandSoft(t, modulusBits, minus);
  }

  lemma TermFails(s: string, modulusBits: nat, minus: MinusRule, f: Failure)
    requires ParseTerm(s, modulusBits, minus) == Err(f)
    ensures ParseExpression(s, modulusBits, minus) == Err(f)
  {
  }

  /** `*` followed by no factor is an expectation failure naming the exponent
      rule. */
  lemma DanglingTimes(e: Expr, modulusBits: nat, minus: MinusRule, t: string)
    requires modulusBits > 0 && InGrammar(e, modulusBits, minus) && NoOperand(t)
    ensures ParseExpression(ShowProduct(e) + TIMES + t, modulusBits, minus) == Err(Hard(EXPONENT, t))
  {
    var x := TIMES + t;
    assert ShowProduct(e) + TIMES + t == ShowProduct(e) + x;
    EndsAfterOperator('*', t);
    ProductLemma(e, modulusBits, minus, x);
    LitMatches(TIMES, t);
    NoOperandSoft(t, modulusBits, minus);
    TermFails(ShowProduct(e) + x, modulusBits, minus, Hard(EXPONENT, t));
  }

  /** `^` followed by no unsigned integer is an expectation failure. */
  lemma DanglingCaret(b: Expr, modulusBits: nat, minus: MinusRule, t: string)
    requires modulusBits > 0 && InGrammar(b, modulusBits, minus)
    requires SkipSpace(t) == [] || !IsDigit(SkipSpace(t)[0], 10)
    ensures ParseExpression(ShowFactor(b) + CARET + t, modulusBits, minus) == Err(Hard(UNSIGNED_INTEGER, SkipSpace(t)))
  {
    var x := CARET + t;
    var s := ShowFactor(b) + CARET + t;
    assert s == ShowFactor(b) + x;
    FactorLemma(b, modulusBits, minus, x);
    LitMatches(CARET, t);
    Unsigned32NoDigit(t);
    ExponentCaretFails(s, modulusBits, minus, b, x, t);
    ExponentFails(s, modulusBits, minus, Hard(UNSIGNED_INTEGER, SkipSpace(t)));
  }

  lemma ExponentCaretFails(s: string, modulusBits: nat, minus: MinusRule, b: Expr, x1: string, x2: string)
    requires ParseFactor(s, modulusBits, minus) == Ok(b, x1)
    requires Lit(x1, CARET) == Ok((), x2) && Unsigned32(x2).Err?
    ensures ParseExponent(s, modulusBits, minus) == Err(Hard(UNSIGNED_INTEGER, SkipSpace(x2)))
  {
  }

  lemma ExponentFails(s: string, modulusBits: nat, minus: MinusRule, f: Failure)
    requires ParseExponent(s, modulusBits, minus) == Err(f)
    ensures ParseExpression(s, modulusBits, minus) == Err(f)
  {
    assert ParseTerm(s, modulusBits, minus) == Err(f);
    TermFails(s, modulusBits, minus, f);
  }

  /** An opening parenthesis whose expression is not followed by `)` is an
      expectation failure naming `)`. */
  lemma UnclosedParen(e: Expr, modulusBits: nat, minus: MinusRule, t: string)
    requires modulusBits > 0 && InGrammar(e, modulusBits, minus) && EndsSum(t) && !(CLOSE <= SkipSpace(t))
    ensures ParseFactor(OPEN + ShowSum(e) + t, modulusBits, minus) == Err(Hard(CLOSE, SkipSpace(t)))
  {
    var x := ShowSum(e) + t;
    var s := OPEN + ShowSum(e) + t;
    assert s == OPEN + x;
    assert |s| >= 2 by {
      assert |ShowSum(e)| > 0 by { ShowSumNonEmpty(e); }
    }
    NotAnAtom(s, modulusBits, minus);
    LitMatches(OPEN, x);
    SumLemma(e, modulusBits, minus, t);
    EndsSumStops(t);
    ExpressionTailStop(e, t, modulusBits, minus);
  }

  /** `(` followed by no expression is an expectation failure naming the
      expression rule. */
  lemma DanglingOpenParen(modulusBits: nat, minus: MinusRule, t: string)
    requires NoOperand(t)
    ensures ParseExpression(OPEN + t, modulusBits, minus) == Err(Hard(EXPRESSION, t))
  {
    var s := OPEN + t;
    SkipSpaceNoop(s);
    LitFails(s, VAR);
    assert TakeDigits(DropSign(s), 10, ConstWidth(modulusBits)) == [];
    AtomFails(s, modulusBits, minus);
    LitMatches(OPEN, t);
    NoOperandSoft(t, modulusBits, minus);
    assert ParseExpression(t, modulusBits, minus) == Err(Soft);
    FactorParenFails(s, modulusBits, minus, t);
    assert ParseExponent(s, modulusBits, minus) == Err(Hard(EXPRESSION, t));
    ExponentFails(s, modulusBits, minus, Hard(EXPRESSION, t));
  }

  lemma FactorParenFails(s: string, modulusBits: nat, minus: MinusRule, x1: string)
    requires ParseAtom(s, modulusBits, minus) == Err(Soft)
    requires Lit(s, OPEN) == Ok((), x1) && ParseExpression(x1, modulusBits, minus).IsSoftFailure()
    ensures ParseFactor(s, modulusBits, minus) == Err(Hard(EXPRESSION, x1))
  {
  }

  lemma ShowSumNonEmpty(e: Expr)
    ensures |ShowSum(e)| > 0
  {
    match e
    case Const(c) =>
      SignedDecimalShape(c, []);
      assert SignedDecimal(c) + [] == SignedDecimal(c);
      assert ShowSum(e) == ShowFactor(e) by { assert ShowProduct(e) == ShowPower(e) == ShowFactor(e); }
    case Var(v) =>
      assert ShowSum(e) == ShowFactor(e) by { assert ShowProduct(e) == ShowPower(e) == ShowFactor(e); }
      assert ShowFactor(e) == VAR + Decimal(v.index) + UNDERSCORE + ShowRotation(v.rotation, SignedRotation) + GateSuffixWord(v);
    case Add(_, _) =>
    case Sub(_, _) =>
    case Mul(_, _) =>
      assert ShowSum(e) == ShowProduct(e);
    case Power(_, _) =>
      assert ShowSum(e) == ShowPower(e) by { assert ShowProduct(e) == ShowPower(e); }
    case Neg(_) =>
      assert ShowSum(e) == ShowFactor(e) by { assert ShowProduct(e) == ShowPower(e) == ShowFactor(e); }
  }

  /** `^` applies at most once: after `b^j`, a second `^k` is left unread,
      so the line is not accepted. */
  lemma CaretAtMostOnce(b: Expr, j: uint32, k: uint32, modulusBits: nat, minus: MinusRule)
    requires modulusBits > 0 && InGrammar(b, modulusBits, minus)
    ensures ParseExpression(ShowPower(Power(b, j)) + (CARET + Decimal(k)), modulusBits, minus)
         == Ok(Power(b, j), CARET + Decimal(k))
    ensures WholeLine(ParseExpression(ShowPower(Power(b, j)) + (CARET + Decimal(k)), modulusBits, minus)).Err?
  {
    var t := CARET + Decimal(k);
    SkipSpaceNoop(t);
    LitFails(t, TIMES);
    LitFails(t, PLUS);
    LitFails(t, MINUS);
    PowerThen(b, j, modulusBits, minus, t);
  }

  /** `b^j` followed by text that neither continues the number nor starts a
      product or a sum operator. */
  lemma PowerThen(b: Expr, j: uint32, modulusBits: nat, minus: MinusRule, t: string)
    requires modulusBits > 0 && InGrammar(b, modulusBits, minus) && EndsFactor(t)
    requires Lit(t, TIMES).Err? && Lit(t, PLUS).Err? && Lit(t, MINUS).Err?
    ensures ParseExpression(ShowPower(Power(b, j)) + t, modulusBits, minus) == Ok(Power(b, j), t)
  {
    PowerLemma(Power(b, j), modulusBits, minus, t);
    ExponentToExpression(ShowPower(Power(b, j)) + t, modulusBits, minus, Power(b, j), t);
  }

  lemma ExponentToExpression(s: string, modulusBits: nat, minus: MinusRule, e: Expr, t: string)
    requires ParseExponent(s, modulusBits, minus) == Ok(e, t)
    requires Lit(t, TIMES).Err? && Lit(t, PLUS).Err? && Lit(t, MINUS).Err?
    ensures ParseExpression(s, modulusBits, minus) == Ok(e, t)
  {
    TermFrom(s, modulusBits, minus, e, t);
    TermTailStop(e, t, modulusBits, minus);
    ExpressionFrom(s, modulusBits, minus, e, t);
    ExpressionTailStop(e, t, modulusBits, minus);
  }

  // ---------------------------------------------------------------------
  // Associativity and precedence, on three variables

  lemma ShowVar(v: Variable)
    ensures ShowSum(Var(v)) == ShowGateVariable(v) && ShowProduct(Var(v)) == ShowGateVariable(v)
  {
    assert ShowPower(Var(v)) == ShowFactor(Var(v));
  }

  /** `a-b-c` is `(a-b)-c`, under either minus rule. */
  lemma SubtractionFoldsLeft(a: Variable, b: Variable, c: Variable, modulusBits: nat, minus: MinusRule)
    requires modulusBits > 0 && GateVariableOk(a) && GateVariableOk(b) && GateVariableOk(c)
    ensures ParseExpression(ShowGateVariable(a) + MINUS + ShowGateVariable(b) + MINUS + ShowGateVariable(c), modulusBits, minus)
         == Ok(Sub(Sub(Var(a), Var(b)), Var(c)), [])
  {
    var e := Sub(Sub(Var(a), Var(b)), Var(c));
    ShowVar(a); ShowVar(b); ShowVar(c);
    assert ShowSum(e) + [] == ShowGateVariable(a) + MINUS + ShowGateVariable(b) + MINUS + ShowGateVariable(c);
    ExpressionRoundTrip(e, modulusBits, minus, []);
  }

  lemma RegroupRight(x: string, op1: string, y: string, op2: string, z: string)
    ensures x + op1 + (y + op2 + z) + [] == x + op1 + y + op2 + z
  {
  }

  lemma ProductRightOfSum(a: Variable, b: Variable, c: Variable, modulusBits: nat, minus: MinusRule)
    requires modulusBits > 0 && GateVariableOk(a) && GateVariableOk(b) && GateVariableOk(c)
    ensures ParseExpression(ShowGateVariable(a) + PLUS + ShowGateVariable(b) + TIMES + ShowGateVariable(c), modulusBits, minus)
         == Ok(Add(Var(a), Mul(Var(b), Var(c))), [])
  {
    var e := Add(Var(a), Mul(Var(b), Var(c)));
    ShowVar(a); ShowVar(b);
    assert ShowPower(Var(c)) == ShowGateVariable(c) by { assert ShowPower(Var(c)) == ShowFactor(Var(c)); }
    assert ShowProduct(Mul(Var(b), Var(c))) == ShowGateVariable(b) + TIMES + ShowGateVariable(c);
    assert ShowSum(e) == ShowGateVariable(a) + PLUS + (ShowGateVariable(b) + TIMES + ShowGateVariable(c));
    RegroupRight(ShowGateVariable(a), PLUS, ShowGateVariable(b), TIMES, ShowGateVariable(c));
    ExpressionRoundTrip(e, modulusBits, minus, []);
  }

  lemma ProductLeftOfSum(a: Variable, b: Variable, c: Variable, modulusBits: nat, minus: MinusRule)
    requires modulusBits > 0 && GateVariableOk(a) && GateVariableOk(b) && GateVariableOk(c)
    ensures ParseExpression(ShowGateVariable(a) + TIMES + ShowGateVariable(b) + PLUS + ShowGateVariable(c), modulusBits, minus)
         == Ok(Add(Mul(Var(a), Var(b)), Var(c)), [])
  {
    var e := Add(Mul(Var(a), Var(b)), Var(c));
    ShowVar(a); ShowVar(c);
    assert ShowPower(Var(b)) == ShowGateVariable(b) by { assert ShowPower(Var(b)) == ShowFactor(Var(b)); }
    assert ShowSum(Mul(Var(a), Var(b))) == ShowProduct(Mul(Var(a), Var(b)));
    assert ShowSum(e) + [] == ShowGateVariable(a) + TIMES + ShowGateVariable(b) + PLUS + ShowGateVariable(c);
    ExpressionRoundTrip(e, modulusBits, minus, []);
  }

  /** `*` binds tighter than `+`, whichever side the product is on, under
      either minus rule. */
  lemma ProductBindsTighter(a: Variable, b: Variable, c: Variable, modulusBits: nat, minus: MinusRule)
    requires modulusBits > 0 && GateVariableOk(a) && GateVariableOk(b) && GateVariableOk(c)
    ensures ParseExpression(ShowGateVariable(a) + PLUS + ShowGateVariable(b) + TIMES + ShowGateVariable(c), modulusBits, minus)
         == Ok(Add(Var(a), Mul(Var(b), Var(c))), [])
    ensures ParseExpression(ShowGateVariable(a) + TIMES + ShowGateVariable(b) + PLUS + ShowGateVariable(c), modulusBits, minus)
         == Ok(Add(Mul(Var(a), Var(b)), Var(c)), [])
  {
    ProductRightOfSum(a, b, c, modulusBits, minus);
    ProductLeftOfSum(a, b, c, modulusBits, minus);
  }
}
