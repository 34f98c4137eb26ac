/** The three header grammars of src/parsers.hpp: the table-size header,
    the circuit-size header and the gate header.

    Each is a Qi expectation sequence `lit(k1) > uint_ > lit(k2) > uint_ > ...`
    adapted into a record whose fields receive the numbers in order.  Only
    the first literal may fail softly; every later component that does not
    match raises an expectation failure naming it.  `ParseKeyed` is that
    sequence for a list of keys, and each header is one instance of it.
 */
module Headers {
  import opened ParseResult
  import opened Lexeme

  datatype TableSizes = TableSizes(
    witnessesSize: uint32,
    publicInputsSize: uint32,
    constantsSize: uint32,
    selectorsSize: uint32,
    maxSize: uint32)

  datatype CircuitSizes = CircuitSizes(
    gatesSize: uint32,
    copyConstraintsSize: uint32,
    lookupGatesSize: uint32)

  datatype GateHeader = GateHeader(
    selectorIndex: uint32,
    constraintsSize: uint32)

  const TABLE_SIZES_KEYS: seq<string> :=
    ["witnesses_size:", "public_inputs_size:", "constants_size:", "selectors_size:", "max_size:"]
  const CIRCUIT_SIZES_KEYS: seq<string> :=
    ["gates_size:", "copy_constraints_size:", "lookup_gates_size:"]
  const GATE_HEADER_KEYS: seq<string> :=
    ["selector:", "constraints_size:"]

  /** A key starts with a character that is neither whitespace nor a digit. */
  predicate WellFormedKeys(keys: seq<string>)
  {
    forall i :: 0 <= i < |keys| ==> keys[i] != [] && !IsSpace(keys[i][0]) && !IsDigit(keys[i][0], 10)
  }

  // ---------------------------------------------------------------------
  // The keyed sequence

  /** One pair `lit(key) > uint_`.  The literal may fail softly only when
      it opens the whole sequence (`first`); otherwise its failure is an
      expectation failure naming the key.  Both primitives skip blanks on
      the sequence's own position before they fail, so an expectation
      failure is reported after the skipped blanks. */
  function KeyValue(s: string, key: string, first: bool): (r: Parsed<uint32>)
    ensures r.Ok? ==> SuffixOf(r.rest, s)
    ensures r.IsHardFailure() ==> SuffixOf(r.failure.at, s)
    ensures r.IsSoftFailure() <==> first && !(key <= SkipSpace(s))
  {
    var lit := if first then Lit(s, key) else Expect(Lit(s, key), key, SkipSpace(s));
    if lit.Err? then lit.PropagateFailure()
    else
      var n := Expect(Unsigned32(lit.rest), UNSIGNED_INTEGER, SkipSpace(lit.rest));
      if n.Ok? then SuffixOfTransitive(n.rest, lit.rest, s); n
      else FailureWithin(n.failure, lit.rest, s); n
  }

  /** `lit(keys[0]) > uint_ > lit(keys[1]) > uint_ > ...`; `first` says
      whether the first literal opens the sequence (and so may fail softly). */
  function ParseKeyed(s: string, keys: seq<string>, first: bool): (r: Parsed<seq<uint32>>)
    ensures r.Ok? ==> |r.value| == |keys| && SuffixOf(r.rest, s)
    ensures r.IsHardFailure() ==> SuffixOf(r.failure.at, s)
    ensures !first ==> !r.IsSoftFailure()
    ensures first && keys != [] ==> (r.IsSoftFailure() <==> !(keys[0] <= SkipSpace(s)))
    decreases |keys|
  {
    if keys == [] then Ok([], s)
    else
      match KeyValue(s, keys[0], first)
      case Err(f) => Err(f)
      case Ok(n, afterValue) =>
        match ParseKeyed(afterValue, keys[1..], false)
        case Err(f) => FailureWithin(f, afterValue, s); Err(f)
        case Ok(more, rest) =>
          SuffixOfTransitive(rest, afterValue, s);
          Ok([n] + more, rest)
  }

  /** The canonical text of a keyed sequence: `key value` pairs separated by
      one blank, the first preceded by `sep`. */
  function ShowKeyed(keys: seq<string>, values: seq<nat>, sep: string): string
    requires |keys| == |values|
  {
    if keys == [] then []
    else sep + keys[0] + " " + Decimal(values[0]) + ShowKeyed(keys[1..], values[1..], " ")
  }

  lemma Unsigned32AfterBlank(s: string)
    ensures Unsigned32(" " + s) == Unsigned32(s)
  {
    SkipSpaceBlank(s);
  }

  lemma ShowKeyedStart(keys: seq<string>, values: seq<nat>, t: string)
    requires |keys| == |values| && WellFormedKeys(keys)
    ensures ShowKeyed(keys, values, " ") + t == [] || !IsDigit((ShowKeyed(keys, values, " ") + t)[0], 10) ||
            (keys == [] && t != [] && IsDigit(t[0], 10))
  {
  }

  lemma KeyValueOk(s: string, key: string, first: bool, afterKey: string, v: uint32, x: string)
    requires Lit(s, key) == Ok((), afterKey)
    requires Unsigned32(afterKey) == Ok(v, x)
    ensures KeyValue(s, key, first) == Ok(v, x)
  {
  }

  /** The key of a canonical pair, after an optional blank. */
  lemma KeyText(key: string, sep: string, u: string, s: string)
    requires key != [] && !IsSpace(key[0])
    requires sep == "" || sep == " "
    requires s == sep + key + " " + u
    ensures Lit(s, key) == Ok((), " " + u)
  {
    assert s == sep + key + (" " + u);
    if sep == " " {
      LitAfterBlank(key, " " + u);
    } else {
      LitMatches(key, " " + u);
    }
  }

  /** The number of a canonical pair, after its blank. */
  lemma NumberText(v: uint32, x: string, u: string)
    requires x == [] || !IsDigit(x[0], 10)
    requires u == Decimal(v) + x
    ensures Unsigned32(" " + u) == Ok(v, x)
  {
    Unsigned32AfterBlank(u);
    Unsigned32RoundTrip(v, x);
  }

  lemma KeyValueRoundTrip(key: string, v: uint32, sep: string, x: string, first: bool)
    requires key != [] && !IsSpace(key[0])
    requires sep == "" || sep == " "
    requires x == [] || !IsDigit(x[0], 10)
    ensures KeyValue(sep + key + " " + Decimal(v) + x, key, first) == Ok(v, x)
  {
    var u := Decimal(v) + x;
    var s := sep + key + " " + u;
    assert sep + key + " " + Decimal(v) + x == s;
    KeyText(key, sep, u, s);
    NumberText(v, x, u);
    KeyValueOk(s, key, first, " " + u, v, x);
  }

  lemma ShowKeyedSplit(keys: seq<string>, values: seq<nat>, sep: string, t: string)
    requires 0 < |values| == |keys|
    ensures ShowKeyed(keys, values, sep) + t
         == sep + keys[0] + " " + Decimal(values[0]) + (ShowKeyed(keys[1..], values[1..], " ") + t)
  {
  }

  /** One step of the keyed sequence, over abstract texts. */
  lemma KeyedStep(s: string, keys: seq<string>, first: bool, values: seq<uint32>, x: string, r: Parsed<seq<uint32>>)
    requires keys != [] && values != []
    requires KeyValue(s, keys[0], first) == Ok(values[0], x)
    requires ParseKeyed(x, keys[1..], false) == Prepend(values[1..], r)
    ensures ParseKeyed(s, keys, first) == Prepend(values, r)
  {
    assert [values[0]] + values[1..] == values;
    PrependTwice([values[0]], values[1..], r);
  }

  /** The first pair of the canonical text reads back. */
  lemma KeyedHead(keys: seq<string>, values: seq<uint32>, sep: string, t: string, first: bool, s: string, x: string)
    requires 0 < |values| <= |keys| && WellFormedKeys(keys)
    requires sep == "" || sep == " "
    requires t == [] || !IsDigit(t[0], 10)
    requires s == ShowKeyed(keys[..|values|], values, sep) + t
    requires x == ShowKeyed(keys[..|values|][1..], values[1..], " ") + t
    ensures KeyValue(s, keys[0], first) == Ok(values[0], x)
  {
    var ks := keys[..|values|];
    ShowKeyedSplit(ks, values, sep, t);
    ShowKeyedStart(ks[1..], values[1..], t);
    KeyValueRoundTrip(keys[0], values[0], sep, x, first);
  }

  lemma KeyedSlices(keys: seq<string>, n: nat)
    requires 0 < n <= |keys|
    ensures keys[..n][1..] == keys[1..][..n - 1] && keys[1..][n - 1..] == keys[n..]
  {
  }

  /** Reading the first `|values|` pairs of the canonical text `s` leaves `t`,
      where the rest of the sequence takes over. */
  lemma {:induction false} KeyedPrefix(keys: seq<string>, values: seq<uint32>, sep: string, t: string, first: bool, s: string)
    requires 0 < |values| <= |keys| && WellFormedKeys(keys)
    requires sep == "" || sep == " "
    requires t == [] || !IsDigit(t[0], 10)
    requires s == ShowKeyed(keys[..|values|], values, sep) + t
    ensures ParseKeyed(s, keys, first) == Prepend(values, ParseKeyed(t, keys[|values|..], false))
    decreases |values|
  {
    var n := |values|;
    var x := ShowKeyed(keys[..n][1..], values[1..], " ") + t;
    var r := ParseKeyed(t, keys[n..], false);
    KeyedHead(keys, values, sep, t, first, s, x);
    KeyedSlices(keys, n);
    if n == 1 {
      assert x == t;
      PrependNothing(values[1..], r);
    } else {
      KeyedPrefix(keys[1..], values[1..], " ", t, false, x);
    }
    KeyedStep(s, keys, first, values, x, r);
  }

  lemma KeyedRoundTrip(keys: seq<string>, values: seq<uint32>, t: string)
    requires 0 < |values| == |keys| && WellFormedKeys(keys)
    requires t == [] || !IsDigit(t[0], 10)
    ensures ParseKeyed(ShowKeyed(keys, values, "") + t, keys, true) == Ok(values, t)
  {
    assert keys[..|values|] == keys;
    KeyedPrefix(keys, values, "", t, true, ShowKeyed(keys, values, "") + t);
    assert values + [] == values;
  }

  lemma KeyValueNoNumber(s: string, key: string, first: bool, afterKey: string)
    requires Lit(s, key) == Ok((), afterKey)
    requires Unsigned32(afterKey).Err?
    ensures KeyValue(s, key, first) == Err(Hard(UNSIGNED_INTEGER, SkipSpace(afterKey)))
  {
  }

  lemma KeyValueNoKey(s: string, key: string)
    requires !(key <= SkipSpace(s))
    ensures KeyValue(s, key, false) == Err(Hard(key, SkipSpace(s)))
  {
  }

  lemma KeyedErr(s: string, keys: seq<string>, first: bool, f: Failure)
    requires keys != [] && KeyValue(s, keys[0], first) == Err(f)
    ensures ParseKeyed(s, keys, first) == Err(f)
  {
  }

  /** A successful keyed sequence is its first pair followed by the
      sequence of the remaining keys. */
  lemma KeyedOkParts(s: string, keys: seq<string>, first: bool, values: seq<uint32>, t: string)
    returns (v: uint32, x: string, more: seq<uint32>)
    requires keys != [] && ParseKeyed(s, keys, first) == Ok(values, t)
    ensures KeyValue(s, keys[0], first) == Ok(v, x)
    ensures ParseKeyed(x, keys[1..], false) == Ok(more, t)
    ensures values == [v] + more
  {
    v := KeyValue(s, keys[0], first).value;
    x := KeyValue(s, keys[0], first).rest;
    more := ParseKeyed(x, keys[1..], false).value;
  }

  /** The first pair followed by the sequence of the remaining keys. */
  lemma KeyedSplitStep(s: string, keys: seq<string>, tail: seq<string>, first: bool, v: uint32, x: string, more: seq<uint32>, r: Parsed<seq<uint32>>)
    requires keys != [] && keys[1..] == tail
    requires KeyValue(s, keys[0], first) == Ok(v, x)
    requires ParseKeyed(x, tail, false) == Prepend(more, r)
    ensures ParseKeyed(s, keys, first) == Prepend([v] + more, r)
  {
    assert ([v] + more)[0] == v && ([v] + more)[1..] == more;
    KeyedStep(s, keys, first, [v] + more, x, r);
  }

  lemma SliceAt<T>(s: seq<T>, n: nat)
    requires n < |s|
    ensures s[..n] + s[n..] == s && s[n..] != [] && s[n..][0] == s[n]
  {
  }

  lemma ConcatHead<T>(a: seq<T>, b: seq<T>)
    requires a != []
    ensures a + b != [] && (a + b)[0] == a[0] && (a + b)[1..] == a[1..] + b
  {
  }

  /** Whatever text the keys `a` read, the keys `b` after them continue
      from where they stopped: the sequence splits after any of its pairs. */
  lemma {:induction false} KeyedSplit(s: string, a: seq<string>, b: seq<string>, first: bool, values: seq<uint32>, t: string)
    requires a != [] && ParseKeyed(s, a, first) == Ok(values, t)
    ensures ParseKeyed(s, a + b, first) == Prepend(values, ParseKeyed(t, b, false))
    decreases |a|
  {
    var v, x, more := KeyedOkParts(s, a, first, values, t);
    var r := ParseKeyed(t, b, false);
    if a[1..] == [] {
      assert a[1..] + b == b;
      PrependNothing(more, r);
    } else {
      KeyedSplit(x, a[1..], b, false, more, t);
    }
    ConcatHead(a, b);
    KeyedSplitStep(s, a + b, a[1..] + b, first, v, x, more, r);
  }

  /** A pair that fails after the first `n` keys read makes the whole
      sequence fail the same way. */
  lemma KeyedFailsAfter(s: string, keys: seq<string>, n: nat, values: seq<uint32>, x: string, f: Failure)
    requires 0 < n < |keys|
    requires ParseKeyed(s, keys[..n], true) == Ok(values, x)
    requires KeyValue(x, keys[n], false) == Err(f)
    ensures ParseKeyed(s, keys, true) == Err(f)
  {
    SliceAt(keys, n);
    KeyedErr(x, keys[n..], false, f);
    KeyedSplit(s, keys[..n], keys[n..], true, values, x);
  }

  /** After any text the first `n` keys read, text that does not continue
      with the next key is an expectation failure naming that key, after
      the skipped blanks. */
  lemma KeyedMissingKey(s: string, keys: seq<string>, n: nat, values: seq<uint32>, t: string)
    requires 0 < n < |keys|
    requires ParseKeyed(s, keys[..n], true) == Ok(values, t)
    requires !(keys[n] <= SkipSpace(t))
    ensures ParseKeyed(s, keys, true) == Err(Hard(keys[n], SkipSpace(t)))
  {
    KeyValueNoKey(t, keys[n]);
    KeyedFailsAfter(s, keys, n, values, t, Hard(keys[n], SkipSpace(t)));
  }

  /** The opening key with no 32-bit number after it. */
  lemma KeyedFirstNoNumber(s: string, keys: seq<string>, y: string)
    requires keys != []
    requires Lit(s, keys[0]) == Ok((), y)
    requires Unsigned32(y).Err?
    ensures ParseKeyed(s, keys, true) == Err(Hard(UNSIGNED_INTEGER, SkipSpace(y)))
  {
    KeyValueNoNumber(s, keys[0], true, y);
    KeyedErr(s, keys, true, Hard(UNSIGNED_INTEGER, SkipSpace(y)));
  }

  /** After any text the first `n` keys read, the next key with no 32-bit
      number after it is an expectation failure naming `uint_`, after the
      skipped blanks.  This covers a missing number and one too large. */
  lemma KeyedMissingValue(s: string, keys: seq<string>, n: nat, values: seq<uint32>, x: string, y: string)
    requires n < |keys|
    requires ParseKeyed(s, keys[..n], true) == Ok(values, x)
    requires Lit(x, keys[n]) == Ok((), y)
    requires Unsigned32(y).Err?
    ensures ParseKeyed(s, keys, true) == Err(Hard(UNSIGNED_INTEGER, SkipSpace(y)))
  {
    var f := Hard(UNSIGNED_INTEGER, SkipSpace(y));
    if n == 0 {
      assert x == s;
      KeyedFirstNoNumber(s, keys, y);
    } else {
      KeyValueNoNumber(x, keys[n], false, y);
      KeyedFailsAfter(s, keys, n, values, x, f);
    }
  }

  // ---------------------------------------------------------------------
  // The three headers

  function ParseTableSizes(s: string): (r: Parsed<TableSizes>)
    ensures r.Ok? ==> SuffixOf(r.rest, s)
    ensures r.IsSoftFailure() <==> !("witnesses_size:" <= SkipSpace(s))
  {
    var vs :- ParseKeyed(s, TABLE_SIZES_KEYS, true);
    Ok(TableSizes(vs.value[0], vs.value[1], vs.value[2], vs.value[3], vs.value[4]), vs.rest)
  }

  function ParseCircuitSizes(s: string): (r: Parsed<CircuitSizes>)
    ensures r.Ok? ==> SuffixOf(r.rest, s)
    ensures r.IsSoftFailure() <==> !("gates_size:" <= SkipSpace(s))
  {
    var vs :- ParseKeyed(s, CIRCUIT_SIZES_KEYS, true);
    Ok(CircuitSizes(vs.value[0], vs.value[1], vs.value[2]), vs.rest)
  }

  function ParseGateHeader(s: string): (r: Parsed<GateHeader>)
    ensures r.Ok? ==> SuffixOf(r.rest, s)
    ensures r.IsSoftFailure() <==> !("selector:" <= SkipSpace(s))
  {
    var vs :- ParseKeyed(s, GATE_HEADER_KEYS, true);
    Ok(GateHeader(vs.value[0], vs.value[1]), vs.rest)
  }

  function TableSizesValues(ts: TableSizes): seq<uint32>
  {
    [ts.witnessesSize, ts.publicInputsSize, ts.constantsSize, ts.selectorsSize, ts.maxSize]
  }

  function CircuitSizesValues(cs: CircuitSizes): seq<uint32>
  {
    [cs.gatesSize, cs.copyConstraintsSize, cs.lookupGatesSize]
  }

  function GateHeaderValues(g: GateHeader): seq<uint32>
  {
    [g.selectorIndex, g.constraintsSize]
  }

  /** `witnesses_size: W public_inputs_size: P constants_size: C selectors_size: S max_size: M` */
  function ShowTableSizes(ts: TableSizes): string
  {
    ShowKeyed(TABLE_SIZES_KEYS, TableSizesValues(ts), "")
  }

  function ShowCircuitSizes(cs: CircuitSizes): string
  {
    ShowKeyed(CIRCUIT_SIZES_KEYS, CircuitSizesValues(cs), "")
  }

  function ShowGateHeader(g: GateHeader): string
  {
    ShowKeyed(GATE_HEADER_KEYS, GateHeaderValues(g), "")
  }

  lemma TableSizesKeysWellFormed()
    ensures WellFormedKeys(TABLE_SIZES_KEYS)
  {
  }

  lemma TableSizesRoundTrip(ts: TableSizes, t: string)
    requires t == [] || !IsDigit(t[0], 10)
    ensures ParseTableSizes(ShowTableSizes(ts) + t) == Ok(ts, t)
  {
    TableSizesKeysWellFormed();
    KeyedRoundTrip(TABLE_SIZES_KEYS, TableSizesValues(ts), t);
  }

  lemma CircuitSizesRoundTrip(cs: CircuitSizes, t: string)
    requires t == [] || !IsDigit(t[0], 10)
    ensures ParseCircuitSizes(ShowCircuitSizes(cs) + t) == Ok(cs, t)
  {
    KeyedRoundTrip(CIRCUIT_SIZES_KEYS, CircuitSizesValues(cs), t);
  }

  lemma GateHeaderRoundTrip(g: GateHeader, t: string)
    requires t == [] || !IsDigit(t[0], 10)
    ensures ParseGateHeader(ShowGateHeader(g) + t) == Ok(g, t)
  {
    KeyedRoundTrip(GATE_HEADER_KEYS, GateHeaderValues(g), t);
  }

  /** A table-size header that stops before `max_size:` fails, naming the
      missing key, whatever the first four numbers were. */
  lemma TableSizesMissingMaxSize(ts: TableSizes, t: string)
    requires t == [] || !IsDigit(t[0], 10)
    requires !("max_size:" <= SkipSpace(t))
    ensures ParseTableSizes(ShowKeyed(TABLE_SIZES_KEYS[..4], TableSizesValues(ts)[..4], "") + t)
         == Err(Hard("max_size:", SkipSpace(t)))
  {
    var ks := TABLE_SIZES_KEYS[..4];
    var vs := TableSizesValues(ts)[..4];
    var s := ShowKeyed(ks, vs, "") + t;
    assert WellFormedKeys(ks) by { TableSizesKeysWellFormed(); }
    KeyedRoundTrip(ks, vs, t);
    KeyedMissingKey(s, TABLE_SIZES_KEYS, 4, vs, t);
  }

  /** A table-sizes header whose first key has no 32-bit number after it. */
  lemma TableSizesNoNumber(s: string, y: string)
    requires Lit(s, TABLE_SIZES_KEYS[0]) == Ok((), y)
    requires Unsigned32(y).Err?
    ensures ParseTableSizes(s) == Err(Hard(UNSIGNED_INTEGER, SkipSpace(y)))
  {
    KeyedFirstNoNumber(s, TABLE_SIZES_KEYS, y);
  }

  /** A blank and then a number too large for 32 bits. */
  lemma OverflowAfterBlank(n: nat, t: string, u: string)
    requires n >= UINT32_LIMIT && (t == [] || !IsDigit(t[0], 10))
    requires u == Decimal(n) + t
    ensures Unsigned32(" " + u).Err?
    ensures SkipSpace(" " + u) == u
  {
    Unsigned32AfterBlank(u);
    Unsigned32Overflow(n, t);
    SkipSpaceBlank(u);
    SkipSpaceNoop(u);
  }

  lemma RegroupKeyed(k: string, d: string, t: string)
    ensures k + " " + d + t == k + (" " + (d + t))
  {
  }

  /** A header number that does not fit in 32 bits is an expectation
      failure naming `uint_`: it is neither truncated nor wrapped. */
  lemma TableSizesRejectsOverflow(n: nat, t: string)
    requires n >= UINT32_LIMIT && (t == [] || !IsDigit(t[0], 10))
    ensures ParseTableSizes(TABLE_SIZES_KEYS[0] + " " + Decimal(n) + t) == Err(Hard(UNSIGNED_INTEGER, Decimal(n) + t))
  {
    var u := Decimal(n) + t;
    var y := " " + u;
    var s := TABLE_SIZES_KEYS[0] + y;
    RegroupKeyed(TABLE_SIZES_KEYS[0], Decimal(n), t);
    LitMatches(TABLE_SIZES_KEYS[0], y);
    OverflowAfterBlank(n, t, u);
    TableSizesNoNumber(s, y);
  }
}
