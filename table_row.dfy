/** The table-row grammar of src/parsers.hpp.

    A row is `repeat(w)[hex] > '|' > repeat(p)[hex] > '|' > repeat(c)[hex] >
    '|' > repeat(s)[hex]`, where `w`, `p`, `c`, `s` are the four region sizes
    of the table-size header and `hex` is `uint_parser<integral_type, 16, 1,
    D>` with `D = (modulus_bits + 3) / 4`.  The four regions' cells are
    collected into one sequence, in region order.
 */
module TableRow {
  import opened ParseResult
  import opened Lexeme
  import opened Headers

  /** The digit bound of a cell: the hex digits needed for `modulusBits` bits. */
  function HexWidth(modulusBits: nat): nat
  {
    (modulusBits + 4 - 1) / 4
  }

  /** One cell: one to `HexWidth` hex digits, not reduced modulo the prime. */
  function HexCell(s: string, modulusBits: nat): (r: Parsed<nat>)
    ensures r.Ok? ==> SuffixOf(r.rest, s) && |r.rest| < |s|
    ensures r.Ok? ==> r.value < Pow(16, HexWidth(modulusBits))
    ensures r.Err? ==> r.failure == Soft
  {
    BoundedUnsigned(s, 16, HexWidth(modulusBits))
  }

  predicate CellsBounded(cells: seq<nat>, modulusBits: nat)
  {
    forall i :: 0 <= i < |cells| ==> cells[i] < Pow(16, HexWidth(modulusBits))
  }

  /** `repeat(n)[hex]`: exactly `n` cells; fewer is a plain failure, and the
      parser never looks past the `n`-th cell. */
  function Repeat(s: string, n: nat, modulusBits: nat): (r: Parsed<seq<nat>>)
    ensures r.Ok? ==> |r.value| == n && CellsBounded(r.value, modulusBits)
    ensures r.Ok? ==> SuffixOf(r.rest, s) && |r.rest| <= |s| - n
    ensures r.Err? ==> r.failure == Soft
    decreases n
  {
    if n == 0 then Ok([], s)
    else
      match HexCell(s, modulusBits)
      case Err(_) => Err(Soft)
      case Ok(c, x) =>
        match Repeat(x, n - 1, modulusBits)
        case Err(f) => Err(f)
        case Ok(cs, rest) =>
          SuffixOfTransitive(rest, x, s);
          Ok([c] + cs, rest)
  }

  const BAR: string := "|"
  const HEX_CELLS: string := "hex cells"

  /** `'|' > repeat(n)[hex]`, a region after the first: both parts are
      expected, so it never fails softly.  A missing bar is reported after
      the blanks the literal skipped; too few cells are reported right
      after the bar, since `repeat` works on its own copy of the position. */
  function BarThenCells(s: string, n: nat, modulusBits: nat): (r: Parsed<seq<nat>>)
    ensures r.Ok? ==> |r.value| == n && CellsBounded(r.value, modulusBits) && SuffixOf(r.rest, s)
    ensures r.Err? ==> r.failure.Hard? && SuffixOf(r.failure.at, s)
  {
    var bar :- Expect(Lit(s, BAR), BAR, SkipSpace(s));
    var cells := Expect(Repeat(bar.rest, n, modulusBits), HEX_CELLS, bar.rest);
    if cells.Ok? then SuffixOfTransitive(cells.rest, bar.rest, s); cells
    else cells
  }

  lemma BoundedJoin(a: seq<nat>, b: seq<nat>, modulusBits: nat)
    requires CellsBounded(a, modulusBits) && CellsBounded(b, modulusBits)
    ensures CellsBounded(a + b, modulusBits)
  {
  }

  /** The whole row.  Only the witness region may fail softly; every later
      component is expected. */
  function ParseRow(s: string, sizes: TableSizes, modulusBits: nat): (r: Parsed<seq<nat>>)
    ensures r.Ok? ==> |r.value| == sizes.witnessesSize + sizes.publicInputsSize + sizes.constantsSize + sizes.selectorsSize
    ensures r.Ok? ==> CellsBounded(r.value, modulusBits) && SuffixOf(r.rest, s)
    ensures r.IsHardFailure() ==> SuffixOf(r.failure.at, s)
    ensures r.IsSoftFailure() <==> Repeat(s, sizes.witnessesSize, modulusBits).Err?
  {
    var w :- Repeat(s, sizes.witnessesSize, modulusBits);
    var p := BarThenCells(w.rest, sizes.publicInputsSize, modulusBits);
    if p.Err? then FailureWithin(p.failure, w.rest, s); p else
    var c := BarThenCells(p.rest, sizes.constantsSize, modulusBits);
    SuffixOfTransitive(p.rest, w.rest, s);
    if c.Err? then FailureWithin(c.failure, p.rest, s); c else
    var sel := BarThenCells(c.rest, sizes.selectorsSize, modulusBits);
    SuffixOfTransitive(c.rest, p.rest, s);
    if sel.Err? then FailureWithin(sel.failure, c.rest, s); sel else
    SuffixOfTransitive(sel.rest, c.rest, s);
    BoundedJoin(w.value, p.value, modulusBits);
    BoundedJoin(w.value + p.value, c.value, modulusBits);
    BoundedJoin(w.value + p.value + c.value, sel.value, modulusBits);
    Ok(w.value + p.value + c.value + sel.value, sel.rest)
  }

  // ---------------------------------------------------------------------
  // Canonical text and round trip

  /** Each cell as a blank and `width` hex digits. */
  function ShowCells(cells: seq<nat>, width: nat): string
  {
    if cells == [] then [] else " " + FixedHex(cells[0], width) + ShowCells(cells[1..], width)
  }

  /** A row's text: the four regions separated by ` |`. */
  function ShowRow(ws: seq<nat>, ps: seq<nat>, cs: seq<nat>, ss: seq<nat>, width: nat): string
  {
    var sep := " " + BAR;
    ShowCells(ws, width) + sep + ShowCells(ps, width) + sep + ShowCells(cs, width) + sep + ShowCells(ss, width)
  }

  lemma HexCellRoundTrip(c: nat, modulusBits: nat, x: string)
    requires HexWidth(modulusBits) > 0 && c < Pow(16, HexWidth(modulusBits))
    ensures HexCell(" " + FixedHex(c, HexWidth(modulusBits)) + x, modulusBits) == Ok(c, x)
  {
    var d := HexWidth(modulusBits);
    assert " " + FixedHex(c, d) + x == " " + (FixedHex(c, d) + x);
    BoundedUnsignedAfterBlank(FixedHex(c, d) + x, 16, d);
    BoundedUnsignedRoundTrip(c, d, d, x);
  }

  lemma RepeatStep(s: string, n: nat, modulusBits: nat, c: nat, x: string)
    requires n > 0 && HexCell(s, modulusBits) == Ok(c, x)
    ensures Repeat(s, n, modulusBits) == Prepend([c], Repeat(x, n - 1, modulusBits))
  {
  }

  lemma RepeatFails(s: string, n: nat, modulusBits: nat)
    requires n > 0 && HexCell(s, modulusBits).Err?
    ensures Repeat(s, n, modulusBits) == Err(Soft)
  {
  }

  lemma ShowCellsCons(cells: seq<nat>, d: nat, t: string)
    requires cells != []
    ensures ShowCells(cells, d) + t == " " + FixedHex(cells[0], d) + (ShowCells(cells[1..], d) + t)
  {
  }

  lemma {:induction false} RepeatRoundTrip(cells: seq<nat>, modulusBits: nat, t: string)
    requires HexWidth(modulusBits) > 0 && CellsBounded(cells, modulusBits)
    ensures Repeat(ShowCells(cells, HexWidth(modulusBits)) + t, |cells|, modulusBits) == Ok(cells, t)
    decreases |cells|
  {
    var d := HexWidth(modulusBits);
    if cells == [] {
      assert ShowCells(cells, d) + t == t;
    } else {
      var tail := ShowCells(cells[1..], d) + t;
      ShowCellsCons(cells, d, t);
      HexCellRoundTrip(cells[0], modulusBits, tail);
      RepeatStep(ShowCells(cells, d) + t, |cells|, modulusBits, cells[0], tail);
      RepeatRoundTrip(cells[1..], modulusBits, t);
      assert [cells[0]] + cells[1..] == cells;
    }
  }

  lemma BarThenCellsOk(s: string, n: nat, modulusBits: nat, x: string, cells: seq<nat>, t: string)
    requires Lit(s, BAR) == Ok((), x) && Repeat(x, n, modulusBits) == Ok(cells, t)
    ensures BarThenCells(s, n, modulusBits) == Ok(cells, t)
  {
  }

  lemma BarThenCellsRoundTrip(cells: seq<nat>, modulusBits: nat, t: string)
    requires HexWidth(modulusBits) > 0 && CellsBounded(cells, modulusBits)
    ensures BarThenCells(" " + BAR + ShowCells(cells, HexWidth(modulusBits)) + t, |cells|, modulusBits) == Ok(cells, t)
  {
    var x := ShowCells(cells, HexWidth(modulusBits)) + t;
    assert " " + BAR + ShowCells(cells, HexWidth(modulusBits)) + t == " " + BAR + x;
    LitAfterBlank(BAR, x);
    RepeatRoundTrip(cells, modulusBits, t);
    BarThenCellsOk(" " + BAR + x, |cells|, modulusBits, x, cells, t);
  }

  lemma RowOk(s: string, sizes: TableSizes, modulusBits: nat,
              ws: seq<nat>, x1: string, ps: seq<nat>, x2: string, cs: seq<nat>, x3: string, ss: seq<nat>, t: string)
    requires Repeat(s, sizes.witnessesSize, modulusBits) == Ok(ws, x1)
    requires BarThenCells(x1, sizes.publicInputsSize, modulusBits) == Ok(ps, x2)
    requires BarThenCells(x2, sizes.constantsSize, modulusBits) == Ok(cs, x3)
    requires BarThenCells(x3, sizes.selectorsSize, modulusBits) == Ok(ss, t)
    ensures ParseRow(s, sizes, modulusBits) == Ok(ws + ps + cs + ss, t)
  {
  }

  lemma RegroupRow(a: string, sep: string, b: string, c: string, d: string, t: string)
    ensures a + sep + b + sep + c + sep + d + t == a + (sep + b + (sep + c + (sep + d + t)))
  {
  }

  /** The canonical text of any four regions of the declared sizes, whose
      cells fit the digit bound, reads back as those cells in region order,
      whatever follows. */
  lemma RowRoundTrip(sizes: TableSizes, modulusBits: nat, ws: seq<nat>, ps: seq<nat>, cs: seq<nat>, ss: seq<nat>, t: string)
    requires HexWidth(modulusBits) > 0
    requires |ws| == sizes.witnessesSize && |ps| == sizes.publicInputsSize
    requires |cs| == sizes.constantsSize && |ss| == sizes.selectorsSize
    requires CellsBounded(ws, modulusBits) && CellsBounded(ps, modulusBits)
    requires CellsBounded(cs, modulusBits) && CellsBounded(ss, modulusBits)
    ensures ParseRow(ShowRow(ws, ps, cs, ss, HexWidth(modulusBits)) + t, sizes, modulusBits) == Ok(ws + ps + cs + ss, t)
  {
    var d := HexWidth(modulusBits);
    var x3 := " " + BAR + ShowCells(ss, d) + t;
    var x2 := " " + BAR + ShowCells(cs, d) + x3;
    var x1 := " " + BAR + ShowCells(ps, d) + x2;
    RegroupRow(ShowCells(ws, d), " " + BAR, ShowCells(ps, d), ShowCells(cs, d), ShowCells(ss, d), t);
    RepeatRoundTrip(ws, modulusBits, x1);
    BarThenCellsRoundTrip(ps, modulusBits, x2);
    BarThenCellsRoundTrip(cs, modulusBits, x3);
    BarThenCellsRoundTrip(ss, modulusBits, t);
    RowOk(ShowCells(ws, d) + x1, sizes, modulusBits, ws, x1, ps, x2, cs, x3, ss, t);
  }

  /** The largest value of the digit bound is a valid cell: the cell rule
      does not compare it with the field's modulus. */
  lemma HexCellNoRangeCheck(modulusBits: nat, t: string)
    requires HexWidth(modulusBits) > 0
    ensures HexCell(" " + FixedHex(Pow(16, HexWidth(modulusBits)) - 1, HexWidth(modulusBits)) + t, modulusBits)
         == Ok(Pow(16, HexWidth(modulusBits)) - 1, t)
  {
    var top := Pow(16, HexWidth(modulusBits)) - 1;
    HexCellRoundTrip(top, modulusBits, t);
  }

  /** A numeral longer than the digit bound is not rejected: the cell rule
      stops after `HexWidth` digits and the remaining digits form the next
      cell. */
  lemma OverlongCellSplits(a: nat, b: nat, k: nat, modulusBits: nat, t: string)
    requires 0 < k <= HexWidth(modulusBits)
    requires a < Pow(16, HexWidth(modulusBits)) && b < Pow(16, k)
    requires k == HexWidth(modulusBits) || t == [] || !IsDigit(t[0], 16)
    ensures Repeat(" " + FixedHex(a, HexWidth(modulusBits)) + FixedHex(b, k) + t, 2, modulusBits) == Ok([a, b], t)
  {
    var d := HexWidth(modulusBits);
    var y := FixedHex(b, k) + t;
    var s := " " + FixedHex(a, d) + y;
    assert " " + FixedHex(a, d) + FixedHex(b, k) + t == s;
    HexCellRoundTrip(a, modulusBits, y);
    BoundedUnsignedRoundTrip(b, k, d, t);
    RepeatTwo(s, modulusBits, a, y, b, t);
  }

  lemma RepeatTwo(s: string, modulusBits: nat, a: nat, y: string, b: nat, t: string)
    requires HexCell(s, modulusBits) == Ok(a, y) && HexCell(y, modulusBits) == Ok(b, t)
    ensures Repeat(s, 2, modulusBits) == Ok([a, b], t)
  {
    RepeatStep(s, 2, modulusBits, a, y);
    RepeatStep(y, 1, modulusBits, b, t);
    assert [a] + ([b] + []) == [a, b];
  }

  // ---------------------------------------------------------------------
  // Failures

  /** A successful `repeat(n)` with `n == m + 1` reads one cell and then
      `m` more from the text after it. */
  lemma RepeatOkStep(s: string, n: nat, m: nat, modulusBits: nat) returns (c: nat, x: string)
    requires n == m + 1 && Repeat(s, n, modulusBits).Ok?
    ensures HexCell(s, modulusBits) == Ok(c, x)
    ensures Repeat(x, m, modulusBits).Ok? && Repeat(x, m, modulusBits).rest == Repeat(s, n, modulusBits).rest
  {
    c, x := HexCell(s, modulusBits).value, HexCell(s, modulusBits).rest;
  }

  lemma RepeatStepFails(s: string, n: nat, m: nat, modulusBits: nat, c: nat, x: string)
    requires n == m + 1 && HexCell(s, modulusBits) == Ok(c, x) && Repeat(x, m, modulusBits) == Err(Soft)
    ensures Repeat(s, n, modulusBits) == Err(Soft)
  {
  }

  /** Once `k < n` cells have been read up to text `t` where no cell starts,
      `repeat(n)` fails. */
  lemma {:induction false} RepeatFailsBeyond(s: string, k: nat, n: nat, modulusBits: nat, t: string)
    requires k < n && Repeat(s, k, modulusBits).Ok? && Repeat(s, k, modulusBits).rest == t
    requires HexCell(t, modulusBits).Err?
    ensures Repeat(s, n, modulusBits) == Err(Soft)
    decreases k
  {
    if k == 0 {
      RepeatFails(s, n, modulusBits);
    } else {
      var j, m := k - 1, n - 1;
      var c, x := RepeatOkStep(s, k, j, modulusBits);
      RepeatFailsBeyond(x, j, m, modulusBits, t);
      RepeatStepFails(s, n, m, modulusBits, c, x);
    }
  }

  /** Fewer than `n` printed cells followed by text that does not start with
      a hex digit: `repeat(n)` fails without consuming anything. */
  lemma RepeatTooFew(cells: seq<nat>, n: nat, modulusBits: nat, t: string, s: string)
    requires HexWidth(modulusBits) > 0 && CellsBounded(cells, modulusBits) && |cells| < n
    requires SkipSpace(t) == [] || !IsDigit(SkipSpace(t)[0], 16)
    requires s == ShowCells(cells, HexWidth(modulusBits)) + t
    ensures Repeat(s, n, modulusBits) == Err(Soft)
  {
    RepeatRoundTrip(cells, modulusBits, t);
    BoundedUnsignedNoDigit(t, 16, HexWidth(modulusBits));
    RepeatFailsBeyond(s, |cells|, n, modulusBits, t);
  }

  lemma RowAfterWitnessesFails(s: string, sizes: TableSizes, modulusBits: nat, ws: seq<nat>, x: string, f: Failure)
    requires Repeat(s, sizes.witnessesSize, modulusBits) == Ok(ws, x)
    requires BarThenCells(x, sizes.publicInputsSize, modulusBits) == Err(f)
    ensures ParseRow(s, sizes, modulusBits) == Err(f)
  {
  }

  lemma BarMissing(s: string, n: nat, modulusBits: nat)
    requires !(BAR <= SkipSpace(s))
    ensures BarThenCells(s, n, modulusBits) == Err(Hard(BAR, SkipSpace(s)))
  {
  }

  lemma BarThenTooFew(s: string, n: nat, modulusBits: nat, x: string)
    requires Lit(s, BAR) == Ok((), x) && Repeat(x, n, modulusBits).Err?
    ensures BarThenCells(s, n, modulusBits) == Err(Hard(HEX_CELLS, x))
  {
  }

  /** More witness cells than declared, or anything else but `|` after them,
      is an expectation failure naming `|`. */
  lemma RowMissingBar(sizes: TableSizes, modulusBits: nat, ws: seq<nat>, t: string)
    requires HexWidth(modulusBits) > 0
    requires |ws| == sizes.witnessesSize && CellsBounded(ws, modulusBits)
    requires !(BAR <= SkipSpace(t))
    ensures ParseRow(ShowCells(ws, HexWidth(modulusBits)) + t, sizes, modulusBits) == Err(Hard(BAR, SkipSpace(t)))
  {
    RepeatRoundTrip(ws, modulusBits, t);
    BarMissing(t, sizes.publicInputsSize, modulusBits);
    RowAfterWitnessesFails(ShowCells(ws, HexWidth(modulusBits)) + t, sizes, modulusBits, ws, t, Hard(BAR, SkipSpace(t)));
  }

  lemma RegroupAfterBar(a: string, b: string, t: string)
    ensures a + " " + BAR + b + t == a + (" " + BAR + (b + t))
  {
  }

  /** Fewer public-input cells than declared is an expectation failure at the
      start of that region. */
  lemma RowTooFewPublicInputs(sizes: TableSizes, modulusBits: nat, ws: seq<nat>, ps: seq<nat>, t: string)
    requires HexWidth(modulusBits) > 0
    requires |ws| == sizes.witnessesSize && CellsBounded(ws, modulusBits)
    requires |ps| < sizes.publicInputsSize && CellsBounded(ps, modulusBits)
    requires SkipSpace(t) == [] || !IsDigit(SkipSpace(t)[0], 16)
    ensures ParseRow(ShowCells(ws, HexWidth(modulusBits)) + " " + BAR + ShowCells(ps, HexWidth(modulusBits)) + t, sizes, modulusBits)
         == Err(Hard(HEX_CELLS, ShowCells(ps, HexWidth(modulusBits)) + t))
  {
    var d := HexWidth(modulusBits);
    var y := ShowCells(ps, d) + t;
    var x := " " + BAR + y;
    var s := ShowCells(ws, d) + x;
    RegroupAfterBar(ShowCells(ws, d), ShowCells(ps, d), t);
    assert Repeat(s, sizes.witnessesSize, modulusBits) == Ok(ws, x) by {
      RepeatRoundTrip(ws, modulusBits, x);
    }
    assert BarThenCells(x, sizes.publicInputsSize, modulusBits) == Err(Hard(HEX_CELLS, y)) by {
      LitAfterBlank(BAR, y);
      RepeatTooFew(ps, sizes.publicInputsSize, modulusBits, t, y);
      BarThenTooFew(x, sizes.publicInputsSize, modulusBits, y);
    }
    RowAfterWitnessesFails(s, sizes, modulusBits, ws, x, Hard(HEX_CELLS, y));
  }

  // ---------------------------------------------------------------------
  // Separators

  /** The number of occurrences of `c` in `s`. */
  function Count(s: string, c: char): nat
  {
    if s == [] then 0 else (if s[0] == c then 1 else 0) + Count(s[1..], c)
  }

  lemma {:induction false} CountSkipSpace(s: string)
    ensures Count(SkipSpace(s), '|') == Count(s, '|')
  {
    if |s| > 0 && IsSpace(s[0]) {
      CountSkipSpace(s[1..]);
    }
  }

  lemma {:induction false} CountDropDigits(t: string, k: nat)
    requires k <= |t| && AllDigits(t[..k], 16)
    ensures Count(t[k..], '|') == Count(t, '|')
    decreases k
  {
    if k > 0 {
      assert t[1..][..k - 1] == t[..k][1..];
      assert t[1..][k - 1..] == t[k..];
      assert t[..k][0] == t[0];
      CountDropDigits(t[1..], k - 1);
    }
  }

  lemma HexCellKeepsBars(s: string, modulusBits: nat)
    requires HexCell(s, modulusBits).Ok?
    ensures Count(HexCell(s, modulusBits).rest, '|') == Count(s, '|')
  {
    var t := SkipSpace(s);
    var ds := TakeDigits(t, 16, HexWidth(modulusBits));
    assert t[..|ds|] == ds;
    CountSkipSpace(s);
    CountDropDigits(t, |ds|);
  }

  lemma {:induction false} RepeatKeepsBars(s: string, n: nat, modulusBits: nat)
    requires Repeat(s, n, modulusBits).Ok?
    ensures Count(Repeat(s, n, modulusBits).rest, '|') == Count(s, '|')
    decreases n
  {
    if n > 0 {
      var m := n - 1;
      var _, x := RepeatOkStep(s, n, m, modulusBits);
      HexCellKeepsBars(s, modulusBits);
      RepeatKeepsBars(x, m, modulusBits);
    } else {
      assert Repeat(s, n, modulusBits).rest == s;
    }
  }

  lemma BarThenCellsTakesBar(s: string, n: nat, modulusBits: nat)
    requires BarThenCells(s, n, modulusBits).Ok?
    ensures Count(BarThenCells(s, n, modulusBits).rest, '|') + 1 == Count(s, '|')
  {
    var t := SkipSpace(s);
    CountSkipSpace(s);
    assert t[0] == '|';
    var x := Lit(s, BAR).rest;
    RepeatKeepsBars(x, n, modulusBits);
  }

  /** A row that parses contains exactly three `|` in the part it consumed,
      whatever the region sizes, even zero. */
  lemma RowTakesThreeBars(s: string, sizes: TableSizes, modulusBits: nat)
    requires ParseRow(s, sizes, modulusBits).Ok?
    ensures Count(s, '|') == Count(ParseRow(s, sizes, modulusBits).rest, '|') + 3
  {
    var w := Repeat(s, sizes.witnessesSize, modulusBits);
    RepeatKeepsBars(s, sizes.witnessesSize, modulusBits);
    var p := BarThenCells(w.rest, sizes.publicInputsSize, modulusBits);
    BarThenCellsTakesBar(w.rest, sizes.publicInputsSize, modulusBits);
    var c := BarThenCells(p.rest, sizes.constantsSize, modulusBits);
    BarThenCellsTakesBar(p.rest, sizes.constantsSize, modulusBits);
    BarThenCellsTakesBar(c.rest, sizes.selectorsSize, modulusBits);
    RowOk(s, sizes, modulusBits, w.value, w.rest, p.value, p.rest, c.value, c.rest,
          BarThenCells(c.rest, sizes.selectorsSize, modulusBits).value,
          BarThenCells(c.rest, sizes.selectorsSize, modulusBits).rest);
  }

  lemma RowNeedsThreeBars(s: string, sizes: TableSizes, modulusBits: nat)
    requires Count(s, '|') < 3
    ensures ParseRow(s, sizes, modulusBits).Err?
  {
    if ParseRow(s, sizes, modulusBits).Ok? {
      RowTakesThreeBars(s, sizes, modulusBits);
    }
  }
}
