/** The Qi primitives the grammars are built from: the ASCII whitespace
    skipper, literal strings, `uint_`, `int_`, and the digit-bounded numeric
    parsers `uint_parser<T, Radix, 1, MaxDigits>` and
    `int_parser<T, Radix, 1, MaxDigits>`.

    Every grammar uses `ascii::space` as its skipper, so each primitive first
    skips leading whitespace.  Numbers are unbounded here; the 32-bit ranges of
    `uint_` and `int_` are written out.  The digit-bounded parsers are used
    with the field's big integer type, for which only the digit count bounds
    the value.  The renderers (`Decimal`, `SignedDecimal`, `FixedHex`) are the
    partners the round-trip lemmas are stated with.
 */
module Lexeme {
  import opened ParseResult

  const UINT32_LIMIT: nat := 0x1_0000_0000
  const INT32_MIN: int := -0x8000_0000
  const INT32_MAX: int := 0x7FFF_FFFF

  /** The names expectation failures give a missing `uint_` and `int_`. */
  const UNSIGNED_INTEGER: string := "unsigned integer"
  const SIGNED_INTEGER: string := "integer"

  type uint32 = n: nat | n < UINT32_LIMIT
  type int32 = i: int | INT32_MIN <= i <= INT32_MAX

  function Pow(base: nat, e: nat): (p: nat)
    ensures base > 0 ==> p > 0
  {
    if e == 0 then 1 else base * Pow(base, e - 1)
  }

  lemma {:induction false} PowMonotone(base: nat, e: nat, f: nat)
    requires base > 0 && e <= f
    ensures Pow(base, e) <= Pow(base, f)
  {
    if e < f {
      PowMonotone(base, e, f - 1);
    }
  }

  // ---------------------------------------------------------------------
  // Whitespace skipping

  /** `ascii::space`: blank, tab, newline, vertical tab, form feed, return. */
  predicate IsSpace(c: char)
  {
    c == ' ' || '\t' <= c <= '\r'
  }

  predicate AllSpace(w: string)
  {
    forall i :: 0 <= i < |w| ==> IsSpace(w[i])
  }

  function SkipSpace(s: string): (r: string)
    ensures SuffixOf(r, s) && |r| <= |s|
    ensures r == [] || !IsSpace(r[0])
  {
    if |s| > 0 && IsSpace(s[0]) then SkipSpace(s[1..]) else s
  }

  /** The skipper drops exactly the leading run of whitespace: the text is
      a run of whitespace followed by what the skipper keeps, which does not
      start with whitespace. */
  lemma {:induction false} SkipSpaceExact(s: string)
    ensures SkipSpace(s) == s[|s| - |SkipSpace(s)|..]
    ensures AllSpace(s[..|s| - |SkipSpace(s)|])
    ensures SkipSpace(s) == [] || !IsSpace(SkipSpace(s)[0])
    decreases |s|
  {
    if |s| > 0 && IsSpace(s[0]) {
      var k := |s| - 1 - |SkipSpace(s[1..])|;
      SkipSpaceExact(s[1..]);
      assert s[1..][k..] == s[k + 1..];
      assert s[..k + 1] == [s[0]] + s[1..][..k];
    } else {
      assert s[..0] == [];
    }
  }

  lemma SkipSpaceBlank(s: string)
    ensures SkipSpace(" " + s) == SkipSpace(s)
  {
    assert (" " + s)[1..] == s;
  }

  lemma SkipSpaceNoop(s: string)
    requires s == [] || !IsSpace(s[0])
    ensures SkipSpace(s) == s
  {
  }

  // ---------------------------------------------------------------------
  // Literals

  /** `lit(word)`: skip whitespace, then match `word` exactly; on a match,
      what is left is the text after the blanks and `word`. */
  function Lit(s: string, word: string): (r: Parsed<()>)
    ensures r.Ok? <==> word <= SkipSpace(s)
    ensures r.Ok? ==> SkipSpace(s) == word + r.rest
    ensures r.Ok? ==> SuffixOf(r.rest, s) && |r.rest| <= |s| - |word|
    ensures r.Err? ==> r.failure == Soft
  {
    var t := SkipSpace(s);
    if word <= t then
      assert t == word + t[|word|..];
      DropWithin(t, |word|, s);
      Ok((), t[|word|..])
    else Err(Soft)
  }

  lemma LitMatches(word: string, t: string)
    requires word != [] && !IsSpace(word[0])
    ensures Lit(word + t, word) == Ok((), t)
  {
    SkipSpaceNoop(word + t);
    assert (word + t)[|word|..] == t;
  }

  lemma LitAfterBlank(word: string, t: string)
    requires word != [] && !IsSpace(word[0])
    ensures Lit(" " + word + t, word) == Ok((), t)
  {
    assert (" " + word + t)[1..] == word + t;
    LitMatches(word, t);
  }

  lemma LitFails(s: string, word: string)
    requires word != [] && s != [] && !IsSpace(s[0]) && s[0] != word[0]
    ensures Lit(s, word) == Err(Soft)
  {
    SkipSpaceNoop(s);
  }

  /** A literal that differs from the text at position `k` does not match. */
  lemma LitMismatch(s: string, word: string, k: nat)
    requires k < |word| && k < |s| && s[k] != word[k] && !IsSpace(s[0])
    ensures Lit(s, word) == Err(Soft)
  {
    SkipSpaceNoop(s);
  }

  // ---------------------------------------------------------------------
  // Digits

  /** The value of a digit character in any radix up to 36 (36 for a
      character that is no digit at all). */
  function DigitValue(c: char): nat
  {
    if '0' <= c <= '9' then c as int - '0' as int
    else if 'a' <= c <= 'z' then c as int - 'a' as int + 10
    else if 'A' <= c <= 'Z' then c as int - 'A' as int + 10
    else 36
  }

  predicate IsDigit(c: char, radix: nat)
  {
    DigitValue(c) < radix
  }

  predicate AllDigits(ds: string, radix: nat)
  {
    forall i :: 0 <= i < |ds| ==> IsDigit(ds[i], radix)
  }

  /** The longest prefix of `s` made of at most `max` digits. */
  function TakeDigits(s: string, radix: nat, max: nat): (ds: string)
    ensures ds <= s && |ds| <= max
    ensures AllDigits(ds, radix)
    ensures |ds| < max && |ds| < |s| ==> !IsDigit(s[|ds|], radix)
  {
    if max == 0 || |s| == 0 || !IsDigit(s[0], radix) then []
    else [s[0]] + TakeDigits(s[1..], radix, max - 1)
  }

  /** The number a digit string denotes, accumulated most significant digit
      first, as Qi's numeric extractors do. */
  function Value(ds: string, radix: nat): nat
  {
    if ds == [] then 0 else Value(ds[..|ds| - 1], radix) * radix + DigitValue(ds[|ds| - 1])
  }

  lemma {:induction false} MulMonotone(a: nat, b: nat, c: nat)
    requires a <= b
    ensures a * c <= b * c
  {
    if c > 0 {
      MulMonotone(a, b, c - 1);
      assert a * c == a * (c - 1) + a;
      assert b * c == b * (c - 1) + b;
    }
  }

  lemma MulBelow(v: nat, p: nat, radix: nat, d: nat)
    requires v < p && d < radix
    ensures v * radix + d < p * radix
  {
    MulMonotone(v + 1, p, radix);
    assert (v + 1) * radix == v * radix + radix;
  }

  lemma {:induction false} ValueBound(ds: string, radix: nat)
    requires radix > 0 && AllDigits(ds, radix)
    ensures Value(ds, radix) < Pow(radix, |ds|)
  {
    if ds != [] {
      var init := ds[..|ds| - 1];
      ValueBound(init, radix);
      MulBelow(Value(init, radix), Pow(radix, |init|), radix, DigitValue(ds[|ds| - 1]));
    }
  }

  lemma {:induction false} ValueAppend(ds: string, c: char, radix: nat)
    ensures Value(ds + [c], radix) == Value(ds, radix) * radix + DigitValue(c)
  {
    assert (ds + [c])[..|ds|] == ds;
  }

  lemma {:induction false} TakeAllDigits(ds: string, t: string, radix: nat, max: nat)
    requires AllDigits(ds, radix) && |ds| <= max
    requires |ds| == max || t == [] || !IsDigit(t[0], radix)
    ensures TakeDigits(ds + t, radix, max) == ds
  {
    if ds != [] {
      assert (ds + t)[1..] == ds[1..] + t;
      TakeAllDigits(ds[1..], t, radix, max - 1);
    }
  }

  // ---------------------------------------------------------------------
  // Numerals: the renderers the parsers are proved against

  function DigitChar(d: nat): (c: char)
    requires d < 16
    ensures DigitValue(c) == d && !IsSpace(c)
  {
    if d < 10 then ('0' as int + d) as char else ('a' as int + d - 10) as char
  }

  /** Shortest decimal numeral of `n`. */
  function Decimal(n: nat): (s: string)
    ensures s != [] && AllDigits(s, 10)
  {
    if n < 10 then [DigitChar(n)] else Decimal(n / 10) + [DigitChar(n % 10)]
  }

  function Abs(i: int): nat
  {
    if i < 0 then -i else i
  }

  /** An optional minus sign followed by the decimal numeral of |i|. */
  function SignedDecimal(i: int): string
  {
    if i < 0 then "-" + Decimal(Abs(i)) else Decimal(Abs(i))
  }

  /** The `width` least significant base-16 digits of `n`, zero-padded. */
  function FixedHex(n: nat, width: nat): (s: string)
    ensures |s| == width && AllDigits(s, 16)
  {
    if width == 0 then [] else FixedHex(n / 16, width - 1) + [DigitChar(n % 16)]
  }

  lemma {:induction false} DecimalValue(n: nat)
    ensures Value(Decimal(n), 10) == n
  {
    if n >= 10 {
      DecimalValue(n / 10);
      ValueAppend(Decimal(n / 10), DigitChar(n % 10), 10);
    }
  }

  lemma {:induction false} DecimalLength(n: nat, k: nat)
    requires k > 0 && n < Pow(10, k)
    ensures |Decimal(n)| <= k
  {
    if n >= 10 {
      assert k > 1;
      assert n / 10 < Pow(10, k - 1);
      DecimalLength(n / 10, k - 1);
    }
  }

  lemma {:induction false} FixedHexValue(n: nat, width: nat)
    requires n < Pow(16, width)
    ensures Value(FixedHex(n, width), 16) == n
  {
    if width > 0 {
      var q, r := n / 16, n % 16;
      var p := Pow(16, width - 1);
      assert n == q * 16 + r;
      assert q < p;
      FixedHexValue(q, width - 1);
      var c := DigitChar(r);
      assert FixedHex(n, width) == FixedHex(q, width - 1) + [c];
      ValueAppend(FixedHex(q, width - 1), c, 16);
    }
  }

  // ---------------------------------------------------------------------
  // Numeric parsers

  /** `t` is a nonempty run of `radix` digits denoting `value`, followed by
      `rest`. */
  predicate ReadsNumber(t: string, rest: string, radix: nat, value: nat)
  {
    |rest| < |t| && rest == t[|t| - |rest|..]
    && AllDigits(t[..|t| - |rest|], radix)
    && value == Value(t[..|t| - |rest|], radix)
  }

  /** `uint_`: one or more decimal digits, no sign; a value that does not fit
      in 32 bits makes the parser fail. */
  function Unsigned32(s: string): (r: Parsed<uint32>)
    ensures r.Ok? ==> SuffixOf(r.rest, s) && |r.rest| < |s|
    ensures r.Ok? ==> SkipSpace(s) != [] && IsDigit(SkipSpace(s)[0], 10)
    ensures r.Ok? ==> r.rest == [] || !IsDigit(r.rest[0], 10)
    ensures r.Err? ==> r.failure == Soft
  {
    var t := SkipSpace(s);
    var ds := TakeDigits(t, 10, |t|);
    if ds == [] || Value(ds, 10) >= UINT32_LIMIT then Err(Soft)
    else
      DropWithin(t, |ds|, s);
      Ok(Value(ds, 10), t[|ds|..])
  }

  /** `uint_` reads nothing where no digit follows the blanks. */
  lemma Unsigned32NoDigit(s: string)
    requires SkipSpace(s) == [] || !IsDigit(SkipSpace(s)[0], 10)
    ensures Unsigned32(s) == Err(Soft)
  {
  }

  /** `uint_` reads no sign, so a negative numeral is no unsigned number. */
  lemma Unsigned32Negative(c: int, t: string)
    requires c < 0
    ensures Unsigned32(SignedDecimal(c) + t) == Err(Soft)
  {
    var s := SignedDecimal(c) + t;
    assert s == "-" + (Decimal(Abs(c)) + t);
    SkipSpaceNoop(s);
    Unsigned32NoDigit(s);
  }

  /** `uint_` rejects a numeral whose value does not fit in 32 bits; it
      neither truncates nor wraps it. */
  lemma Unsigned32Overflow(n: nat, t: string)
    requires n >= UINT32_LIMIT && (t == [] || !IsDigit(t[0], 10))
    ensures Unsigned32(Decimal(n) + t) == Err(Soft)
  {
    var s := Decimal(n) + t;
    SkipSpaceNoop(s);
    TakeAllDigits(Decimal(n), t, 10, |s|);
    DecimalValue(n);
  }

  /** Drops one leading sign character, if present. */
  function DropSign(t: string): (u: string)
    ensures SuffixOf(u, t) && |u| <= |t|
  {
    if |t| > 0 && (t[0] == '-' || t[0] == '+') then DropIsSuffix(t, 1); t[1..] else t
  }

  function ApplySign(t: string, magnitude: nat): (i: int)
    ensures Abs(i) == magnitude
  {
    if |t| > 0 && t[0] == '-' then -(magnitude as int) else magnitude
  }

  /** `int_`: an optional `+` or `-`, then one or more decimal digits; a value
      outside the signed 32-bit range makes the parser fail. */
  function Signed32(s: string): (r: Parsed<int32>)
    ensures r.Ok? ==> SuffixOf(r.rest, s) && |r.rest| < |s|
    ensures r.Ok? ==> r.rest == [] || !IsDigit(r.rest[0], 10)
    ensures r.Err? ==> r.failure == Soft
  {
    var t := SkipSpace(s);
    var u := DropSign(t);
    var ds := TakeDigits(u, 10, |u|);
    var v := ApplySign(t, Value(ds, 10));
    if ds == [] || !(INT32_MIN <= v <= INT32_MAX) then Err(Soft)
    else
      SuffixOfTransitive(u, t, s);
      DropWithin(u, |ds|, s);
      Ok(v, u[|ds|..])
  }

  /** `uint_parser<T, radix, 1, maxDigits>`: one to `maxDigits` digits.  It
      stops after `maxDigits` digits even when more follow, and the value is
      only bounded by the digit count. */
  function BoundedUnsigned(s: string, radix: nat, maxDigits: nat): (r: Parsed<nat>)
    requires radix > 0
    ensures r.Ok? ==> SuffixOf(r.rest, s) && |r.rest| < |s|
    ensures r.Ok? ==> r.value < Pow(radix, maxDigits)
    ensures r.Err? ==> r.failure == Soft
  {
    var t := SkipSpace(s);
    var ds := TakeDigits(t, radix, maxDigits);
    if ds == [] then Err(Soft)
    else
      ValueBound(ds, radix);
      PowMonotone(radix, |ds|, maxDigits);
      DropWithin(t, |ds|, s);
      Ok(Value(ds, radix), t[|ds|..])
  }

  /** `int_parser<T, radix, 1, maxDigits>`: an optional sign, then one to
      `maxDigits` digits, bounded by the digit count only. */
  function BoundedSigned(s: string, radix: nat, maxDigits: nat): (r: Parsed<int>)
    requires radix > 0
    ensures r.Ok? ==> SuffixOf(r.rest, s) && |r.rest| < |s|
    ensures r.Ok? ==> Abs(r.value) < Pow(radix, maxDigits)
    ensures r.Err? ==> r.failure == Soft
  {
    var t := SkipSpace(s);
    var u := DropSign(t);
    var ds := TakeDigits(u, radix, maxDigits);
    if ds == [] then Err(Soft)
    else
      var m := Value(ds, radix);
      ValueBound(ds, radix);
      PowMonotone(radix, |ds|, maxDigits);
      assert m < Pow(radix, maxDigits);
      SuffixOfTransitive(u, t, s);
      DropWithin(u, |ds|, s);
      Ok(ApplySign(t, m), u[|ds|..])
  }

  // ---------------------------------------------------------------------
  // What the numeric parsers read

  /** A successful `uint_` reads the digit run after the blanks and yields
      its value. */
  lemma Unsigned32Reads(s: string)
    requires Unsigned32(s).Ok?
    ensures ReadsNumber(SkipSpace(s), Unsigned32(s).rest, 10, Unsigned32(s).value)
  {
    var t := SkipSpace(s);
    var ds := TakeDigits(t, 10, |t|);
    assert t[..|ds|] == ds;
  }

  /** A successful `int_` reads the digit run after the blanks and an
      optional sign, and yields its value, negated after a `-`. */
  lemma Signed32Reads(s: string)
    requires Signed32(s).Ok?
    ensures ReadsNumber(DropSign(SkipSpace(s)), Signed32(s).rest, 10, Abs(Signed32(s).value))
    ensures Signed32(s).value == ApplySign(SkipSpace(s), Abs(Signed32(s).value))
  {
    var u := DropSign(SkipSpace(s));
    var ds := TakeDigits(u, 10, |u|);
    assert u[..|ds|] == ds;
  }

  /** A successful bounded unsigned parser reads at most `maxDigits` digits
      after the blanks and yields their value. */
  lemma BoundedUnsignedReads(s: string, radix: nat, maxDigits: nat)
    requires radix > 0 && BoundedUnsigned(s, radix, maxDigits).Ok?
    ensures ReadsNumber(SkipSpace(s), BoundedUnsigned(s, radix, maxDigits).rest, radix, BoundedUnsigned(s, radix, maxDigits).value)
    ensures |SkipSpace(s)| - |BoundedUnsigned(s, radix, maxDigits).rest| <= maxDigits
  {
    var t := SkipSpace(s);
    var ds := TakeDigits(t, radix, maxDigits);
    assert t[..|ds|] == ds;
  }

  /** A successful bounded signed parser reads an optional sign and at most
      `maxDigits` digits after the blanks, and yields their signed value. */
  lemma BoundedSignedReads(s: string, radix: nat, maxDigits: nat)
    requires radix > 0 && BoundedSigned(s, radix, maxDigits).Ok?
    ensures ReadsNumber(DropSign(SkipSpace(s)), BoundedSigned(s, radix, maxDigits).rest, radix, Abs(BoundedSigned(s, radix, maxDigits).value))
    ensures |DropSign(SkipSpace(s))| - |BoundedSigned(s, radix, maxDigits).rest| <= maxDigits
    ensures BoundedSigned(s, radix, maxDigits).value == ApplySign(SkipSpace(s), Abs(BoundedSigned(s, radix, maxDigits).value))
  {
    var u := DropSign(SkipSpace(s));
    var ds := TakeDigits(u, radix, maxDigits);
    assert u[..|ds|] == ds;
  }

  /** `k` zero digits. */
  function Zeros(k: nat): (z: string)
    ensures |z| == k && AllDigits(z, 10)
  {
    if k == 0 then [] else "0" + Zeros(k - 1)
  }

  lemma {:induction false} ValueLeadingZero(ds: string, radix: nat)
    ensures Value("0" + ds, radix) == Value(ds, radix)
    decreases |ds|
  {
    if ds != [] {
      var init := ds[..|ds| - 1];
      assert ("0" + ds)[..|ds|] == "0" + init;
      ValueLeadingZero(init, radix);
    }
  }

  lemma {:induction false} ValueZeros(k: nat, ds: string, radix: nat)
    ensures Value(Zeros(k) + ds, radix) == Value(ds, radix)
  {
    if k > 0 {
      var z := Zeros(k - 1) + ds;
      assert Zeros(k) + ds == "0" + z;
      calc {
        Value(Zeros(k) + ds, radix);
        Value("0" + z, radix);
        { ValueLeadingZero(z, radix); }
        Value(z, radix);
        { ValueZeros(k - 1, ds, radix); }
        Value(ds, radix);
      }
    } else {
      assert Zeros(k) + ds == ds;
    }
  }

  /** Leading zeros do not change what `uint_` reads: `007` is 7. */
  lemma Unsigned32LeadingZeros(k: nat, n: uint32, t: string)
    requires t == [] || !IsDigit(t[0], 10)
    ensures Unsigned32(Zeros(k) + Decimal(n) + t) == Ok(n, t)
  {
    var ds := Zeros(k) + Decimal(n);
    var s := ds + t;
    assert AllDigits(ds, 10);
    assert IsDigit(s[0], 10);
    SkipSpaceNoop(s);
    TakeAllDigits(ds, t, 10, |s|);
    ValueZeros(k, Decimal(n), 10);
    DecimalValue(n);
    assert s[|ds|..] == t;
  }

  // ---------------------------------------------------------------------
  // Round trips

  lemma Unsigned32RoundTrip(n: uint32, t: string)
    requires t == [] || !IsDigit(t[0], 10)
    ensures Unsigned32(Decimal(n) + t) == Ok(n, t)
  {
    var s := Decimal(n) + t;
    SkipSpaceNoop(s);
    TakeAllDigits(Decimal(n), t, 10, |s|);
    DecimalValue(n);
    assert s[|Decimal(n)|..] == t;
  }

  lemma SignedDecimalShape(c: int, t: string)
    ensures SkipSpace(SignedDecimal(c) + t) == SignedDecimal(c) + t
    ensures DropSign(SignedDecimal(c) + t) == Decimal(Abs(c)) + t
    ensures ApplySign(SignedDecimal(c) + t, Abs(c)) == c
  {
    var s := SignedDecimal(c) + t;
    var u := Decimal(Abs(c)) + t;
    if c < 0 {
      assert s == "-" + u;
    } else {
      assert s == u;
      assert IsDigit(u[0], 10);
    }
    SkipSpaceNoop(s);
  }

  lemma Signed32RoundTrip(i: int32, t: string)
    requires t == [] || !IsDigit(t[0], 10)
    ensures Signed32(SignedDecimal(i) + t) == Ok(i, t)
  {
    var u := Decimal(Abs(i)) + t;
    SignedDecimalShape(i, t);
    TakeAllDigits(Decimal(Abs(i)), t, 10, |u|);
    DecimalValue(Abs(i));
    assert u[|Decimal(Abs(i))|..] == t;
  }

  /** `int_` rejects a numeral whose value lies outside the signed 32-bit
      range. */
  lemma Signed32Overflow(c: int, t: string)
    requires c < INT32_MIN || c > INT32_MAX
    requires t == [] || !IsDigit(t[0], 10)
    ensures Signed32(SignedDecimal(c) + t) == Err(Soft)
  {
    var u := Decimal(Abs(c)) + t;
    SignedDecimalShape(c, t);
    TakeAllDigits(Decimal(Abs(c)), t, 10, |u|);
    DecimalValue(Abs(c));
  }

  lemma BoundedUnsignedRoundTrip(n: nat, width: nat, maxDigits: nat, t: string)
    requires 0 < width <= maxDigits && n < Pow(16, width)
    requires width == maxDigits || t == [] || !IsDigit(t[0], 16)
    ensures BoundedUnsigned(FixedHex(n, width) + t, 16, maxDigits) == Ok(n, t)
  {
    var s := FixedHex(n, width) + t;
    SkipSpaceNoop(s);
    TakeAllDigits(FixedHex(n, width), t, 16, maxDigits);
    FixedHexValue(n, width);
    assert s[width..] == t;
  }

  lemma BoundedSignedRoundTrip(c: int, maxDigits: nat, t: string)
    requires |Decimal(Abs(c))| <= maxDigits
    requires t == [] || !IsDigit(t[0], 10)
    ensures BoundedSigned(SignedDecimal(c) + t, 10, maxDigits) == Ok(c, t)
  {
    var u := Decimal(Abs(c)) + t;
    SignedDecimalShape(c, t);
    TakeAllDigits(Decimal(Abs(c)), t, 10, maxDigits);
    DecimalValue(Abs(c));
    assert u[|Decimal(Abs(c))|..] == t;
  }

  lemma BoundedUnsignedAfterBlank(s: string, radix: nat, maxDigits: nat)
    requires radix > 0
    ensures BoundedUnsigned(" " + s, radix, maxDigits) == BoundedUnsigned(s, radix, maxDigits)
  {
    SkipSpaceBlank(s);
  }

  lemma BoundedUnsignedNoDigit(s: string, radix: nat, maxDigits: nat)
    requires radix > 0
    requires SkipSpace(s) == [] || !IsDigit(SkipSpace(s)[0], radix)
    ensures BoundedUnsigned(s, radix, maxDigits) == Err(Soft)
  {
  }

  // ---------------------------------------------------------------------
  // Whole lines

  /** The callers of the grammars accept a line only when the grammar has
      consumed all of it but trailing whitespace. */
  function WholeLine<T>(r: Parsed<T>): (w: Parsed<T>)
    ensures w.Ok? <==> r.Ok? && SkipSpace(r.rest) == []
    ensures w.Ok? ==> w.value == r.value && w.rest == []
    ensures r.Err? ==> w == r
  {
    if r.Ok? && SkipSpace(r.rest) != [] then Err(Hard("end of line", r.rest))
    else if r.Ok? then Ok(r.value, [])
    else r
  }
}
