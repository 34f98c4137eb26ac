/** The outcome of running one grammar rule on a piece of input text.

    The grammars are Boost.Spirit Qi rules.  A rule either matches a prefix of
    its input, producing an attribute and leaving the rest of the input, or it
    fails.  Qi distinguishes two ways of failing:
    - a plain failure, after which an enclosing alternative (`|`), optional
      (`-`) or Kleene star (`*`) may try something else (`Soft` here);
    - an expectation failure, raised when a component after a `>` does not
      match; it aborts the whole grammar (`Hard` here), and the `on_error`
      handler of the start rule reports the expected component and the input
      at which it was expected.
 */
module ParseResult {

  datatype Failure =
    | Soft
    | Hard(expected: string, at: string)

  datatype Parsed<+T> = Ok(value: T, rest: string) | Err(failure: Failure) {

    predicate IsFailure() { Err? }

    function PropagateFailure<U>(): Parsed<U>
      requires Err?
    {
      Err(failure)
    }

    function Extract(): Parsed<T>
      requires Ok?
    {
      this
    }

    predicate IsSoftFailure() { Err? && failure.Soft? }

    predicate IsHardFailure() { Err? && failure.Hard? }
  }

  /** `t` is what is left of `s` after some prefix has been consumed. */
  predicate SuffixOf(t: string, s: string)
    decreases |s|
  {
    t == s || (|s| > 0 && SuffixOf(t, s[1..]))
  }

  lemma {:induction false} SuffixOfShorter(t: string, s: string)
    requires SuffixOf(t, s)
    ensures |t| <= |s|
    decreases |s|
  {
    if t != s {
      SuffixOfShorter(t, s[1..]);
    }
  }

  lemma {:induction false} DropIsSuffix(s: string, k: nat)
    requires k <= |s|
    ensures SuffixOf(s[k..], s)
    decreases k
  {
    if k > 0 {
      assert s[k..] == s[1..][k - 1..];
      DropIsSuffix(s[1..], k - 1);
    }
  }

  lemma {:induction false} SuffixOfTransitive(u: string, t: string, s: string)
    requires SuffixOf(u, t) && SuffixOf(t, s)
    ensures SuffixOf(u, s)
    decreases |s|
  {
    if t != s {
      SuffixOfTransitive(u, t, s[1..]);
    }
  }

  /** Dropping `k` more characters from a suffix of `s` leaves a suffix of `s`
      that is at least `k` shorter than `s`. */
  lemma DropWithin(t: string, k: nat, s: string)
    requires SuffixOf(t, s) && k <= |t|
    ensures SuffixOf(t[k..], s) && |t[k..]| <= |s| - k
  {
    DropIsSuffix(t, k);
    SuffixOfTransitive(t[k..], t, s);
    SuffixOfShorter(t, s);
  }

  lemma FailureWithin(f: Failure, t: string, s: string)
    requires SuffixOf(t, s) && (f.Hard? ==> SuffixOf(f.at, t))
    ensures f.Hard? ==> SuffixOf(f.at, s)
  {
    if f.Hard? {
      SuffixOfTransitive(f.at, t, s);
    }
  }

  /** The Qi expectation operator `a > b`: once `a` has matched, a plain
      failure of `b` becomes an expectation failure naming `b`. */
  function Expect<T>(r: Parsed<T>, expected: string, at: string): (e: Parsed<T>)
    ensures r.Ok? ==> e == r
    ensures r.IsHardFailure() ==> e == r
    ensures r.IsSoftFailure() ==> e == Err(Hard(expected, at))
  {
    if r.IsSoftFailure() then Err(Hard(expected, at)) else r
  }

  /** The values a prefix of a sequence produced, followed by whatever the
      rest of the sequence gives. */
  function Prepend<T>(values: seq<T>, r: Parsed<seq<T>>): (p: Parsed<seq<T>>)
    ensures p.Ok? <==> r.Ok?
    ensures p.Ok? ==> |p.value| == |values| + |r.value| && p.value[..|values|] == values && p.value[|values|..] == r.value && p.rest == r.rest
    ensures p.Err? ==> p == r
  {
    if r.Ok? then Ok(values + r.value, r.rest) else r
  }

  lemma PrependTwice<T>(a: seq<T>, b: seq<T>, r: Parsed<seq<T>>)
    ensures Prepend(a, Prepend(b, r)) == Prepend(a + b, r)
  {
    if r.Ok? {
      assert a + (b + r.value) == (a + b) + r.value;
    }
  }

  lemma PrependNothing<T>(values: seq<T>, r: Parsed<seq<T>>)
    requires values == []
    ensures Prepend(values, r) == r
  {
    if r.Ok? {
      assert values + r.value == r.value;
    }
  }
}
