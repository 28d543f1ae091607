/** The string primitives the resolver relies on: Python's `str.strip()`,
    `str.startswith()` and the code-point lexicographic order behind `<` and
    `max()` on `str`. */
module Text {

  /** The characters Python's `str.isspace()` accepts in the ASCII range
      (space, \t, \n, \v, \f, \r and the separators \x1c to \x1f). */
  predicate IsSpace(c: char) {
    c == ' ' || ('\t' <= c <= '\r') || ('\U{1C}' <= c <= '\U{1F}')
  }

  /** The first position at or after `i` that does not hold whitespace
      (`|s|` when there is none). */
  function SkipSpace(s: string, i: nat): (n: nat)
    requires i <= |s|
    ensures i <= n <= |s|
    ensures n == |s| || !IsSpace(s[n])
    ensures forall k :: i <= k < n ==> IsSpace(s[k])
    decreases |s| - i
  {
    if i < |s| && IsSpace(s[i]) then SkipSpace(s, i + 1) else i
  }

  /** The position just after the last character before `j` that does not
      hold whitespace, never below `lo` (`lo` when there is none). */
  function SkipSpaceBack(s: string, lo: nat, j: nat): (n: nat)
    requires lo <= j <= |s|
    ensures lo <= n <= j
    ensures n == lo || !IsSpace(s[n - 1])
    ensures forall k :: n <= k < j ==> IsSpace(s[k])
    decreases j - lo
  {
    if lo < j && IsSpace(s[j - 1]) then SkipSpaceBack(s, lo, j - 1) else j
  }

  /** Where the stripped text starts and ends. */
  function Start(s: string): nat {
    SkipSpace(s, 0)
  }

  function End(s: string): (e: nat)
    ensures Start(s) <= e <= |s|
  {
    SkipSpaceBack(s, Start(s), |s|)
  }

  /** `s.strip()`: `lstrip()` followed by `rstrip()`. Nothing longer than
      the input comes out, and neither end of the result is whitespace. */
  function Strip(s: string): (r: string)
    ensures |r| <= |s|
    ensures r == [] || (!IsSpace(r[0]) && !IsSpace(r[|r| - 1]))
  {
    var a, e := Start(s), End(s);
    assert a < e ==> a < |s| && !IsSpace(s[a]);
    s[a..e]
  }

  /** `Strip` cuts a contiguous slice out of `s`: everything before it and
      after it is whitespace and, unless it is empty, it begins and ends with
      a character that is not. */
  lemma StripSlice(s: string)
    ensures var a, e := Start(s), End(s);
      && Strip(s) == s[a..e]
      && (forall k :: 0 <= k < a ==> IsSpace(s[k]))
      && (forall k :: e <= k < |s| ==> IsSpace(s[k]))
      && (a == e || (!IsSpace(s[a]) && !IsSpace(s[e - 1])))
  {
    var a, e := Start(s), End(s);
    if a < e {
      assert a < |s| && !IsSpace(s[a]);
    }
  }

  /** A string without leading or trailing whitespace is its own strip; in
      particular stripping is idempotent. */
  lemma StripFixed(s: string)
    requires s == [] || (!IsSpace(s[0]) && !IsSpace(s[|s| - 1]))
    ensures Strip(s) == s
  {
    assert Start(s) == 0;
    assert End(s) == |s|;
    assert s[0..|s|] == s;
  }

  lemma StripIdempotent(s: string)
    ensures Strip(Strip(s)) == Strip(s)
  {
    StripFixed(Strip(s));
  }

  /** `s.startswith(p)` */
  predicate StartsWith(s: string, p: string) {
    |p| <= |s| && s[..|p|] == p
  }

  /** Python's `a < b` on `str`: lexicographic by code point, a proper
      prefix sorts first. */
  predicate Less(a: string, b: string)
    decreases |a|
  {
    if a == [] then b != []
    else if b == [] then false
    else if a[0] != b[0] then a[0] < b[0]
    else Less(a[1..], b[1..])
  }

  predicate LessEq(a: string, b: string) {
    a == b || Less(a, b)
  }

  lemma {:induction false} LessIrreflexive(a: string)
    ensures !Less(a, a)
    decreases |a|
  {
    if a != [] {
      LessIrreflexive(a[1..]);
    }
  }

  lemma {:induction false} LessTransitive(a: string, b: string, c: string)
    requires Less(a, b) && Less(b, c)
    ensures Less(a, c)
    decreases |a|
  {
    if a != [] && b != [] && c != [] && a[0] == b[0] == c[0] {
      LessTransitive(a[1..], b[1..], c[1..]);
    }
  }

  lemma {:induction false} LessTotal(a: string, b: string)
    ensures Less(a, b) || a == b || Less(b, a)
    decreases |a|
  {
    if a != [] && b != [] && a[0] == b[0] {
      LessTotal(a[1..], b[1..]);
      if a[1..] == b[1..] {
        assert a == [a[0]] + a[1..] && b == [b[0]] + b[1..];
      }
    }
  }

  /** The non-strict order is total and transitive. */
  lemma LessEqTotal(a: string, b: string)
    ensures LessEq(a, b) || LessEq(b, a)
  {
    LessTotal(a, b);
  }

  lemma LessEqTransitive(a: string, b: string, c: string)
    requires LessEq(a, b) && LessEq(b, c)
    ensures LessEq(a, c)
  {
    if a != b && b != c {
      LessTransitive(a, b, c);
    }
  }

  /** Antisymmetry: `Less` never holds in both directions. */
  lemma LessAsymmetric(a: string, b: string)
    requires Less(a, b)
    ensures !Less(b, a) && a != b
  {
    LessIrreflexive(a);
    if Less(b, a) {
      LessTransitive(a, b, a);
    }
  }
}
