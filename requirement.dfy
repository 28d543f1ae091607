/** The requirement interpreter: turns a requirement string into `None`
    (any version) or a text prefix the chosen version must start with. */
module Requirement {
  import opened Wrappers
  import opened Text

  predicate IsDigit(c: char) {
    '0' <= c <= '9'
  }

  predicate AllDigits(s: string) {
    forall i :: 0 <= i < |s| ==> IsDigit(s[i])
  }

  /** Index of the first `.` in `s`, or `|s|` when there is none. */
  function FirstDot(s: string): (k: nat)
    ensures k <= |s|
    ensures k < |s| ==> s[k] == '.'
    ensures forall i :: 0 <= i < k ==> s[i] != '.'
  {
    if s == [] then 0
    else if s[0] == '.' then 0
    else 1 + FirstDot(s[1..])
  }

  /** `s` is one to `parts` runs of ASCII digits joined by single dots,
      i.e. it fully matches `\d+(?:\.\d+){0,parts-1}`. */
  predicate DottedDigits(s: string, parts: nat)
    decreases parts
  {
    var k := FirstDot(s);
    parts >= 1 && k > 0 && AllDigits(s[..k])
    && (k == |s| || DottedDigits(s[k + 1..], parts - 1))
  }

  /** The full match of `\d+(?:\.\d+){0,2}`: `X`, `X.Y` or `X.Y.Z`. */
  predicate IsNumericVersion(s: string) {
    DottedDigits(s, 3)
  }

  /** A dotted-digit string is non-empty, made of digits and dots only, and
      begins and ends with a digit. */
  lemma {:induction false} DottedDigitsShape(s: string, parts: nat)
    requires DottedDigits(s, parts)
    ensures |s| > 0 && IsDigit(s[0]) && IsDigit(s[|s| - 1])
    ensures forall i :: 0 <= i < |s| ==> IsDigit(s[i]) || s[i] == '.'
    decreases parts
  {
    var k := FirstDot(s);
    assert s[..k][0] == s[0];
    if k == |s| {
      assert s[..k] == s;
    } else {
      var rest := s[k + 1..];
      DottedDigitsShape(rest, parts - 1);
      assert s[|s| - 1] == rest[|rest| - 1];
      forall i | 0 <= i < |s|
        ensures IsDigit(s[i]) || s[i] == '.'
      {
        if i < k {
          assert s[i] == s[..k][i];
        } else if i > k {
          assert s[i] == rest[i - k - 1];
        }
      }
    }
  }

  /** Text containing one of the comparison characters `<`, `>`, `=`. */
  predicate HasComparison(s: string) {
    '<' in s || '>' in s || '=' in s
  }

  /** Removes at most one leading `^` or `~`. */
  function Unprefixed(t: string): (u: string)
    ensures |t| - 1 <= |u| <= |t| && u == t[|t| - |u|..]
    ensures |u| < |t| <==> t != [] && (t[0] == '^' || t[0] == '~')
  {
    if t != [] && (t[0] == '^' || t[0] == '~') then t[1..] else t
  }

  /** The prefix made from requirement text that has already been stripped
      and lost its `^`/`~`: comparison text and non-numeric text stay as
      they are, numeric text gets a `.` appended. The guard that decides
      whether to append mirrors the source's own test; it always holds for a
      numeric string (see `AppendGuardHolds`). */
  function PrefixOfText(t: string): (p: string)
    ensures IsNumericVersion(t) <==> p == t + "."
    ensures !IsNumericVersion(t) <==> p == t
  {
    if HasComparison(t) then
      NumericHasNoComparison(t);
      t
    else if IsNumericVersion(t) then
      DottedDigitsShape(t, 3);
      if !(t[|t| - 1..] == ".") && t[|t| - 1] != '.' then t + "." else t
    else t
  }

  /** `_version_prefix`, as the code computes it. */
  function VersionPrefix(requirement: string): (r: Option<string>)
    ensures r.None? <==> Strip(requirement) == "*"
    ensures r.Some? ==> var u := Unprefixed(Strip(requirement));
      (IsNumericVersion(u) <==> r.value == u + ".")
      && (!IsNumericVersion(u) <==> r.value == u)
  {
    var stripped := Strip(requirement);
    if stripped == "*" then None else Some(PrefixOfText(Unprefixed(stripped)))
  }

  lemma NumericHasNoComparison(t: string)
    ensures HasComparison(t) ==> !IsNumericVersion(t)
  {
    if IsNumericVersion(t) {
      DottedDigitsShape(t, 3);
    }
  }

  /** The source's test "does not end with `.`" never fails on a numeric
      requirement, so its else-branch is dead: the dot is always appended. */
  lemma AppendGuardHolds(t: string)
    requires IsNumericVersion(t)
    ensures |t| > 0 && !(t[|t| - 1..] == ".") && t[|t| - 1] != '.'
  {
    DottedDigitsShape(t, 3);
  }

  /** Surrounding whitespace never matters. */
  lemma StripIrrelevant(requirement: string)
    ensures VersionPrefix(Strip(requirement)) == VersionPrefix(requirement)
  {
    StripIdempotent(requirement);
  }

  /** A leading `^` or `~` changes nothing, except that it hides a `*`: the
      operator is dropped and the rest is interpreted as it stands, with no
      reduction to one or two components. */
  lemma {:induction false} CaretTildeIgnored(op: char, v: string)
    requires op == '^' || op == '~'
    requires v == [] || (!IsSpace(v[0]) && !IsSpace(v[|v| - 1]))
    requires v == [] || (v[0] != '^' && v[0] != '~')
    requires v != "*"
    ensures VersionPrefix([op] + v) == VersionPrefix(v)
  {
    var w := [op] + v;
    assert !IsSpace(w[0]);
    assert v != [] ==> w[|w| - 1] == v[|v| - 1];
    assert !IsSpace(w[|w| - 1]);
    StripFixed(w);
    StripFixed(v);
    assert Strip(w) != "*" by {
      if v != [] { assert Strip(w)[1] == v[0]; }
    }
    assert Unprefixed(Strip(w)) == v by {
      assert w[1..] == v;
    }
    assert Unprefixed(Strip(v)) == v;
  }

  /** A numeric requirement, bare or behind `^`/`~`, becomes itself plus a
      single `.`, whatever its number of components. */
  lemma NumericPrefix(v: string)
    requires IsNumericVersion(v)
    ensures VersionPrefix(v) == Some(v + ".")
    ensures VersionPrefix("^" + v) == Some(v + ".")
    ensures VersionPrefix("~" + v) == Some(v + ".")
  {
    DottedDigitsShape(v, 3);
    StripFixed(v);
    CaretTildeIgnored('^', v);
    CaretTildeIgnored('~', v);
  }
}
