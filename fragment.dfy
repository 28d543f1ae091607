/** Dependency extraction: from the parsed `[dependencies]` table to a map
    from crate name to requirement text. The TOML text parser itself is not
    part of this model; its output arrives as `Entry` values. */
module Fragment {
  import opened Wrappers

  /** A TOML value found under a table's `version` key. */
  datatype TomlValue = TomlString(s: string) | TomlNonString

  /** The value a crate name is bound to in the parsed table: a bare string,
      an inline table (with or without a `version` key), or any other TOML
      value. */
  datatype Spec = Str(s: string) | Table(version: Option<TomlValue>) | Other

  /** An inline table whose `version` key holds a string. */
  predicate HasStringVersion(spec: Spec) {
    spec.Table? && spec.version.Some? && spec.version.value.TomlString?
  }

  /** A parsed dictionary in insertion order. */
  type Entries<V> = seq<(string, V)>

  function Names<V>(d: Entries<V>): (names: seq<string>)
    ensures |names| == |d|
    ensures forall i :: 0 <= i < |d| ==> names[i] == d[i].0
  {
    if d == [] then [] else [d[0].0] + Names(d[1..])
  }

  /** Dictionary keys are unique. */
  predicate Distinct(names: seq<string>) {
    forall i, j :: 0 <= i < j < |names| ==> names[i] != names[j]
  }

  /** Fills `extracted` entry by entry: a string is copied verbatim, a table
      contributes its string `version`, and a table without one, or any
      other value, falls back to the wildcard `"*"`. */
  method ExtractRequirements(deps: Entries<Spec>) returns (extracted: Entries<string>)
    requires Distinct(Names(deps))
    ensures Names(extracted) == Names(deps)
    ensures Distinct(Names(extracted))
    ensures forall i :: 0 <= i < |deps| && deps[i].1.Str? ==>
      extracted[i].1 == deps[i].1.s
    ensures forall i :: 0 <= i < |deps| && HasStringVersion(deps[i].1) ==>
      extracted[i].1 == deps[i].1.version.value.s
    ensures forall i :: 0 <= i < |deps| && !deps[i].1.Str? && !HasStringVersion(deps[i].1) ==>
      extracted[i].1 == "*"
  {
    extracted := [];
    for k := 0 to |deps|
      invariant |extracted| == k
      invariant forall i :: 0 <= i < k ==> extracted[i].0 == deps[i].0
      invariant forall i :: 0 <= i < k && deps[i].1.Str? ==> extracted[i].1 == deps[i].1.s
      invariant forall i :: 0 <= i < k && HasStringVersion(deps[i].1) ==>
        extracted[i].1 == deps[i].1.version.value.s
      invariant forall i :: 0 <= i < k && !deps[i].1.Str? && !HasStringVersion(deps[i].1) ==>
        extracted[i].1 == "*"
    {
      var (crate, spec) := deps[k];
      var requirement: string;
      match spec {
        case Str(s) =>
          requirement := s;
        case Table(version) =>
          if version.Some? && version.value.TomlString? {
            requirement := version.value.s;
          } else {
            requirement := "*";
          }
        case Other =>
          requirement := "*";
      }
      extracted := extracted + [(crate, requirement)];
    }
  }
}
