/** The registry client: the version records the registry publishes, the
    pure choice of one version for a requirement, and the memoising client
    object that fetches records on demand. The HTTP registry is an
    immutable snapshot `index`; a crate absent from it is a failed fetch. */
module Registry {
  import opened Wrappers
  import opened Text
  import opened Requirement
  import opened Urls

  /** One entry of a version's `dependencies` array; `kind` is absent when
      the registry leaves it out. */
  datatype Dependency = Dependency(crateId: string, req: string, kind: Option<string>)

  /** One element of the `versions` array; `yanked` may be absent. */
  datatype VersionRecord = VersionRecord(num: string, yanked: Option<bool>, dependencies: seq<Dependency>)

  /** The pair `(version, dependencies_of_version)` handed to the resolver. */
  datatype Chosen = Chosen(version: string, dependencies: seq<Dependency>)

  datatype Error =
    | RegistryError(crate: string)          // the metadata request failed
    | NoVersions                            // `max()` of an empty list
    | VersionNotFound(requirement: string)  // exact branch found nothing
    | NoMatchingVersion(requirement: string) // prefix branch found nothing

  /** `v.get("yanked", False)`: a missing flag counts as not yanked. */
  predicate IsYanked(v: VersionRecord) {
    v.yanked == Some(true)
  }

  function ChosenOf(v: VersionRecord): Chosen {
    Chosen(v.num, v.dependencies)
  }

  /** A list comprehension `[x for x in s if p(x)]`. */
  function Filter<T(!new)>(s: seq<T>, p: T -> bool): (r: seq<T>)
    ensures |r| <= |s|
    ensures forall x :: x in r <==> x in s && p(x)
  {
    if s == [] then []
    else (if p(s[0]) then [s[0]] else []) + Filter(s[1..], p)
  }

  /** The comprehension keeps order and multiplicity: filtering a
      concatenation filters each part in turn. */
  lemma {:induction false} FilterAppend<T(!new)>(a: seq<T>, b: seq<T>, p: T -> bool)
    ensures Filter(a + b, p) == Filter(a, p) + Filter(b, p)
    decreases |a|
  {
    if a != [] {
      assert (a + b)[0] == a[0];
      assert (a + b)[1..] == a[1..] + b;
      FilterAppend(a[1..], b, p);
    } else {
      assert a + b == b;
    }
  }

  /** Filtering one element keeps it exactly when it satisfies the
      condition. */
  lemma FilterSingle<T(!new)>(x: T, p: T -> bool)
    ensures Filter([x], p) == if p(x) then [x] else []
  {
    var s := [x];
    assert s[0] == x && s[1..] == [];
    assert Filter(s, p) == (if p(s[0]) then [s[0]] else []) + Filter(s[1..], p);
  }

  /** The records that survive the yanked filter. */
  function Live(versions: seq<VersionRecord>): (live: seq<VersionRecord>)
    ensures forall v :: v in live <==> v in versions && !IsYanked(v)
  {
    Filter(versions, (v: VersionRecord) => !IsYanked(v))
  }

  /** The candidates of the prefix branch. */
  function WithPrefix(vs: seq<VersionRecord>, prefix: string): (r: seq<VersionRecord>)
    ensures forall v :: v in r <==> v in vs && StartsWith(v.num, prefix)
  {
    Filter(vs, (v: VersionRecord) => StartsWith(v.num, prefix))
  }

  /** Index of the element `max(vs, key=lambda v: v["num"])` returns: its
      `num` is the greatest in string order, and, on ties, it is the first
      such element because every earlier `num` is strictly smaller. */
  function MaxIndex(vs: seq<VersionRecord>): (k: nat)
    requires vs != []
    ensures k < |vs|
    ensures forall j :: 0 <= j < |vs| ==> LessEq(vs[j].num, vs[k].num)
    ensures forall j :: 0 <= j < k ==> Less(vs[j].num, vs[k].num)
    decreases |vs|
  {
    if |vs| == 1 then 0
    else
      var init := vs[..|vs| - 1];
      var k := MaxIndex(init);
      if Less(vs[k].num, vs[|vs| - 1].num) then
        MaxMovesToLast(vs, init, k);
        |vs| - 1
      else
        MaxStays(vs, init, k);
        k
  }

  lemma MaxMovesToLast(vs: seq<VersionRecord>, init: seq<VersionRecord>, k: nat)
    requires |vs| > 1 && init == vs[..|vs| - 1] && 0 <= k < |init|
    requires forall j :: 0 <= j < |init| ==> LessEq(init[j].num, init[k].num)
    requires Less(vs[k].num, vs[|vs| - 1].num)
    ensures forall j :: 0 <= j < |vs| ==> LessEq(vs[j].num, vs[|vs| - 1].num)
    ensures forall j :: 0 <= j < |vs| - 1 ==> Less(vs[j].num, vs[|vs| - 1].num)
  {
    forall j | 0 <= j < |vs| - 1
      ensures Less(vs[j].num, vs[|vs| - 1].num)
    {
      assert init[j] == vs[j];
      if vs[j].num != vs[k].num {
        LessTransitive(vs[j].num, vs[k].num, vs[|vs| - 1].num);
      }
    }
  }

  lemma MaxStays(vs: seq<VersionRecord>, init: seq<VersionRecord>, k: nat)
    requires |vs| > 1 && init == vs[..|vs| - 1] && 0 <= k < |init|
    requires forall j :: 0 <= j < |init| ==> LessEq(init[j].num, init[k].num)
    requires forall j :: 0 <= j < k ==> Less(init[j].num, init[k].num)
    requires !Less(vs[k].num, vs[|vs| - 1].num)
    ensures forall j :: 0 <= j < |vs| ==> LessEq(vs[j].num, vs[k].num)
    ensures forall j :: 0 <= j < k ==> Less(vs[j].num, vs[k].num)
  {
    LessTotal(vs[k].num, vs[|vs| - 1].num);
    forall j | 0 <= j < |vs| - 1
      ensures LessEq(vs[j].num, vs[k].num) && (j < k ==> Less(vs[j].num, vs[k].num))
    {
      assert init[j] == vs[j];
    }
  }

  /** `vs[k]` is the first record with the greatest `num`. */
  predicate FirstMaximum(vs: seq<VersionRecord>, k: int) {
    0 <= k < |vs| && (forall j :: 0 <= j < |vs| ==> LessEq(vs[j].num, vs[k].num))
    && forall j :: 0 <= j < k ==> Less(vs[j].num, vs[k].num)
  }

  /** `max(vs, key=num)` returned as `(num, dependencies)`; an empty list
      raises. */
  function Latest(vs: seq<VersionRecord>): (r: Result<Chosen, Error>)
    ensures r.Success? <==> vs != []
    ensures r.Failure? ==> r.error == NoVersions
    ensures r.Success? ==> forall v :: v in vs ==> LessEq(v.num, r.value.version)
    ensures r.Success? ==> exists k :: FirstMaximum(vs, k) && r.value == ChosenOf(vs[k])
  {
    if vs == [] then Failure(NoVersions)
    else
      var k := MaxIndex(vs);
      assert forall v :: v in vs ==> exists j :: 0 <= j < |vs| && vs[j] == v;
      Success(ChosenOf(vs[k]))
  }

  /** `vs[k]` is the first record whose `num` is `requirement`. */
  predicate FirstMatch(vs: seq<VersionRecord>, requirement: string, k: int) {
    0 <= k < |vs| && vs[k].num == requirement && forall j :: 0 <= j < k ==> vs[j].num != requirement
  }

  lemma FirstMatchShift(vs: seq<VersionRecord>, requirement: string, k: int)
    requires vs != [] && vs[0].num != requirement
    requires FirstMatch(vs[1..], requirement, k)
    ensures FirstMatch(vs, requirement, k + 1) && vs[k + 1] == vs[1..][k]
  {
    forall j | 0 <= j < k + 1
      ensures vs[j].num != requirement
    {
      if j > 0 {
        assert vs[j] == vs[1..][j - 1];
      }
    }
  }

  /** The exact-match loop: the first record whose `num` equals the
      requirement, else an error. */
  function FindExact(vs: seq<VersionRecord>, requirement: string): (r: Result<Chosen, Error>)
    ensures r.Success? <==> exists v :: v in vs && v.num == requirement
    ensures r.Success? ==> r.value.version == requirement && exists v :: v in vs && r.value == ChosenOf(v)
    ensures r.Success? ==> exists k :: FirstMatch(vs, requirement, k) && r.value == ChosenOf(vs[k])
    ensures r.Failure? ==> r.error == VersionNotFound(requirement)
  {
    if vs == [] then Failure(VersionNotFound(requirement))
    else if vs[0].num == requirement then Success(ChosenOf(vs[0]))
    else
      var r := FindExact(vs[1..], requirement);
      assert forall v :: v in vs[1..] ==> v in vs;
      assert forall v :: v in vs && v != vs[0] ==> v in vs[1..];
      if r.Success? then
        var k :| FirstMatch(vs[1..], requirement, k) && r.value == ChosenOf(vs[1..][k]);
        FirstMatchShift(vs, requirement, k);
        r
      else r
  }

  /** The condition under which the exact-match branch runs: the prefix is
      the raw requirement itself, which has `=` and neither `<` nor `>`. */
  predicate IsExactBranch(requirement: string, prefix: string) {
    prefix == requirement && '<' !in requirement && '>' !in requirement && '=' in requirement
  }

  /** `_latest_satisfying_version` once the records are at hand. */
  function Select(versions: seq<VersionRecord>, requirement: string): (r: Result<Chosen, Error>)
    ensures r.Success? ==> exists v :: v in versions && !IsYanked(v) && r.value == ChosenOf(v)
  {
    var live := Live(versions);
    if requirement == "*" then Latest(live)
    else match VersionPrefix(requirement)
      case None => Latest(live)
      case Some(prefix) =>
        if IsExactBranch(requirement, prefix) then FindExact(live, requirement)
        else
          var candidates := WithPrefix(live, prefix);
          if candidates == [] then Failure(NoMatchingVersion(requirement)) else Latest(candidates)
  }

  /** Wildcard (raw `"*"` or `"*"` after stripping): the string-greatest
      non-yanked version, failing only when every version is yanked. */
  lemma SelectAny(versions: seq<VersionRecord>, requirement: string)
    requires Strip(requirement) == "*"
    ensures var r := Select(versions, requirement);
      && (r.Success? <==> exists v :: v in versions && !IsYanked(v))
      && (r.Success? ==> forall v :: v in versions && !IsYanked(v) ==> LessEq(v.num, r.value.version))
  {
    var live := Live(versions);
    assert forall v :: v in live <==> v in versions && !IsYanked(v);
    if requirement != "*" {
      assert VersionPrefix(requirement) == None;
    }
    assert Select(versions, requirement) == Latest(live);
  }

  /** Exact branch: succeeds exactly when a non-yanked record carries the
      requirement text as its `num`, and then returns that version. */
  lemma SelectExact(versions: seq<VersionRecord>, requirement: string)
    requires VersionPrefix(requirement) == Some(requirement)
    requires IsExactBranch(requirement, requirement)
    ensures var r := Select(versions, requirement);
      && (r.Success? <==> exists v :: v in versions && !IsYanked(v) && v.num == requirement)
      && (r.Success? ==> r.value.version == requirement)
      && (r.Failure? ==> r.error == VersionNotFound(requirement))
  {
    var live := Live(versions);
    assert forall v :: v in live <==> v in versions && !IsYanked(v);
    assert requirement != "*" by {
      assert '=' in requirement;
    }
    assert Select(versions, requirement) == FindExact(live, requirement);
  }

  /** Prefix branch: the result starts with the prefix and is the
      string-greatest such non-yanked version; it fails exactly when no
      non-yanked version starts with the prefix. */
  lemma SelectPrefix(versions: seq<VersionRecord>, requirement: string, prefix: string)
    requires VersionPrefix(requirement) == Some(prefix)
    requires !IsExactBranch(requirement, prefix)
    ensures var r := Select(versions, requirement);
      && (r.Success? <==> exists v :: v in versions && !IsYanked(v) && StartsWith(v.num, prefix))
      && (r.Success? ==> StartsWith(r.value.version, prefix))
      && (r.Success? ==> forall v :: v in versions && !IsYanked(v) && StartsWith(v.num, prefix) ==>
            LessEq(v.num, r.value.version))
      && (r.Failure? ==> r.error == NoMatchingVersion(requirement))
  {
    var candidates := WithPrefix(Live(versions), prefix);
    PrefixBranch(versions, requirement, prefix);
    assert forall v :: v in candidates <==> v in versions && !IsYanked(v) && StartsWith(v.num, prefix);
  }

  /** In the prefix branch, `Select` chooses among the non-yanked records
      with the prefix. */
  lemma PrefixBranch(versions: seq<VersionRecord>, requirement: string, prefix: string)
    requires VersionPrefix(requirement) == Some(prefix)
    requires !IsExactBranch(requirement, prefix)
    ensures var candidates := WithPrefix(Live(versions), prefix);
      Select(versions, requirement)
        == if candidates == [] then Failure(NoMatchingVersion(requirement)) else Latest(candidates)
  {
    StripFixed("*");
  }

  /** A plain numeric requirement such as `1.0.197` is turned into the
      prefix `1.0.197.`, so the version named by the requirement is never
      the one chosen: an exact version pin cannot resolve to itself. */
  lemma ExactVersionNeverChosen(versions: seq<VersionRecord>, v: string)
    requires IsNumericVersion(v)
    ensures var r := Select(versions, v);
      r.Success? ==> StartsWith(r.value.version, v + ".") && r.value.version != v
  {
    NumericPrefix(v);
    SelectPrefix(versions, v, v + ".");
  }

  /** The metadata request, answered from the snapshot. */
  function Fetch(index: map<string, seq<VersionRecord>>, crate: string): (r: Result<seq<VersionRecord>, Error>)
    ensures r.Success? <==> crate in index
    ensures r.Success? ==> r.value == index[crate]
  {
    if crate in index then Success(index[crate]) else Failure(RegistryError(crate))
  }

  /** Fetch then choose: what `_latest_satisfying_version` returns against
      the snapshot. */
  function ResolveOne(index: map<string, seq<VersionRecord>>, crate: string, requirement: string): (r: Result<Chosen, Error>)
    ensures r.Success? ==> crate in index
    ensures r.Success? ==> exists v :: v in index[crate] && !IsYanked(v) && r.value == ChosenOf(v)
  {
    match Fetch(index, crate)
    case Failure(e) => Failure(e)
    case Success(versions) => Select(versions, requirement)
  }

  /** The log `after` extends `before`, and each request it adds is for a
      crate outside `known`. */
  ghost predicate GrewOutside(before: seq<string>, after: seq<string>, known: set<string>) {
    && |before| <= |after| && after[..|before|] == before
    && forall i :: |before| <= i < |after| ==> RequestOutside(after[i], known)
  }

  /** `url` is the metadata URL of a crate outside `known`. */
  ghost predicate RequestOutside(url: string, known: set<string>) {
    exists c :: c !in known && url == IndexUrl(c)
  }

  /** One more call keeps the log growing outside `known`: it adds nothing,
      or one request for a crate outside `known`. */
  lemma GrewOutsideStep(before: seq<string>, mid: seq<string>, after: seq<string>, known: set<string>, crate: string)
    requires GrewOutside(before, mid, known)
    requires after == mid || (after == mid + [IndexUrl(crate)] && crate !in known)
    ensures GrewOutside(before, after, known)
  {
    if after != mid {
      assert after[..|before|] == mid[..|before|];
      forall i | |before| <= i < |after|
        ensures RequestOutside(after[i], known)
      {
        if i < |mid| {
          assert after[i] == mid[i];
        } else {
          assert after[i] == IndexUrl(crate);
        }
      }
    }
  }

  /** A log that grew outside `known` grew outside any part of it. */
  lemma GrewOutsideSubset(before: seq<string>, after: seq<string>, known: set<string>, part: set<string>)
    requires GrewOutside(before, after, known) && part <= known
    ensures GrewOutside(before, after, part)
  {
    forall i | |before| <= i < |after|
      ensures RequestOutside(after[i], part)
    {
      assert RequestOutside(after[i], known);
      var c :| c !in known && after[i] == IndexUrl(c);
      assert c !in part;
    }
  }

  /** The client object: the snapshot it stands for, the memo of fetched
      records, and (ghost) the metadata URLs it has requested, in order. */
  class Client {
    const index: map<string, seq<VersionRecord>>
    var cache: map<string, seq<VersionRecord>>
    ghost var requests: seq<string>

    /** The memo only ever holds what the registry answered. */
    ghost predicate Valid()
      reads this
    {
      forall c :: c in cache ==> c in index && cache[c] == index[c]
    }

    constructor (index: map<string, seq<VersionRecord>>)
      ensures Valid()
      ensures this.index == index && cache == map[] && requests == []
    {
      this.index := index;
      cache := map[];
      requests := [];
    }

    /** Since a moment when the log was `before` and the memo held the
        crates `known`, the log has only grown, and each request added
        since was for a crate outside `known`. */
    ghost predicate RequestedOnlyOutside(before: seq<string>, known: set<string>)
      reads this
    {
      GrewOutside(before, requests, known)
    }

    /** `_fetch_crate_versions`: a cached crate is answered without a
        request; otherwise one request is made and a success is memoised.
        Existing entries never change. */
    method FetchCrateVersions(crate: string) returns (r: Result<seq<VersionRecord>, Error>)
      requires Valid()
      modifies this
      ensures Valid()
      ensures r == Fetch(index, crate)
      ensures crate in old(cache) ==> cache == old(cache) && requests == old(requests)
      ensures crate !in old(cache) ==> requests == old(requests) + [IndexUrl(crate)]
      ensures crate !in old(cache) ==>
        cache == if r.Success? then old(cache)[crate := r.value] else old(cache)
    {
      if crate in cache {
        return Success(cache[crate]);
      }
      requests := requests + [IndexUrl(crate)];
      r := Fetch(index, crate);
      if r.Success? {
        cache := cache[crate := r.value];
      }
    }

    /** `_latest_satisfying_version`: fetch (through the memo), then
        choose. */
    method LatestSatisfyingVersion(crate: string, requirement: string) returns (r: Result<Chosen, Error>)
      requires Valid()
      modifies this
      ensures Valid()
      ensures r == ResolveOne(index, crate, requirement)
      ensures crate in old(cache) ==> cache == old(cache) && requests == old(requests)
      ensures crate !in old(cache) ==> requests == old(requests) + [IndexUrl(crate)]
      ensures crate !in old(cache) ==>
        cache == if crate in index then old(cache)[crate := index[crate]] else old(cache)
      ensures forall c :: c in old(cache) ==> c in cache && cache[c] == old(cache)[c]
    {
      var versions :- FetchCrateVersions(crate);
      r := Select(versions, requirement);
    }
  }
}
