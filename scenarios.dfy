/** Worked cases: the documented requirement forms as the code actually
    interprets them, and small registries run through the resolver. */
module Scenarios {
  import opened Wrappers
  import opened Text
  import opened Requirement
  import opened Registry
  import opened Resolver

  lemma OneIsNumeric()
    ensures IsNumericVersion("1")
  {
    assert FirstDot("1") == 1;
    assert "1"[..1] == "1";
  }

  lemma OneTwoIsNumeric()
    ensures IsNumericVersion("1.2")
  {
    assert FirstDot("1.2") == 1;
    assert "1.2"[..1] == "1" && "1.2"[2..] == "2";
    assert FirstDot("2") == 1 && "2"[..1] == "2";
  }

  lemma OneTwoThreeIsNumeric()
    ensures IsNumericVersion("1.2.3")
  {
    assert FirstDot("1.2.3") == 1;
    assert "1.2.3"[..1] == "1" && "1.2.3"[2..] == "2.3";
    assert FirstDot("2.3") == 1;
    assert "2.3"[..1] == "2" && "2.3"[2..] == "3";
    assert FirstDot("3") == 1 && "3"[..1] == "3";
  }

  lemma PinIsNumeric()
    ensures IsNumericVersion("1.0.197")
  {
    assert FirstDot("1.0.197") == 1;
    assert "1.0.197"[..1] == "1" && "1.0.197"[2..] == "0.197";
    assert FirstDot("0.197") == 1;
    assert "0.197"[..1] == "0" && "0.197"[2..] == "197";
    assert FirstDot("197") == 3 && "197"[..3] == "197";
  }

  /** The concatenations the cases below are written with. */
  lemma LiteralJoins()
    ensures "1" + "." == "1." && "1.2" + "." == "1.2." && "1.2.3" + "." == "1.2.3."
    ensures "^" + "1.2.3" == "^1.2.3" && "~" + "1.2.3" == "~1.2.3"
  {
  }

  /** The wildcard, bare or padded with spaces, means "no constraint". */
  lemma WildcardPrefixes()
    ensures VersionPrefix("*") == None
    ensures VersionPrefix(" * ") == None
  {
    assert Start(" * ") == 1;
    assert End(" * ") == 2;
    assert Strip(" * ") == "*";
  }

  /** The documented bare forms `1` and `1.2` become `1.` and `1.2.`. */
  lemma OnePrefix()
    ensures VersionPrefix("1") == Some("1.")
  {
    OneIsNumeric();
    NumericPrefix("1");
    LiteralJoins();
  }

  lemma OneTwoPrefix()
    ensures VersionPrefix("1.2") == Some("1.2.")
  {
    OneTwoIsNumeric();
    NumericPrefix("1.2");
    LiteralJoins();
  }

  /** The documentation reduces `^1.2.3` to `1.` and `~1.2.3` to `1.2.`;
      the code keeps all three components. */
  lemma CaretTildeKeepAllComponents()
    ensures VersionPrefix("^1.2.3") == Some("1.2.3.")
    ensures VersionPrefix("~1.2.3") == Some("1.2.3.")
  {
    OneTwoThreeIsNumeric();
    NumericPrefix("1.2.3");
    LiteralJoins();
  }

  /** A fourth component is kept whole. */
  lemma FourComponentsKept()
    ensures VersionPrefix("1.2.3.4") == Some("1.2.3.4")
  {
    FourComponentsNotNumeric();
    StripFixed("1.2.3.4");
  }

  lemma FourComponentsNotNumeric()
    ensures !IsNumericVersion("1.2.3.4")
  {
    assert FirstDot("1.2.3.4") == 1 && "1.2.3.4"[2..] == "2.3.4";
    assert FirstDot("2.3.4") == 1 && "2.3.4"[2..] == "3.4";
    assert FirstDot("3.4") == 1 && "3.4"[2..] == "4";
  }

  /** A comparison operator is kept whole. */
  lemma ComparisonKept()
    ensures VersionPrefix(">=1.0") == Some(">=1.0")
  {
    StripFixed(">=1.0");
    assert !IsNumericVersion(">=1.0") by {
      assert FirstDot(">=1.0") == 3;
      assert !IsDigit(">=1.0"[..3][0]);
    }
  }

  /** Only one caret is removed. */
  lemma SecondCaretKept()
    ensures VersionPrefix("^^1") == Some("^1")
  {
    StripFixed("^^1");
    assert Unprefixed("^^1") == "^1";
    assert !IsNumericVersion("^1") by {
      assert FirstDot("^1") == 2;
      assert !IsDigit("^1"[..2][0]);
    }
  }

  /** An exact pin on the one published version fails to select: the pin
      `1.0.197` is read as the prefix `1.0.197.`. */
  lemma ExactPinNotSelected()
    ensures Select([VersionRecord("1.0.197", None, [])], "1.0.197").Failure?
  {
    PinIsNumeric();
    ExactVersionNeverChosen([VersionRecord("1.0.197", None, [])], "1.0.197");
  }

  const pinIndex: Index := map["serde" := [VersionRecord("1.0.197", None, [])]]

  /** So the whole resolution of that pin is empty. */
  lemma ExactPinResolvesNothing()
    ensures Resolution(pinIndex, [("serde", "1.0.197")]) == map[]
  {
    var resolve := Answers(pinIndex);
    ExactPinNotSelected();
    assert resolve("serde", "1.0.197") == ResolveOne(pinIndex, "serde", "1.0.197");
    RunSkipsLast(resolve, pinIndex.Keys, [("serde", "1.0.197")], map[]);
    assert [("serde", "1.0.197")][..0] == [];
  }

  const cycleIndex: Index := map[
    "a" := [VersionRecord("1.0.0", None, [Dependency("b", "*", Some("normal"))])],
    "b" := [VersionRecord("2.0.0", None, [Dependency("a", "*", None)])]]

  lemma CycleAnswers()
    ensures ResolveOne(cycleIndex, "a", "*") == Success(Chosen("1.0.0", cycleIndex["a"][0].dependencies))
    ensures ResolveOne(cycleIndex, "b", "*") == Success(Chosen("2.0.0", cycleIndex["b"][0].dependencies))
  {
    assert Live(cycleIndex["a"]) == cycleIndex["a"];
    assert Live(cycleIndex["b"]) == cycleIndex["b"];
  }

  /** `a`'s dependency on `b` is queued; `b`'s on `a` is not, since `a` is
      resolved by then. */
  lemma CyclePushes()
    ensures Pushes(cycleIndex["a"][0].dependencies, {"a"}) == [("b", "*")]
    ensures Pushes(cycleIndex["b"][0].dependencies, {"a", "b"}) == []
  {
    var da := cycleIndex["a"][0].dependencies;
    var db := cycleIndex["b"][0].dependencies;
    assert da[..0] == [] && db[..0] == [];
  }

  /** The run itself, for any oracle that answers the two requirements as
      the registry does. */
  lemma CycleRun(resolve: Oracle, chA: Chosen, chB: Chosen)
    requires Bounded(resolve, cycleIndex.Keys)
    requires chA.dependencies == cycleIndex["a"][0].dependencies
    requires chB.dependencies == cycleIndex["b"][0].dependencies
    requires resolve("a", "*") == Success(chA) && resolve("b", "*") == Success(chB)
    ensures var p1 := Record(map[], ("a", "*"), chA);
      Run(resolve, cycleIndex.Keys, [("a", "*")], map[]) == Record(p1, ("b", "*"), chB)
  {
    CyclePushes();
    var p1 := Record(map[], ("a", "*"), chA);
    assert p1.Keys == {"a"};
    RunResolvesLast(resolve, cycleIndex.Keys, [("a", "*")], map[], chA);
    var p2 := Record(p1, ("b", "*"), chB);
    assert p2.Keys == {"a", "b"};
    RunResolvesLast(resolve, cycleIndex.Keys, [("b", "*")], p1, chB);
  }

  /** A depends on B and B on A: the loop stops with exactly both. */
  lemma CycleResolves()
    ensures Versions(Resolution(cycleIndex, [("a", "*")])) == map["a" := "1.0.0", "b" := "2.0.0"]
  {
    var resolve := Answers(cycleIndex);
    var chA := Chosen("1.0.0", cycleIndex["a"][0].dependencies);
    var chB := Chosen("2.0.0", cycleIndex["b"][0].dependencies);
    CycleAnswers();
    assert resolve("a", "*") == Success(chA);
    assert resolve("b", "*") == Success(chB);
    CycleRun(resolve, chA, chB);
    var p1 := Record(map[], ("a", "*"), chA);
    VersionsRecord(map[], ("a", "*"), chA);
    VersionsRecord(p1, ("b", "*"), chB);
  }

  /** A resolution through a client that already caches every crate of
      the result: it returns the same map, and every request it makes is
      for a crate outside that result, so the result's crates are all
      answered from the cache. */
  method ResolveAgain(client: Client, initial: seq<Item>) returns (second: map<string, string>)
    requires client.Valid()
    requires Versions(Resolution(client.index, initial)).Keys <= client.cache.Keys
    modifies client
    ensures second == Versions(Resolution(client.index, initial))
    ensures GrewOutside(old(client.requests), client.requests, second.Keys)
  {
    second := ResolveDependencyTree(client, initial);
    GrewOutsideSubset(old(client.requests), client.requests, old(client.cache).Keys, second.Keys);
  }

  /** Resolving twice with one client gives the same map; the first run
      leaves every crate it resolved in the cache, which is what lets the
      second run be a `ResolveAgain`. */
  method ResolveTwice(client: Client, initial: seq<Item>) returns (first: map<string, string>, second: map<string, string>)
    requires client.Valid()
    modifies client
    ensures first == second && first == Versions(Resolution(client.index, initial))
  {
    first := ResolveDependencyTree(client, initial);
    second := ResolveAgain(client, initial);
  }
}
