/** Recursive resolution: a LIFO worklist of (crate, requirement) pairs
    drives a map of resolved crates that only grows. `Run` is the reference
    definition; `ResolveDependencyTree` is the loop, proved equal to it. */
module Resolver {
  import opened Wrappers
  import opened Registry

  type Index = map<string, seq<VersionRecord>>

  /** The registry client's answer for a `(crate, requirement)` pair. The
      resolver's properties hold whatever the answers are, provided only
      crates of a finite `domain` are ever resolved. */
  type Oracle = (string, string) -> Result<Chosen, Error>

  ghost predicate Bounded(resolve: Oracle, domain: set<string>) {
    forall c, q :: resolve(c, q).Success? ==> c in domain
  }

  /** The answers of `_latest_satisfying_version` against a snapshot. */
  function Answers(index: Index): (resolve: Oracle)
    ensures Bounded(resolve, index.Keys)
    ensures forall c, q :: resolve(c, q) == ResolveOne(index, c, q)
  {
    (c, q) => ResolveOne(index, c, q)
  }

  /** A pending `(crate, requirement)` pair. */
  type Item = (string, string)

  /** What resolving a crate fixed: the requirement it was resolved for, the
      chosen version and that version's dependencies. */
  datatype Pick = Pick(req: string, version: string, dependencies: seq<Dependency>)

  /** `dep.get("kind") == "dev"` */
  predicate IsDev(d: Dependency) {
    d.kind == Some("dev")
  }

  /** The items queued for the dependencies of a freshly resolved version:
      each non-dev dependency whose crate is not resolved yet, in order. */
  function Pushes(deps: seq<Dependency>, done: set<string>): seq<Item>
    decreases |deps|
  {
    if deps == [] then []
    else
      var d := deps[|deps| - 1];
      Pushes(deps[..|deps| - 1], done) + (if !IsDev(d) && d.crateId !in done then [(d.crateId, d.req)] else [])
  }

  /** Exactly the non-dev dependencies on crates outside `done` are queued. */
  lemma {:induction false} PushesContents(deps: seq<Dependency>, done: set<string>)
    ensures forall d :: d in deps && !IsDev(d) && d.crateId !in done ==> (d.crateId, d.req) in Pushes(deps, done)
    ensures forall x :: x in Pushes(deps, done) ==> x.0 !in done && exists d :: d in deps && !IsDev(d) && x == (d.crateId, d.req)
    decreases |deps|
  {
    if deps != [] {
      var init, d := deps[..|deps| - 1], deps[|deps| - 1];
      PushesContents(init, done);
      assert forall e :: e in deps ==> e in init || e == d;
      assert forall e :: e in init ==> e in deps;
    }
  }

  lemma PushesSnoc(deps: seq<Dependency>, i: nat, done: set<string>)
    requires i < |deps|
    ensures var d := deps[i];
      Pushes(deps[..i + 1], done) == Pushes(deps[..i], done) + (if !IsDev(d) && d.crateId !in done then [(d.crateId, d.req)] else [])
  {
    assert deps[..i + 1][..i] == deps[..i];
  }

  /** The resolved crates as the source returns them: name to version. */
  function Versions(picks: map<string, Pick>): (resolved: map<string, string>)
    ensures resolved.Keys == picks.Keys
    ensures forall k :: k in picks ==> resolved[k] == picks[k].version
  {
    map k | k in picks :: picks[k].version
  }

  /** The pick recorded when `item` resolves to `ch`. */
  function Record(picks: map<string, Pick>, item: Item, ch: Chosen): map<string, Pick> {
    picks[item.0 := Pick(item.1, ch.version, ch.dependencies)]
  }

  /** The loop of `resolve_dependency_tree` from a given state: pop the last
      item; skip it if its crate is resolved or fails to resolve; otherwise
      record the pick and push the new non-dev dependencies. It terminates
      because each recorded pick is a new crate of the finite `domain`, and
      each skip shortens the worklist. */
  function Run(resolve: Oracle, domain: set<string>, work: seq<Item>, picks: map<string, Pick>): (r: map<string, Pick>)
    requires Bounded(resolve, domain) && picks.Keys <= domain
    ensures r.Keys <= domain
    decreases |domain - picks.Keys|, |work|
  {
    if work == [] then picks
    else
      var (crate, req) := work[|work| - 1];
      var rest := work[..|work| - 1];
      if crate in picks then Run(resolve, domain, rest, picks)
      else match resolve(crate, req)
        case Failure(_) => Run(resolve, domain, rest, picks)
        case Success(ch) =>
          var picks' := Record(picks, (crate, req), ch);
          assert domain - picks'.Keys < domain - picks.Keys by {
            assert crate in domain - picks.Keys;
          }
          Run(resolve, domain, rest + Pushes(ch.dependencies, picks'.Keys), picks')
  }

  lemma VersionsRecord(picks: map<string, Pick>, item: Item, ch: Chosen)
    ensures Versions(Record(picks, item, ch)) == Versions(picks)[item.0 := ch.version]
  {
  }

  /** One step of `Run` in which the popped crate resolves: it is recorded
      and its new non-dev dependencies are pushed. */
  lemma RunResolvesLast(resolve: Oracle, domain: set<string>, work: seq<Item>, picks: map<string, Pick>, ch: Chosen)
    requires Bounded(resolve, domain) && picks.Keys <= domain && work != []
    requires work[|work| - 1].0 !in picks
    requires resolve(work[|work| - 1].0, work[|work| - 1].1) == Success(ch)
    ensures var picks' := Record(picks, work[|work| - 1], ch);
      && picks'.Keys <= domain
      && |domain - picks'.Keys| < |domain - picks.Keys|
      && Run(resolve, domain, work, picks) == Run(resolve, domain, work[..|work| - 1] + Pushes(ch.dependencies, picks'.Keys), picks')
  {
    var crate := work[|work| - 1].0;
    assert domain - Record(picks, work[|work| - 1], ch).Keys < domain - picks.Keys by {
      assert crate in domain - picks.Keys;
    }
  }

  /** One step of `Run` in which the popped item is skipped: its crate is
      resolved already, or it cannot be resolved. */
  lemma RunSkipsLast(resolve: Oracle, domain: set<string>, work: seq<Item>, picks: map<string, Pick>)
    requires Bounded(resolve, domain) && picks.Keys <= domain && work != []
    requires work[|work| - 1].0 in picks || resolve(work[|work| - 1].0, work[|work| - 1].1).Failure?
    ensures Run(resolve, domain, work, picks) == Run(resolve, domain, work[..|work| - 1], picks)
  {
  }

  /** The whole resolution of an initial requirement list (the initial
      dictionary's items in insertion order) against a snapshot. */
  function Resolution(index: Index, initial: seq<Item>): map<string, Pick> {
    Run(Answers(index), index.Keys, initial, map[])
  }

  /** Every pick is the answer for the requirement it was resolved for. */
  ghost predicate Consistent(resolve: Oracle, picks: map<string, Pick>) {
    forall k :: k in picks ==>
      resolve(k, picks[k].req) == Success(Chosen(picks[k].version, picks[k].dependencies))
  }

  /** `(k, q)` is a non-dev dependency of some version picked in `r`. */
  ghost predicate DemandedBy(r: map<string, Pick>, k: string, q: string) {
    exists j, d :: j in r && d in r[j].dependencies && !IsDev(d) && d.crateId == k && d.req == q
  }

  /** `p` was resolved or cannot be resolved. */
  ghost predicate Settled(resolve: Oracle, r: map<string, Pick>, p: Item) {
    p.0 in r || resolve(p.0, p.1).Failure?
  }

  /** Resolution only adds crates: a resolved crate keeps its pick (and so
      its version) to the end, so a later requirement for it is ignored. */
  lemma {:induction false} RunExtends(resolve: Oracle, domain: set<string>, work: seq<Item>, picks: map<string, Pick>)
    requires Bounded(resolve, domain) && picks.Keys <= domain
    ensures var r := Run(resolve, domain, work, picks);
      forall k :: k in picks ==> k in r && r[k] == picks[k]
    decreases |domain - picks.Keys|, |work|
  {
    if work != [] {
      var item := work[|work| - 1];
      var rest := work[..|work| - 1];
      if item.0 in picks || resolve(item.0, item.1).Failure? {
        RunSkipsLast(resolve, domain, work, picks);
        RunExtends(resolve, domain, rest, picks);
      } else {
        var ch := resolve(item.0, item.1).value;
        var picks' := Record(picks, item, ch);
        RunResolvesLast(resolve, domain, work, picks, ch);
        RunExtends(resolve, domain, rest + Pushes(ch.dependencies, picks'.Keys), picks');
      }
    }
  }

  /** Every pick is the answer for its requirement. */
  lemma {:induction false} RunConsistent(resolve: Oracle, domain: set<string>, work: seq<Item>, picks: map<string, Pick>)
    requires Bounded(resolve, domain) && picks.Keys <= domain
    requires Consistent(resolve, picks)
    ensures Consistent(resolve, Run(resolve, domain, work, picks))
    decreases |domain - picks.Keys|, |work|
  {
    if work != [] {
      var item := work[|work| - 1];
      var rest := work[..|work| - 1];
      if item.0 in picks || resolve(item.0, item.1).Failure? {
        RunSkipsLast(resolve, domain, work, picks);
        RunConsistent(resolve, domain, rest, picks);
      } else {
        var ch := resolve(item.0, item.1).value;
        var picks' := Record(picks, item, ch);
        RunResolvesLast(resolve, domain, work, picks, ch);
        forall k | k in picks'
          ensures resolve(k, picks'[k].req) == Success(Chosen(picks'[k].version, picks'[k].dependencies))
        {
          if k != item.0 {
            assert picks'[k] == picks[k];
          }
        }
        RunConsistent(resolve, domain, rest + Pushes(ch.dependencies, picks'.Keys), picks');
      }
    }
  }

  /** Every crate added was asked for: it is a worklist item, or a non-dev
      dependency of a version picked along the way, with the very
      requirement it was resolved for. */
  lemma {:induction false} RunOrigin(resolve: Oracle, domain: set<string>, work: seq<Item>, picks: map<string, Pick>)
    requires Bounded(resolve, domain) && picks.Keys <= domain
    ensures var r := Run(resolve, domain, work, picks);
      forall k :: k in r && k !in picks ==> (k, r[k].req) in work || DemandedBy(r, k, r[k].req)
    decreases |domain - picks.Keys|, |work|
  {
    if work != [] {
      var item := work[|work| - 1];
      var rest := work[..|work| - 1];
      assert forall x :: x in rest ==> x in work;
      if item.0 in picks || resolve(item.0, item.1).Failure? {
        RunSkipsLast(resolve, domain, work, picks);
        RunOrigin(resolve, domain, rest, picks);
      } else {
        var ch := resolve(item.0, item.1).value;
        var picks' := Record(picks, item, ch);
        RunResolvesLast(resolve, domain, work, picks, ch);
        var pushed := Pushes(ch.dependencies, picks'.Keys);
        var work' := rest + pushed;
        var r := Run(resolve, domain, work', picks');
        RunOrigin(resolve, domain, work', picks');
        RunExtends(resolve, domain, work', picks');
        forall k | k in r && k !in picks
          ensures (k, r[k].req) in work || DemandedBy(r, k, r[k].req)
        {
          OriginAfterPick(work, picks, ch, r, k);
        }
      }
    }
  }

  /** The inductive step of `RunOrigin` for one crate `k`, when the last
      item resolved to `ch`. */
  lemma OriginAfterPick(work: seq<Item>, picks: map<string, Pick>, ch: Chosen, r: map<string, Pick>, k: string)
    requires work != []
    requires var picks' := Record(picks, work[|work| - 1], ch);
      && (forall j :: j in picks' ==> j in r && r[j] == picks'[j])
      && (forall j :: j in r && j !in picks' ==>
            (j, r[j].req) in work[..|work| - 1] + Pushes(ch.dependencies, picks'.Keys) || DemandedBy(r, j, r[j].req))
    requires k in r && k !in picks
    ensures (k, r[k].req) in work || DemandedBy(r, k, r[k].req)
  {
    var item := work[|work| - 1];
    var rest := work[..|work| - 1];
    var picks' := Record(picks, item, ch);
    var pushed := Pushes(ch.dependencies, picks'.Keys);
    var x := (k, r[k].req);
    PushesContents(ch.dependencies, picks'.Keys);
    if k == item.0 {
      assert x == item;
    } else if x in pushed {
      var d :| d in ch.dependencies && !IsDev(d) && x == (d.crateId, d.req);
      assert d in r[item.0].dependencies;
      assert DemandedBy(r, k, x.1);
    } else if x in rest {
      assert x in work;
    }
  }

  /** An item that was on the worklist, or whose crate was already picked,
      ends up resolved or is one that cannot be resolved. */
  lemma {:induction false} RunSettles(resolve: Oracle, domain: set<string>, work: seq<Item>, picks: map<string, Pick>, p: Item)
    requires Bounded(resolve, domain) && picks.Keys <= domain
    requires p in work || p.0 in picks
    ensures Settled(resolve, Run(resolve, domain, work, picks), p)
    decreases |domain - picks.Keys|, |work|
  {
    RunExtends(resolve, domain, work, picks);
    if work != [] && p.0 !in picks {
      var item := work[|work| - 1];
      var rest := work[..|work| - 1];
      assert p == item || p in rest;
      if item.0 in picks || resolve(item.0, item.1).Failure? {
        RunSkipsLast(resolve, domain, work, picks);
        if p != item {
          RunSettles(resolve, domain, rest, picks, p);
        }
      } else {
        var ch := resolve(item.0, item.1).value;
        var picks' := Record(picks, item, ch);
        RunResolvesLast(resolve, domain, work, picks, ch);
        var work' := rest + Pushes(ch.dependencies, picks'.Keys);
        assert p in rest ==> p in work';
        RunSettles(resolve, domain, work', picks', p);
      }
    }
  }

  /** The dependencies of every pick are each either queued, already
      picked, or unresolvable. */
  ghost predicate Covered(resolve: Oracle, work: seq<Item>, picks: map<string, Pick>) {
    forall k, d :: k in picks && d in picks[k].dependencies && !IsDev(d) ==>
      (d.crateId, d.req) in work || d.crateId in picks || resolve(d.crateId, d.req).Failure?
  }

  lemma CoveredAfterSkip(resolve: Oracle, work: seq<Item>, picks: map<string, Pick>)
    requires work != [] && Covered(resolve, work, picks)
    requires work[|work| - 1].0 in picks || resolve(work[|work| - 1].0, work[|work| - 1].1).Failure?
    ensures Covered(resolve, work[..|work| - 1], picks)
  {
    var rest := work[..|work| - 1];
    forall k, d | k in picks && d in picks[k].dependencies && !IsDev(d)
      ensures (d.crateId, d.req) in rest || d.crateId in picks || resolve(d.crateId, d.req).Failure?
    {
      assert (d.crateId, d.req) in work ==> (d.crateId, d.req) in rest || (d.crateId, d.req) == work[|work| - 1];
    }
  }

  lemma CoveredAfterPick(resolve: Oracle, work: seq<Item>, picks: map<string, Pick>, ch: Chosen)
    requires work != [] && Covered(resolve, work, picks)
    ensures var picks' := Record(picks, work[|work| - 1], ch);
      Covered(resolve, work[..|work| - 1] + Pushes(ch.dependencies, picks'.Keys), picks')
  {
    var item := work[|work| - 1];
    var rest := work[..|work| - 1];
    var picks' := Record(picks, item, ch);
    var work' := rest + Pushes(ch.dependencies, picks'.Keys);
    PushesContents(ch.dependencies, picks'.Keys);
    forall k, d | k in picks' && d in picks'[k].dependencies && !IsDev(d)
      ensures (d.crateId, d.req) in work' || d.crateId in picks' || resolve(d.crateId, d.req).Failure?
    {
      if k != item.0 {
        assert picks'[k] == picks[k];
        assert (d.crateId, d.req) in work ==> (d.crateId, d.req) in rest || (d.crateId, d.req) == item;
      }
    }
  }

  /** Resolution is closed under the non-dev dependencies of the versions it
      picks, except for dependencies that cannot be resolved. */
  lemma {:induction false} RunClosed(resolve: Oracle, domain: set<string>, work: seq<Item>, picks: map<string, Pick>)
    requires Bounded(resolve, domain) && picks.Keys <= domain
    requires Covered(resolve, work, picks)
    ensures var r := Run(resolve, domain, work, picks);
      forall k, d :: k in r && d in r[k].dependencies && !IsDev(d) ==> Settled(resolve, r, (d.crateId, d.req))
    decreases |domain - picks.Keys|, |work|
  {
    if work != [] {
      var item := work[|work| - 1];
      var rest := work[..|work| - 1];
      if item.0 in picks || resolve(item.0, item.1).Failure? {
        CoveredAfterSkip(resolve, work, picks);
        RunSkipsLast(resolve, domain, work, picks);
        RunClosed(resolve, domain, rest, picks);
      } else {
        var ch := resolve(item.0, item.1).value;
        var picks' := Record(picks, item, ch);
        CoveredAfterPick(resolve, work, picks, ch);
        RunResolvesLast(resolve, domain, work, picks, ch);
        RunClosed(resolve, domain, rest + Pushes(ch.dependencies, picks'.Keys), picks');
      }
    }
  }

  /** What the resolver promises about its result: the crates come from
      the registry; each version is the registry client's answer for the
      requirement that resolved it; each crate was either in the initial
      list or is a non-dev dependency of a picked version; and every
      initial item and every non-dev dependency of a picked version was
      resolved or is unresolvable. */
  lemma ResolutionCorrect(index: Index, initial: seq<Item>)
    ensures var r := Resolution(index, initial);
      && r.Keys <= index.Keys
      && (forall k :: k in r ==> ResolveOne(index, k, r[k].req) == Success(Chosen(r[k].version, r[k].dependencies)))
      && (forall k :: k in r ==> (k, r[k].req) in initial || DemandedBy(r, k, r[k].req))
      && (forall p :: p in initial ==> p.0 in r || ResolveOne(index, p.0, p.1).Failure?)
      && (forall k, d :: k in r && d in r[k].dependencies && !IsDev(d) ==>
            d.crateId in r || ResolveOne(index, d.crateId, d.req).Failure?)
  {
    var resolve := Answers(index);
    var r := Resolution(index, initial);
    assert r == Run(resolve, index.Keys, initial, map[]);
    RunConsistent(resolve, index.Keys, initial, map[]);
    RunOrigin(resolve, index.Keys, initial, map[]);
    RunClosed(resolve, index.Keys, initial, map[]);
    forall k | k in r
      ensures ResolveOne(index, k, r[k].req) == Success(Chosen(r[k].version, r[k].dependencies))
    {
      assert resolve(k, r[k].req) == ResolveOne(index, k, r[k].req);
    }
    forall p | p in initial
      ensures p.0 in r || ResolveOne(index, p.0, p.1).Failure?
    {
      RunSettles(resolve, index.Keys, initial, map[], p);
      assert resolve(p.0, p.1) == ResolveOne(index, p.0, p.1);
    }
    forall k, d | k in r && d in r[k].dependencies && !IsDev(d)
      ensures d.crateId in r || ResolveOne(index, d.crateId, d.req).Failure?
    {
      assert resolve(d.crateId, d.req) == ResolveOne(index, d.crateId, d.req);
    }
  }

  /** The worklist is a stack, so the last initial requirement is the first
      one resolved; when it resolves, its crate keeps that answer whatever
      the other items or any dependency ask of the same crate later. */
  lemma LastInitialWins(index: Index, initial: seq<Item>, ch: Chosen)
    requires initial != []
    requires ResolveOne(index, initial[|initial| - 1].0, initial[|initial| - 1].1) == Success(ch)
    ensures var item, r := initial[|initial| - 1], Resolution(index, initial);
      item.0 in r && r[item.0] == Pick(item.1, ch.version, ch.dependencies)
  {
    var resolve := Answers(index);
    var item := initial[|initial| - 1];
    var picks' := Record(map[], item, ch);
    assert resolve(item.0, item.1) == Success(ch);
    RunResolvesLast(resolve, index.Keys, initial, map[], ch);
    RunExtends(resolve, index.Keys, initial[..|initial| - 1] + Pushes(ch.dependencies, picks'.Keys), picks');
  }

  /** The inner loop of `resolve_dependency_tree`: appends each non-dev
      dependency whose crate is not resolved yet, in order. */
  method QueueDependencies(toProcess: seq<Item>, deps: seq<Dependency>, resolved: map<string, string>)
    returns (queued: seq<Item>)
    ensures queued == toProcess + Pushes(deps, resolved.Keys)
  {
    queued := toProcess;
    for i := 0 to |deps|
      invariant queued == toProcess + Pushes(deps[..i], resolved.Keys)
    {
      var dep := deps[i];
      PushesSnoc(deps, i, resolved.Keys);
      if !IsDev(dep) && dep.crateId !in resolved {
        queued := queued + [(dep.crateId, dep.req)];
      }
    }
    assert deps[..|deps|] == deps;
  }

  /** `resolve_dependency_tree`, run against the registry client: the result
      is the reference resolution of the snapshot, whatever the client had
      cached before. */
  method ResolveDependencyTree(client: Client, initial: seq<Item>) returns (resolved: map<string, string>)
    requires client.Valid()
    modifies client
    ensures client.Valid()
    ensures resolved == Versions(Resolution(client.index, initial))
    ensures old(client.cache).Keys <= client.cache.Keys
    ensures resolved.Keys <= client.cache.Keys
    ensures client.RequestedOnlyOutside(old(client.requests), old(client.cache).Keys)
  {
    resolved := map[];
    ghost var picks: map<string, Pick> := map[];
    ghost var index := client.index;
    ghost var resolve := Answers(index);
    var toProcess := initial;
    while toProcess != []
      invariant client.Valid() && client.index == index
      invariant old(client.cache).Keys <= client.cache.Keys
      invariant resolved.Keys <= client.cache.Keys
      invariant GrewOutside(old(client.requests), client.requests, old(client.cache).Keys)
      invariant picks.Keys <= index.Keys
      invariant resolved == Versions(picks)
      invariant Run(resolve, index.Keys, toProcess, picks) == Resolution(index, initial)
      decreases |index.Keys - picks.Keys|, |toProcess|
    {
      ghost var work := toProcess;
      var item := toProcess[|toProcess| - 1];
      var crate, req := item.0, item.1;
      toProcess := toProcess[..|toProcess| - 1];
      if crate in resolved {
        RunSkipsLast(resolve, index.Keys, work, picks);
        continue;
      }
      ghost var logBefore := client.requests;
      var result := client.LatestSatisfyingVersion(crate, req);
      GrewOutsideStep(old(client.requests), logBefore, client.requests, old(client.cache).Keys, crate);
      if result.Failure? {
        RunSkipsLast(resolve, index.Keys, work, picks);
        continue;
      }
      RunResolvesLast(resolve, index.Keys, work, picks, result.value);
      var version, deps := result.value.version, result.value.dependencies;
      resolved := resolved[crate := version];
      VersionsRecord(picks, item, result.value);
      picks := Record(picks, item, result.value);
      toProcess := QueueDependencies(toProcess, deps, resolved);
    }
  }
}
