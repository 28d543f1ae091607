# cargo_downloader resolver, modelled in Dafny

`cargo_downloader.py` resolves the Rust crates named in the `[dependencies]`
section of a `Cargo.toml`. It talks directly to the crates.io API, without
running `cargo`, and then downloads the chosen `.crate` files. This project
models how the module decides which version of each crate to download:

- **`Fragment`**: the extraction loop turns the parsed dependency table into
  a crate-to-requirement map. It is an imperative loop with its invariants.
- **`Text`**: the string primitives the code relies on:
  - `str.strip()` over ASCII whitespace;
  - `str.startswith()`;
  - Python's code-point order on `str`, which is what `max(..., key=num)`
    uses.
- **`Requirement`**: `_version_prefix`, the heuristic that turns a
  requirement into "any version" or a text prefix.
- **`Registry`**:
  - the version records and the yanked filter;
  - the three-branch choice of `_latest_satisfying_version`;
  - the memoising client object with its mutable cache and a log of the
    metadata URLs it requested.
- **`Resolver`**: `resolve_dependency_tree`:
  - a reference function `Run` with the same last-in-first-out worklist;
  - the loop itself, proved equal to `Run`;
  - lemmas on `Run`: picks never change, every pick is the registry's answer,
    every resolved crate was asked for, and unresolvable demands are
    skipped.
- **`Urls`**: the metadata URL, the download URL and the `.crate` file name.
- **`Scenarios`**: worked requirement strings and small registries, among
  them a dependency cycle.

The crates.io registry is an immutable snapshot,
`map<string, seq<VersionRecord>>`. A crate that is missing from the snapshot
is a failed metadata request. The resolver's lemmas are stated for any
oracle that resolves only crates of a finite domain. `Answers(index)` is the
oracle the snapshot gives.

The model follows the code wherever the module's docstrings say something
else:

- **Caret and tilde.** `^1.2.3` and `~1.2.3` are not reduced to `1.` and
  `1.2.`. The code drops the operator and appends one `.`, so both become
  `1.2.3.` (`CaretTildeKeepAllComponents`).
- **Exact versions.** An exact version such as `1.0.197` is fully numeric,
  so it becomes the prefix `1.0.197.`. The version `1.0.197` does not start
  with that prefix, so an exact pin never selects the version it names
  (`ExactVersionNeverChosen`, `ExactPinResolvesNothing`).
- **The exact branch.** The exact-match branch still runs for text such as
  `=1.2.3`, which contains `=` and no `<` or `>` (`SelectExact`).
- **The append guard.** The test on line 119 that decides whether to append
  the `.` always holds for a numeric string, so its else-branch is dead
  (`AppendGuardHolds`).
- **"Latest".** "Latest" is the string maximum of `num`, not a semver
  maximum, and on a tie it is the first maximal record (`MaxIndex`).

## Model

| member | source | states |
|---|---|---|
| Fragment.ExtractRequirements | cargo_downloader.py:73-86 | the result keeps the input's crate names in order; a string spec is copied verbatim, a table with a string `version` yields that string, and any other table or value yields `"*"` |
| Text.Strip | cargo_downloader.py:104 | the stripped text is no longer than the input, and neither of its ends is whitespace |
| Text.StripSlice | cargo_downloader.py:104 | `strip()` keeps one contiguous slice; everything cut from either end is whitespace; a non-empty result begins and ends with non-whitespace |
| Text.StripFixed | cargo_downloader.py:104 | a string with no whitespace at either end is its own strip |
| Text.StripIdempotent | cargo_downloader.py:104 | stripping twice is stripping once |
| Text.Less | cargo_downloader.py:154 | Python's `<` on `str`: code points compared from the left, a proper prefix first; the lemmas below prove it a strict total order |
| Text.LessIrreflexive | cargo_downloader.py:154 | string order is irreflexive |
| Text.LessTransitive | cargo_downloader.py:154 | string order is transitive |
| Text.LessTotal | cargo_downloader.py:154 | any two distinct strings are ordered one way or the other |
| Text.LessAsymmetric | cargo_downloader.py:154 | string order is asymmetric |
| Text.LessEqTotal | cargo_downloader.py:154 | `<=` on strings is total |
| Text.LessEqTransitive | cargo_downloader.py:154 | `<=` on strings is transitive |
| Requirement.FirstDot | cargo_downloader.py:118 | the index of the first `.`, or the length when there is none; no dot precedes it |
| Requirement.IsNumericVersion | cargo_downloader.py:118 | the full match of `\d+(?:\.\d+){0,2}`: one to three runs of ASCII digits joined by single dots (`DottedDigitsShape` gives its shape) |
| Requirement.DottedDigitsShape | cargo_downloader.py:118 | a full match of `\d+(?:\.\d+){0,2}` is non-empty, has only digits and dots, and begins and ends with a digit |
| Requirement.Unprefixed | cargo_downloader.py:109-110 | the result is a suffix of the text at most one character shorter, and it is shorter exactly when the text starts with `^` or `~` |
| Requirement.PrefixOfText | cargo_downloader.py:114-122 | numeric text gets exactly one `.` appended; any other text, including text with `<`, `>` or `=`, is returned unchanged |
| Requirement.VersionPrefix | cargo_downloader.py:104-122 | `None` exactly when the stripped requirement is `*`; otherwise the stripped text with one `^`/`~` removed, plus one `.` exactly when that text is numeric |
| Requirement.NumericHasNoComparison | cargo_downloader.py:114-118 | a numeric string contains none of `<`, `>`, `=`, so the comparison branch never hides a numeric requirement |
| Requirement.AppendGuardHolds | cargo_downloader.py:119 | for a numeric string the "does not end with `.`" test always holds, so the dot is always appended |
| Requirement.StripIrrelevant | cargo_downloader.py:104 | surrounding whitespace never changes the prefix |
| Requirement.CaretTildeIgnored | cargo_downloader.py:109-110 | a leading `^` or `~` gives the same prefix as the text after it, provided that text is not `*`, has no whitespace at either end and does not itself start with `^` or `~` (`^^1` and `^ 1` fall outside) |
| Requirement.NumericPrefix | cargo_downloader.py:108-119 | `v`, `^v` and `~v` all give `v.` for every numeric `v`, whatever its number of components |
| Registry.Filter | cargo_downloader.py:151 | a comprehension keeps exactly the elements that satisfy its condition and is never longer than its input |
| Registry.FilterAppend | cargo_downloader.py:151 | the comprehension keeps order and multiplicity: filtering a concatenation filters each part in turn |
| Registry.FilterSingle | cargo_downloader.py:151 | one element is kept exactly when it satisfies the condition |
| Registry.Live | cargo_downloader.py:151 | the records kept are exactly those whose `yanked` flag is not true; a missing flag counts as false |
| Registry.WithPrefix | cargo_downloader.py:170 | the candidates are exactly the records whose `num` starts with the prefix |
| Registry.MaxIndex | cargo_downloader.py:154 | `max(key=num)`: the chosen `num` is at least every `num` in string order, and every earlier `num` is strictly smaller, so the first maximum wins |
| Registry.Latest | cargo_downloader.py:154-155 | succeeds exactly when the list is non-empty, else fails with "no versions"; the result is the first record whose `num` is at least every `num`, so on a tie the earliest record wins |
| Registry.FindExact | cargo_downloader.py:164-167 | succeeds exactly when some record's `num` equals the requirement, and then returns the first such record; otherwise it fails with "version not found" |
| Registry.IsExactBranch | cargo_downloader.py:162 | the exact branch runs when the prefix is the raw requirement, which contains `=` and neither `<` nor `>` (`SelectExact` and `SelectPrefix` split on it) |
| Registry.Select | cargo_downloader.py:146-174 | any successful choice is a non-yanked record of the crate |
| Registry.SelectAny | cargo_downloader.py:151-160 | for `*`, raw or after stripping: succeeds exactly when a non-yanked record exists, and the result is string-greatest among them |
| Registry.SelectExact | cargo_downloader.py:162-167 | exact branch: succeeds exactly when a non-yanked record's `num` equals the raw requirement, and returns that version; otherwise fails with "version not found" |
| Registry.SelectPrefix | cargo_downloader.py:169-174 | prefix branch: succeeds exactly when a non-yanked `num` starts with the prefix; the result starts with it and is string-greatest among those records; otherwise fails with "no matching version" |
| Registry.ExactVersionNeverChosen | cargo_downloader.py:117-119 | a numeric requirement never selects the version it spells, because every chosen version starts with that text plus `.` |
| Registry.ResolveOne | cargo_downloader.py:146-148 | a successful resolution names a registry crate and one of its non-yanked records |
| Registry.Client.constructor | cargo_downloader.py:131 | the client starts with an empty cache and no requests made |
| Registry.Client.FetchCrateVersions | cargo_downloader.py:134-143 | a cached crate is answered from the cache with no request; otherwise exactly one request is made and only a success is cached; existing entries never change |
| Registry.Client.LatestSatisfyingVersion | cargo_downloader.py:146-148 | the answer equals the choice made on the registry's records; a cached crate costs no request and leaves the cache alone; otherwise one request is made and a successful fetch is cached; old entries never change |
| Resolver.Answers | cargo_downloader.py:193 | the snapshot's oracle gives the client's answer for every pair, and it resolves only registry crates |
| Resolver.Pushes | cargo_downloader.py:199-206 | the items queued for one resolved version, in order (`PushesContents` states their contents) |
| Resolver.PushesContents | cargo_downloader.py:199-206 | the items queued are exactly the non-dev dependencies on crates not yet resolved |
| Resolver.Run | cargo_downloader.py:188-207 | resolution only ever names crates of the finite registry |
| Resolver.RunResolvesLast | cargo_downloader.py:189-206 | when the popped crate is new and resolves, it is recorded and its dependencies are pushed; the number of unresolved registry crates drops |
| Resolver.RunSkipsLast | cargo_downloader.py:189-196 | a popped item whose crate is already resolved, or that fails to resolve, is dropped and changes nothing else |
| Resolver.RunExtends | cargo_downloader.py:190-197 | `resolved` only grows, and a crate's pick never changes once set |
| Resolver.RunConsistent | cargo_downloader.py:193-197 | every pick is the registry's answer for the requirement it was resolved under |
| Resolver.RunOrigin | cargo_downloader.py:186-206 | every newly resolved crate was on the worklist with its requirement, or is a non-dev dependency of a resolved version |
| Resolver.RunSettles | cargo_downloader.py:188-196 | every item on the worklist ends up resolved, or its resolution fails |
| Resolver.RunClosed | cargo_downloader.py:199-207 | each non-dev dependency of a resolved version is resolved or fails to resolve |
| Resolver.Resolution | cargo_downloader.py:180-207 | the reference resolution of an initial list from an empty map (`ResolutionCorrect` states its properties) |
| Resolver.ResolutionCorrect | cargo_downloader.py:180-207 | the result names registry crates only; each pick is the client's answer; each key is an initial crate or a non-dev dependency of a pick; each initial requirement and each non-dev dependency is resolved or unresolvable |
| Resolver.LastInitialWins | cargo_downloader.py:186-190 | the last initial entry is popped first, and when it resolves its crate keeps that answer whatever is demanded of it later |
| Resolver.QueueDependencies | cargo_downloader.py:199-206 | the queue gains, in order, each non-dev dependency whose crate is not yet resolved |
| Resolver.ResolveDependencyTree | cargo_downloader.py:180-207 | the loop returns exactly the versions of the reference resolution; the cache keeps its old entries and holds every resolved crate; every request made is for a crate that was not cached when the call began |
| Urls.IndexUrl | cargo_downloader.py:49 | the metadata URL of a crate (`IndexUrlInjective` states that distinct crates get distinct URLs) |
| Urls.CrateFileName | cargo_downloader.py:222 | `{crate}-{version}.crate` (`FileNameRoundTrip` reads the version back) |
| Urls.DownloadUrl | cargo_downloader.py:51 | the artifact URL of a crate version (`DownloadUrlNamesFile` states its shape) |
| Urls.FileNameRoundTrip | cargo_downloader.py:222 | the version can be read back out of the file name once the crate is known |
| Urls.FileNameInjective | cargo_downloader.py:222 | two versions of one crate never share a file name |
| Urls.FileNamesDistinct | cargo_downloader.py:217-223 | when no crate name contains `.` and a `-` in a version only follows a `.`, distinct (crate, version) pairs get distinct file names, so no download overwrites another and the archive holds one entry per resolved pair |
| Urls.FileNamesCanCollide | cargo_downloader.py:222 | without those naming rules two pairs can share a file name: `a-b` at `c` and `a` at `b-c` both give `a-b-c.crate` |
| Urls.DownloadUrlNamesFile | cargo_downloader.py:51 | the download URL starts with the static base and ends in `/` followed by the crate's file name |
| Urls.IndexUrlInjective | cargo_downloader.py:49 | distinct crates are fetched from distinct metadata URLs |
| Scenarios.WildcardPrefixes | cargo_downloader.py:104-106 | `*` and ` * ` mean any version |
| Scenarios.OnePrefix | cargo_downloader.py:117-119 | `1` becomes `1.` |
| Scenarios.OneTwoPrefix | cargo_downloader.py:117-119 | `1.2` becomes `1.2.` |
| Scenarios.CaretTildeKeepAllComponents | cargo_downloader.py:108-119 | `^1.2.3` and `~1.2.3` both become `1.2.3.`, not `1.` and `1.2.` |
| Scenarios.FourComponentsKept | cargo_downloader.py:118-122 | `1.2.3.4` is not numeric and is kept as it stands |
| Scenarios.ComparisonKept | cargo_downloader.py:114-115 | `>=1.0` is kept as it stands |
| Scenarios.SecondCaretKept | cargo_downloader.py:109-110 | only one of two carets is removed |
| Scenarios.ExactPinNotSelected | cargo_downloader.py:169-172 | the pin `1.0.197` against the single record `1.0.197` fails |
| Scenarios.ExactPinResolvesNothing | cargo_downloader.py:188-196 | so resolving that pin yields an empty map |
| Scenarios.CycleResolves | cargo_downloader.py:188-207 | with `a` depending on `b` and `b` on `a`, resolution stops with exactly both |
| Scenarios.ResolveAgain | cargo_downloader.py:134-136 | a resolution through a client that already caches every crate of the result returns the reference map, and every request it makes is for a crate outside that result: those crates are answered from the cache |
| Scenarios.ResolveTwice | cargo_downloader.py:134-136 | two resolutions through one client return the same map; the first leaves every crate it resolved in the cache, so the second is a `ResolveAgain` |

## Left out

- TOML text parsing (`tomllib.loads`) is library code. The model starts from the parsed table as an ordered list of `(name, Spec)` entries with distinct names.
- HTTP, timeouts, `raise_for_status` and JSON decoding are left out. The registry is a fixed snapshot, so a transient failure that would succeed on retry is not modelled.
- Logging calls are left out. They have no effect on the result.
- `download_crates_zip` and `download_crates_from_fragment` are left out: temporary directories, downloads, file writes, the zip archive and clean-up are file-system I/O. Only the URL and file-name formatting is modelled.
- `main.py` is not part of this model. It is web-service and packaging glue.
- Text.StripSlice: whitespace is the ASCII range that Python's `str.isspace()` accepts. Unicode spaces are not modelled.
- Requirement.DottedDigitsShape: `\d` is taken as the ASCII digits `0`-`9`. Other Unicode decimal digits are not modelled.
- A dependency record without `crate_id` or `req` raises `KeyError` outside the `try` block. Dependency records here always carry both fields.
- The module-level cache is one `Client` object that a caller passes in. Its sharing between calls inside one process is represented by reusing the object, as in `ResolveTwice`.
