/** The registry addresses and the artifact file name, all formatted from
    the crate name and the resolved version. */
module Urls {
  import opened Wrappers
  import opened Text

  const IndexBase: string := "https://crates.io/api/v1/crates/"
  const DownloadBase: string := "https://static.crates.io/crates/"
  const CrateSuffix: string := ".crate"

  /** Metadata endpoint of one crate. */
  function IndexUrl(crate: string): string {
    IndexBase + crate
  }

  /** `{crate}-{version}.crate`, the name of the downloaded tarball and of
      its entry in the output archive. */
  function CrateFileName(crate: string, version: string): string {
    crate + "-" + version + CrateSuffix
  }

  /** Artifact endpoint: `{base}{crate}/{crate}-{version}.crate`. */
  function DownloadUrl(crate: string, version: string): string {
    DownloadBase + crate + "/" + CrateFileName(crate, version)
  }

  /** Reads the version back out of a crate file name, given the crate. */
  function VersionOfFileName(crate: string, name: string): Option<string> {
    if StartsWith(name, crate + "-") && |crate| + 1 + |CrateSuffix| <= |name|
       && name[|name| - |CrateSuffix|..] == CrateSuffix
    then Some(name[|crate| + 1..|name| - |CrateSuffix|])
    else None
  }

  /** The file name determines the version once the crate is known. */
  lemma FileNameRoundTrip(crate: string, version: string)
    ensures VersionOfFileName(crate, CrateFileName(crate, version)) == Some(version)
  {
    var name := CrateFileName(crate, version);
    assert name == (crate + "-") + (version + CrateSuffix);
    assert name[..|crate| + 1] == crate + "-";
    assert name[|name| - |CrateSuffix|..] == CrateSuffix;
    assert name[|crate| + 1..|name| - |CrateSuffix|] == version;
  }

  /** Two versions of one crate never share a file name. */
  lemma FileNameInjective(crate: string, v1: string, v2: string)
    requires CrateFileName(crate, v1) == CrateFileName(crate, v2)
    ensures v1 == v2
  {
    FileNameRoundTrip(crate, v1);
    FileNameRoundTrip(crate, v2);
  }

  /** The registry's version syntax: a `-` (the start of a pre-release
      tag) only ever follows a `.` of the `X.Y.Z` core. */
  predicate DotBeforeDash(v: string) {
    forall i :: 0 <= i < |v| && v[i] == '-' ==> '.' in v[..i]
  }

  /** When the second crate's name is the longer, the `-` after it falls
      inside the first version, so a `.` of that version comes before it
      and the second name contains a `.`. */
  lemma FileNameLongerCrateHasDot(c1: string, v1: string, c2: string, v2: string)
    requires DotBeforeDash(v1) && |c1| < |c2|
    requires CrateFileName(c1, v1) == CrateFileName(c2, v2)
    ensures '.' in c2
  {
    var name := CrateFileName(c1, v1);
    assert name == c1 + "-" + v1 + CrateSuffix;
    assert name == c2 + "-" + v2 + CrateSuffix;
    var i := |c2| - |c1| - 1;
    assert v1[i] == name[|c2|] == '-';
    var j :| 0 <= j < i && v1[..i][j] == '.';
    assert c2[|c1| + 1 + j] == name[|c1| + 1 + j] == v1[j];
  }

  /** Under the registry's naming rules (no `.` in a crate name, a `-` in a
      version only after a `.`), distinct (crate, version) pairs get
      distinct file names, so the archive holds one entry per resolved
      pair (without them names can collide, see `FileNamesCanCollide`). */
  lemma FileNamesDistinct(c1: string, v1: string, c2: string, v2: string)
    requires '.' !in c1 && '.' !in c2 && DotBeforeDash(v1) && DotBeforeDash(v2)
    requires CrateFileName(c1, v1) == CrateFileName(c2, v2)
    ensures c1 == c2 && v1 == v2
  {
    if |c1| < |c2| {
      FileNameLongerCrateHasDot(c1, v1, c2, v2);
    } else if |c2| < |c1| {
      FileNameLongerCrateHasDot(c2, v2, c1, v1);
    }
    var name := CrateFileName(c1, v1);
    assert name == c1 + "-" + v1 + CrateSuffix;
    assert name == c2 + "-" + v2 + CrateSuffix;
    assert c1 == name[..|c1|] == c2;
    FileNameInjective(c1, v1, v2);
  }

  /** Without those rules two pairs can share a file name, and the
      second download would overwrite the first. */
  lemma FileNamesCanCollide()
    ensures CrateFileName("a-b", "c") == CrateFileName("a", "b-c")
  {
  }

  /** The download URL ends in the crate's file name, behind a `/`. */
  lemma DownloadUrlNamesFile(crate: string, version: string)
    ensures var url, file := DownloadUrl(crate, version), CrateFileName(crate, version);
      StartsWith(url, DownloadBase)
      && |file| < |url| && url[|url| - |file| - 1..] == "/" + file
  {
    var url, file := DownloadUrl(crate, version), CrateFileName(crate, version);
    assert url == (DownloadBase + crate) + ("/" + file);
  }

  /** Distinct crates are fetched from distinct metadata URLs. */
  lemma IndexUrlInjective(a: string, b: string)
    requires IndexUrl(a) == IndexUrl(b)
    ensures a == b
  {
    assert a == IndexUrl(a)[|IndexBase|..];
  }
}
