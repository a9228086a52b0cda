/**
 * The RPM resolver of the YUM download script: the primary catalog named by
 * `repomd.xml`, the choice of the newest `x86_64` or `noarch` build of a
 * package, and the URL / local-filename derivation for it. XML parsing and
 * decompression are outside the model: `repomd.xml` is a sequence of `data`
 * entries and the primary catalog a sequence of `package` entries, both in
 * document order.
 */
module RpmCatalog {
  import opened Wrappers
  import opened Text
  import opened Versions
  import opened Latest
  import Paths

  const RepoUrl := "https://packages.axonops.com/yum/"
  const Archs := ["x86_64", "noarch"]

  /** The exceptions the script raises on metadata it cannot use. */
  datatype RpmError =
    | NoPrimaryLocation   // no `data` entry of type "primary" with a `location` child
    | MissingHref         // the first such `location` has no `href`
    | MissingVersion      // a candidate without `version` or its `ver`
    | MissingLocation     // the chosen candidate without `location` or its `href`

  // ---------------------------------------------------------------------------
  // repomd.xml: where the primary catalog is
  // ---------------------------------------------------------------------------

  /** A `location` element: its `href` attribute, None when absent. */
  datatype Location = Location(href: Option<string>)

  /** A `data` entry: its `type` attribute and its first `location` child, if it has one. */
  datatype RepoData = RepoData(dataType: string, location: Option<Location>)

  /** What `.//repo:data[@type='primary']/repo:location` selects. */
  predicate IsPrimaryLocation(d: RepoData) {
    d.dataType == "primary" && d.location.Some?
  }

  function FirstPrimaryFrom(data: seq<RepoData>, i: nat): (r: Option<nat>)
    requires i <= |data|
    ensures r.Some? ==> i <= r.value < |data| && IsPrimaryLocation(data[r.value])
    ensures r.Some? ==> forall j :: i <= j < r.value ==> !IsPrimaryLocation(data[j])
    ensures r.None? ==> forall j :: i <= j < |data| ==> !IsPrimaryLocation(data[j])
    decreases |data| - i
  {
    if i == |data| then None
    else if IsPrimaryLocation(data[i]) then Some(i)
    else FirstPrimaryFrom(data, i + 1)
  }

  /**
   * The `href` of the first primary location in document order. With no such
   * location the script fails (`.attrib` on None), and it fails too when that
   * first location has no `href`, rather than trying a later entry.
   */
  function PrimaryLocation(data: seq<RepoData>): (r: Result<string, RpmError>)
    ensures r == Failure(NoPrimaryLocation) <==> forall i :: 0 <= i < |data| ==> !IsPrimaryLocation(data[i])
    ensures r.Failure? ==> r.error == NoPrimaryLocation || r.error == MissingHref
    ensures r.Success? || r == Failure(MissingHref) ==>
              exists i :: && 0 <= i < |data| && IsPrimaryLocation(data[i])
                          && (forall j :: 0 <= j < i ==> !IsPrimaryLocation(data[j]))
                          && data[i].location.value.href == (if r.Success? then Some(r.value) else None)
  {
    match FirstPrimaryFrom(data, 0)
    case None => Failure(NoPrimaryLocation)
    case Some(i) =>
      match data[i].location.value.href
      case None => Failure(MissingHref)
      case Some(href) => Success(href)
  }

  /** `os.path.join(REPO_URL, primary_location)`: a relative href is appended to the root. */
  function PrimaryCatalogUrl(data: seq<RepoData>): (r: Result<string, RpmError>)
    ensures r.Success? <==> PrimaryLocation(data).Success?
    ensures r.Failure? ==> r == PrimaryLocation(data)
    ensures r.Success? && |PrimaryLocation(data).value| > 0 && PrimaryLocation(data).value[0] != '/' ==>
              r.value == RepoUrl + PrimaryLocation(data).value
  {
    match PrimaryLocation(data)
    case Failure(e) => Failure(e)
    case Success(href) => Success(Paths.Join(RepoUrl, href))
  }

  // ---------------------------------------------------------------------------
  // primary.xml: the newest candidate
  // ---------------------------------------------------------------------------

  /**
   * A `package` entry: the text of `name` and `arch`, the `ver` attribute of
   * `version` and the `href` of `location`, the last two None when the element
   * or its attribute is absent (either way the script raises).
   */
  datatype RpmPackage = RpmPackage(name: string, arch: string, version: Option<string>, location: Option<string>)

  /** `root.findall` with the name and arch predicates: exact matches in document order. */
  function FindAll(catalog: seq<RpmPackage>, packageName: string, arch: string): seq<RpmPackage> {
    if catalog == [] then []
    else
      (if catalog[0].name == packageName && catalog[0].arch == arch then [catalog[0]] else [])
      + FindAll(catalog[1..], packageName, arch)
  }

  lemma {:induction false} FindAllMatches(catalog: seq<RpmPackage>, packageName: string, arch: string)
    ensures forall p :: p in FindAll(catalog, packageName, arch) <==>
              p in catalog && p.name == packageName && p.arch == arch
  {
    if catalog != [] {
      FindAllMatches(catalog[1..], packageName, arch);
      assert catalog == [catalog[0]] + catalog[1..];
    }
  }

  lemma {:induction false} FindAllArch(catalog: seq<RpmPackage>, packageName: string, arch: string)
    ensures forall i :: 0 <= i < |FindAll(catalog, packageName, arch)| ==>
              FindAll(catalog, packageName, arch)[i].name == packageName && FindAll(catalog, packageName, arch)[i].arch == arch
  {
    if catalog != [] {
      FindAllArch(catalog[1..], packageName, arch);
    }
  }

  /** The candidates of each architecture in `archs`, one architecture after another. */
  function CandidatesIn(catalog: seq<RpmPackage>, packageName: string, archs: seq<string>): seq<RpmPackage> {
    if archs == [] then []
    else CandidatesIn(catalog, packageName, archs[..|archs| - 1]) + FindAll(catalog, packageName, archs[|archs| - 1])
  }

  lemma CandidatesInStep(catalog: seq<RpmPackage>, packageName: string, archs: seq<string>, a: int)
    requires 0 <= a < |archs|
    ensures CandidatesIn(catalog, packageName, archs[..a + 1])
         == CandidatesIn(catalog, packageName, archs[..a]) + FindAll(catalog, packageName, archs[a])
  {
    assert archs[..a + 1][..a] == archs[..a];
  }

  /** The order the script scans: every `x86_64` candidate, then every `noarch` one. */
  function Candidates(catalog: seq<RpmPackage>, packageName: string): seq<RpmPackage> {
    CandidatesIn(catalog, packageName, Archs)
  }

  lemma CandidatesOrder(catalog: seq<RpmPackage>, packageName: string)
    ensures Candidates(catalog, packageName)
         == FindAll(catalog, packageName, "x86_64") + FindAll(catalog, packageName, "noarch")
  {
    assert Archs[..1] == ["x86_64"] && Archs[..1][..0] == [];
    assert CandidatesIn(catalog, packageName, Archs[..1]) == FindAll(catalog, packageName, "x86_64");
  }

  /** Only exact, case-sensitive matches of the name and of one of the two architectures are candidates. */
  lemma CandidatesAreExactMatches(catalog: seq<RpmPackage>, packageName: string)
    ensures forall p :: p in Candidates(catalog, packageName) <==>
              p in catalog && p.name == packageName && (p.arch == "x86_64" || p.arch == "noarch")
  {
    CandidatesOrder(catalog, packageName);
    FindAllMatches(catalog, packageName, "x86_64");
    FindAllMatches(catalog, packageName, "noarch");
  }

  lemma MatchIsCandidate(catalog: seq<RpmPackage>, packageName: string, a: int, p: RpmPackage)
    requires 0 <= a < |Archs| && p in FindAll(catalog, packageName, Archs[a])
    ensures p in Candidates(catalog, packageName)
  {
    CandidatesOrder(catalog, packageName);
  }

  predicate AllVersioned(cands: seq<RpmPackage>) {
    forall j :: 0 <= j < |cands| ==> cands[j].version.Some?
  }

  function VersionBallots(cands: seq<RpmPackage>): (b: seq<Option<string>>)
    ensures |b| == |cands|
  {
    seq(|cands|, j requires 0 <= j < |cands| => cands[j].version)
  }

  /**
   * The running winner of the scan: a versioned candidate replaces it only
   * when its version is strictly newer.
   */
  function Winner(cands: seq<RpmPackage>, less: VersionLess): (w: Option<RpmPackage>)
    ensures w.Some? ==> w.value.version.Some?
  {
    if cands == [] then None
    else
      var w := Winner(cands[..|cands| - 1], less);
      var c := cands[|cands| - 1];
      if c.version.Some? && (w.None? || less(w.value.version.value, c.version.value)) then Some(c)
      else w
  }

  /** The running winner is the candidate at the shared selection's index. */
  lemma {:induction false} WinnerIsLatestIndex(cands: seq<RpmPackage>, less: VersionLess)
    ensures var i := LatestIndex(VersionBallots(cands), less);
            Winner(cands, less) == if i.None? then None else Some(cands[i.value])
  {
    if cands != [] {
      var prefix := cands[..|cands| - 1];
      var c := cands[|cands| - 1];
      var b := VersionBallots(prefix);
      WinnerIsLatestIndex(prefix, less);
      assert VersionBallots(cands) == b + [c.version];
      LatestIndexAppend(b, c.version, less);
      var i := LatestIndex(b, less);
      if i.Some? {
        assert b[i.value] == prefix[i.value].version;
      }
    }
  }

  /** The winner is a candidate, and there is none exactly when no candidate has a version. */
  lemma WinnerIsCandidate(cands: seq<RpmPackage>, less: VersionLess)
    ensures Winner(cands, less).Some? ==> Winner(cands, less).value in cands
    ensures Winner(cands, less).None? <==> forall j :: 0 <= j < |cands| ==> cands[j].version.None?
  {
    WinnerIsLatestIndex(cands, less);
    var b := VersionBallots(cands);
    assert forall j :: 0 <= j < |cands| ==> b[j] == cands[j].version;
  }

  /**
   * What `get_latest_package_version` returns: a candidate without a version
   * makes it fail, no candidate gives None, and otherwise the `href` of the
   * winner, which fails when the winner has no location.
   */
  function LatestHref(catalog: seq<RpmPackage>, packageName: string, less: VersionLess): Result<Option<string>, RpmError> {
    var cands := Candidates(catalog, packageName);
    if !AllVersioned(cands) then Failure(MissingVersion)
    else
      match Winner(cands, less)
      case None => Success(None)
      case Some(p) => if p.location.None? then Failure(MissingLocation) else Success(Some(p.location.value))
  }

  /** One more versioned candidate: it wins only when strictly newer than the current winner. */
  lemma WinnerAppend(cands: seq<RpmPackage>, c: RpmPackage, less: VersionLess)
    requires c.version.Some?
    ensures var w := Winner(cands, less);
            Winner(cands + [c], less) ==
              if w.None? || less(w.value.version.value, c.version.value) then Some(c) else w
  {
    assert (cands + [c])[..|cands|] == cands;
  }

  lemma MissingVersionFails(catalog: seq<RpmPackage>, packageName: string, less: VersionLess, a: int, p: RpmPackage)
    requires 0 <= a < |Archs| && p in FindAll(catalog, packageName, Archs[a]) && p.version.None?
    ensures LatestHref(catalog, packageName, less) == Failure(MissingVersion)
  {
    MatchIsCandidate(catalog, packageName, a, p);
  }

  lemma ScannedCandidates(catalog: seq<RpmPackage>, packageName: string, less: VersionLess, scanned: seq<RpmPackage>)
    requires scanned == CandidatesIn(catalog, packageName, Archs) && AllVersioned(scanned)
    ensures LatestHref(catalog, packageName, less) ==
              match Winner(scanned, less)
              case None => Success(None)
              case Some(p) => if p.location.None? then Failure(MissingLocation) else Success(Some(p.location.value))
  {
  }

  /**
   * The inner loop over the matches of one architecture: it stops at the
   * first match without a version, and otherwise carries the running winner
   * across all of them.
   */
  method ScanMatches(packages: seq<RpmPackage>, less: VersionLess, ghost scanned: seq<RpmPackage>,
                     latestPackage0: Option<RpmPackage>, latestVersion0: Option<string>)
    returns (versioned: bool, latestPackage: Option<RpmPackage>, latestVersion: Option<string>)
    requires latestPackage0 == Winner(scanned, less)
    requires latestVersion0 == if latestPackage0.Some? then latestPackage0.value.version else None
    ensures versioned <==> AllVersioned(packages)
    ensures versioned ==> latestPackage == Winner(scanned + packages, less)
    ensures latestVersion == if latestPackage.Some? then latestPackage.value.version else None
  {
    latestPackage, latestVersion := latestPackage0, latestVersion0;
    ghost var seen := scanned;
    for j := 0 to |packages|
      invariant forall k :: 0 <= k < j ==> packages[k].version.Some?
      invariant seen == scanned + packages[..j]
      invariant latestPackage == Winner(seen, less)
      invariant latestVersion == if latestPackage.Some? then latestPackage.value.version else None
    {
      var package := packages[j];
      if package.version.None? {
        assert !AllVersioned(packages) by { assert packages[j].version.None?; }
        return false, latestPackage, latestVersion;
      }
      var ver := package.version.value;
      assert (seen + [package])[..|seen|] == seen;
      if latestVersion.None? || less(latestVersion.value, ver) {
        latestVersion := Some(ver);
        latestPackage := Some(package);
      }
      seen := seen + [package];
      assert packages[..j + 1] == packages[..j] + [package];
    }
    assert packages[..|packages|] == packages;
    versioned := true;
  }

  /** `get_latest_package_version`: the scan over the architectures, in order, and their matches. */
  method GetLatestPackageVersion(catalog: seq<RpmPackage>, packageName: string, less: VersionLess)
    returns (r: Result<Option<string>, RpmError>)
    ensures r == LatestHref(catalog, packageName, less)
  {
    var latestPackage: Option<RpmPackage> := None;
    var latestVersion: Option<string> := None;
    ghost var scanned: seq<RpmPackage> := [];
    for a := 0 to |Archs|
      invariant scanned == CandidatesIn(catalog, packageName, Archs[..a])
      invariant AllVersioned(scanned)
      invariant latestPackage == Winner(scanned, less)
      invariant latestVersion == if latestPackage.Some? then latestPackage.value.version else None
    {
      var packages := FindAll(catalog, packageName, Archs[a]);
      var versioned;
      versioned, latestPackage, latestVersion := ScanMatches(packages, less, scanned, latestPackage, latestVersion);
      if !versioned {
        var k :| 0 <= k < |packages| && packages[k].version.None?;
        MissingVersionFails(catalog, packageName, less, a, packages[k]);
        return Failure(MissingVersion);
      }
      CandidatesInStep(catalog, packageName, Archs, a);
      scanned := scanned + packages;
    }
    assert Archs[..|Archs|] == Archs;
    ScannedCandidates(catalog, packageName, less, scanned);
    if latestPackage.None? {
      return Success(None);
    }
    var location := latestPackage.value.location;
    if location.None? {
      return Failure(MissingLocation);
    }
    return Success(Some(location.value));
  }

  /** None exactly when neither architecture has a matching package. */
  lemma NotFoundIffNoCandidate(catalog: seq<RpmPackage>, packageName: string, less: VersionLess)
    ensures LatestHref(catalog, packageName, less) == Success(None) <==>
              forall p | p in catalog :: !(p.name == packageName && (p.arch == "x86_64" || p.arch == "noarch"))
  {
    CandidatesAreExactMatches(catalog, packageName);
    var cands := Candidates(catalog, packageName);
    if cands != [] {
      assert cands[0] in cands;
    }
  }

  /** The script fails exactly on a candidate without a version, or a winner without a location. */
  lemma FailureCases(catalog: seq<RpmPackage>, packageName: string, less: VersionLess)
    ensures var cands := Candidates(catalog, packageName);
            var r := LatestHref(catalog, packageName, less);
            && (r == Failure(MissingVersion) <==> exists p :: p in cands && p.version.None?)
            && (r == Failure(MissingLocation) <==>
                  AllVersioned(cands) && Winner(cands, less).Some? && Winner(cands, less).value.location.None?)
            && (r.Failure? ==> r.error == MissingVersion || r.error == MissingLocation)
  {
    var cands := Candidates(catalog, packageName);
    if !AllVersioned(cands) {
      var j :| 0 <= j < |cands| && cands[j].version.None?;
      assert cands[j] in cands;
    }
  }

  /** Position `k` holds the first of the newest candidates, every candidate being versioned. */
  ghost predicate FirstNewest(cands: seq<RpmPackage>, less: VersionLess, k: int) {
    && 0 <= k < |cands|
    && AllVersioned(cands)
    && (forall j :: 0 <= j < |cands| ==> !less(cands[k].version.value, cands[j].version.value))
    && (forall j :: 0 <= j < k ==> less(cands[j].version.value, cands[k].version.value))
  }

  lemma FirstNewestIsLatestIndex(cands: seq<RpmPackage>, less: VersionLess, k: int)
    requires StrictWeakOrder(less) && AllVersioned(cands)
    ensures FirstNewest(cands, less, k) <==> IsFirstNewest(VersionBallots(cands), less, k)
    ensures FirstNewest(cands, less, k) <==> LatestIndex(VersionBallots(cands), less) == Some(k)
  {
    var b := VersionBallots(cands);
    assert forall j :: 0 <= j < |cands| ==> b[j] == cands[j].version;
    LatestIndexCharacterised(b, less, k);
  }

  /**
   * One winner across both architectures: no candidate is newer, and every
   * candidate scanned before it is strictly older; its `href` is returned.
   */
  lemma FoundIsFirstNewest(catalog: seq<RpmPackage>, packageName: string, less: VersionLess)
    requires StrictWeakOrder(less)
    ensures var cands := Candidates(catalog, packageName);
            forall k :: FirstNewest(cands, less, k) ==>
              LatestHref(catalog, packageName, less) ==
                if cands[k].location.Some? then Success(Some(cands[k].location.value)) else Failure(MissingLocation)
    ensures var cands := Candidates(catalog, packageName);
            var r := LatestHref(catalog, packageName, less);
            r.Success? && r.value.Some? ==>
              exists k :: FirstNewest(cands, less, k) && cands[k].location == r.value
  {
    var cands := Candidates(catalog, packageName);
    if AllVersioned(cands) {
      WinnerIsLatestIndex(cands, less);
      forall k | FirstNewest(cands, less, k)
        ensures Winner(cands, less) == Some(cands[k])
      {
        FirstNewestIsLatestIndex(cands, less, k);
      }
      var i := LatestIndex(VersionBallots(cands), less);
      if i.Some? {
        FirstNewestIsLatestIndex(cands, less, i.value);
      }
    }
  }

  /** On a tie `x86_64` beats `noarch`: a `noarch` winner is strictly newer than every `x86_64` candidate. */
  lemma X86BeatsNoarchOnTies(catalog: seq<RpmPackage>, packageName: string, less: VersionLess, k: int)
    requires StrictWeakOrder(less)
    requires FirstNewest(Candidates(catalog, packageName), less, k)
    requires Candidates(catalog, packageName)[k].arch == "noarch"
    ensures forall p | p in FindAll(catalog, packageName, "x86_64") ::
              p.version.Some? && less(p.version.value, Candidates(catalog, packageName)[k].version.value)
  {
    var cands := Candidates(catalog, packageName);
    var x86 := FindAll(catalog, packageName, "x86_64");
    CandidatesOrder(catalog, packageName);
    FindAllArch(catalog, packageName, "x86_64");
    assert k >= |x86|;
    forall p | p in x86
      ensures p.version.Some? && less(p.version.value, cands[k].version.value)
    {
      var i :| 0 <= i < |x86| && x86[i] == p;
      assert cands[i] == p;
    }
  }

  // ---------------------------------------------------------------------------
  // Artifact location
  // ---------------------------------------------------------------------------

  /** `'-'.join(rpm_file.split('-')[1:])`. */
  function CleanRpmFilename(rpmFile: string): string {
    JoinWith(SplitOn(rpmFile, '-')[1..], '-')
  }

  /** Cleaning drops everything up to and including the first '-'; with no '-' nothing is left. */
  lemma CleanRpmFilenameDropsFirstSegment(rpmFile: string)
    ensures '-' in rpmFile ==> CleanRpmFilename(rpmFile) == rpmFile[IndexOf(rpmFile, '-') + 1..]
    ensures '-' !in rpmFile ==> CleanRpmFilename(rpmFile) == ""
    ensures rpmFile != "" ==> |CleanRpmFilename(rpmFile)| < |rpmFile|
  {
    if '-' in rpmFile {
      var i := IndexOf(rpmFile, '-');
      assert SplitOn(rpmFile, '-')[1..] == SplitOn(rpmFile[i + 1..], '-');
      JoinSplit(rpmFile[i + 1..], '-');
    }
  }

  /** Cleaning twice drops two segments. */
  lemma CleanRpmFilenameTwice(rpmFile: string)
    requires '-' in rpmFile
    ensures |SplitOn(rpmFile, '-')| >= 2
    ensures CleanRpmFilename(CleanRpmFilename(rpmFile)) == JoinWith(SplitOn(rpmFile, '-')[2..], '-')
  {
    var parts := SplitOn(rpmFile, '-');
    var i := IndexOf(rpmFile, '-');
    assert parts == [rpmFile[..i]] + SplitOn(rpmFile[i + 1..], '-');
    SplitJoin(parts[1..], '-');
    assert parts[1..][1..] == parts[2..];
  }

  /**
   * The download of a resolved `href`: skipped when the path is empty or None;
   * otherwise fetched from `os.path.join(REPO_URL, href)` and saved under the
   * cleaned base name.
   */
  function LocateRpm(packagePath: Option<string>): (a: Option<Paths.Artifact>)
    ensures a.Some? <==> packagePath.Some? && packagePath.value != ""
    ensures a.Some? && packagePath.value[0] != '/' ==> a.value.url == RepoUrl + packagePath.value
    ensures a.Some? ==> a.value.filename == CleanRpmFilename(Paths.Basename(packagePath.value))
    ensures a.Some? ==> '/' !in a.value.filename
  {
    if packagePath.Some? && packagePath.value != "" then
      var name := Paths.Basename(packagePath.value);
      CleanRpmFilenameDropsFirstSegment(name);
      Some(Paths.Artifact(Paths.Join(RepoUrl, packagePath.value), CleanRpmFilename(name)))
    else None
  }

  /** A name `prefix-rest` with no '-' in its prefix is cleaned to `rest`. */
  lemma CleanPrefixedName(prefix: string, rest: string)
    requires '-' !in prefix
    ensures CleanRpmFilename(prefix + "-" + rest) == rest
  {
    var name := prefix + "-" + rest;
    assert name[|prefix|] == '-' && name[..|prefix|] == prefix;
    IndexOfIsFirst(name, '-', |prefix|);
    CleanRpmFilenameDropsFirstSegment(name);
    assert name[|prefix| + 1..] == rest;
  }

  /**
   * A relative path `dir/prefix-rest` whose prefix holds no '-' is fetched
   * from under the repository root and saved as `rest`.
   */
  lemma LocatePrefixedRpm(dir: string, prefix: string, rest: string)
    requires '-' !in prefix && '/' !in prefix && '/' !in rest
    requires dir != [] && dir[0] != '/'
    ensures LocateRpm(Some(dir + "/" + prefix + "-" + rest))
         == Some(Paths.Artifact(RepoUrl + (dir + "/" + prefix + "-" + rest), rest))
  {
    var name := prefix + "-" + rest;
    var path := dir + "/" + prefix + "-" + rest;
    assert path == dir + "/" + name && path[0] == dir[0];
    assert '/' !in name;
    Paths.BasenameAfterSlash(dir, name);
    CleanPrefixedName(prefix, rest);
  }
}
