/**
 * The Debian flat-index resolver of the APT download script: a line-by-line
 * scan of a `Packages` file that fills an in-progress record from four
 * `Key: value` lines, judges each record as soon as all four fields are
 * present, and keeps the first strictly newest record for the requested
 * package name and architecture. Also the architecture policy and the
 * URL / local-filename derivation for the chosen record.
 */
module DebIndex {
  import opened Wrappers
  import opened Text
  import opened Versions
  import opened Latest
  import Paths

  const AptRepoUrl := "https://packages.axonops.com/apt"
  const CassandraDseArch := ["all"]
  const OtherArchs := ["amd64", "arm64"]

  const PackageKey := "Package: "
  const VersionKey := "Version: "
  const ArchitectureKey := "Architecture: "
  const FilenameKey := "Filename: "

  // ---------------------------------------------------------------------------
  // Recognising one field line
  // ---------------------------------------------------------------------------

  /** What the capture group `(.+)` can hold: at least one character, no line break. */
  predicate IsFieldValue(v: string) {
    |v| > 0 && '\n' !in v
  }

  /**
   * The regular expression `^Key: (.+)$` applied with `re.match` to a line as
   * `readlines` returns it: `$` also matches just before a final line break.
   */
  function FieldValue(line: string, key: string): (r: Option<string>)
    ensures r.Some? ==> IsFieldValue(r.value) && (line == key + r.value || line == key + r.value + "\n")
  {
    if |key| <= |line| && line[..|key|] == key then
      var rest := line[|key|..];
      var v := if |rest| > 0 && rest[|rest| - 1] == '\n' then rest[..|rest| - 1] else rest;
      assert line == key + rest;
      if IsFieldValue(v) then Some(v) else None
    else None
  }

  /** Conversely, every `Key: value` line, with or without its line break, yields its value. */
  lemma FieldValueOf(key: string, v: string)
    requires IsFieldValue(v)
    ensures FieldValue(key + v, key) == Some(v)
    ensures FieldValue(key + v + "\n", key) == Some(v)
  {
    assert (key + v)[..|key|] == key && (key + v)[|key|..] == v;
    assert (key + v + "\n")[..|key|] == key && (key + v + "\n")[|key|..] == v + "\n";
    assert (v + "\n")[..|v|] == v;
  }

  // ---------------------------------------------------------------------------
  // The in-progress record and the scan
  // ---------------------------------------------------------------------------

  /** The `current_package` dictionary: each key present or absent. */
  datatype Partial = Partial(name: Option<string>, version: Option<string>,
                             arch: Option<string>, filename: Option<string>)

  const Empty := Partial(None, None, None, None)

  predicate Complete(p: Partial) {
    p.name.Some? && p.version.Some? && p.arch.Some? && p.filename.Some?
  }

  /** A complete record as the resolver returns it. */
  datatype DebPackage = DebPackage(name: string, version: string, arch: string, filename: string)

  function Overwrite(field: Option<string>, seen: Option<string>): Option<string> {
    if seen.Some? then seen else field
  }

  /** One line's effect on the in-progress record: a recognised field overwrites, anything else is ignored. */
  function Apply(p: Partial, line: string): Partial {
    Partial(Overwrite(p.name, FieldValue(line, PackageKey)),
            Overwrite(p.version, FieldValue(line, VersionKey)),
            Overwrite(p.arch, FieldValue(line, ArchitectureKey)),
            Overwrite(p.filename, FieldValue(line, FilenameKey)))
  }

  /** The scan so far: the in-progress record and the complete records judged, in order. */
  datatype ScanState = ScanState(current: Partial, emitted: seq<DebPackage>)

  function Feed(st: ScanState, line: string): ScanState {
    var q := Apply(st.current, line);
    if Complete(q) then
      ScanState(Empty, st.emitted + [DebPackage(q.name.value, q.version.value, q.arch.value, q.filename.value)])
    else
      ScanState(q, st.emitted)
  }

  function Scan(lines: seq<string>): ScanState {
    if lines == [] then ScanState(Empty, [])
    else Feed(Scan(lines[..|lines| - 1]), lines[|lines| - 1])
  }

  /** The complete records of an index, in the order the scan completes them. */
  function Records(lines: seq<string>): seq<DebPackage> {
    Scan(lines).emitted
  }

  lemma ScanPrefixStep(lines: seq<string>, i: int)
    requires 0 <= i < |lines|
    ensures Scan(lines[..i + 1]) == Feed(Scan(lines[..i]), lines[i])
  {
    assert lines[..i + 1][..i] == lines[..i];
  }

  /** The in-progress record is never complete between lines: completion resets it at once. */
  lemma {:induction false} CurrentNeverComplete(lines: seq<string>)
    ensures !Complete(Scan(lines).current)
  {
    if lines != [] {
      CurrentNeverComplete(lines[..|lines| - 1]);
    }
  }

  /** A line that is none of the four fields, a blank line included, changes nothing: it does not reset the record. */
  lemma UnrecognisedLineChangesNothing(lines: seq<string>, line: string)
    requires FieldValue(line, PackageKey).None? && FieldValue(line, VersionKey).None?
    requires FieldValue(line, ArchitectureKey).None? && FieldValue(line, FilenameKey).None?
    ensures Scan(lines + [line]) == Scan(lines)
  {
    assert (lines + [line])[..|lines|] == lines;
    CurrentNeverComplete(lines);
  }

  lemma BlankLinesChangeNothing(lines: seq<string>)
    ensures Scan(lines + [""]) == Scan(lines)
    ensures Scan(lines + ["\n"]) == Scan(lines)
  {
    UnrecognisedLineChangesNothing(lines, "");
    UnrecognisedLineChangesNothing(lines, "\n");
  }

  /** The value of the last line among `lines` that sets the field `key`. */
  function LastValue(lines: seq<string>, key: string): Option<string> {
    if lines == [] then None
    else Overwrite(LastValue(lines[..|lines| - 1], key), FieldValue(lines[|lines| - 1], key))
  }

  /** Where the current stanza began: just after the line that completed the last record. */
  function StanzaStart(lines: seq<string>): (start: nat)
    ensures start <= |lines|
  {
    if lines == [] then 0
    else if Complete(Apply(Scan(lines[..|lines| - 1]).current, lines[|lines| - 1])) then |lines|
    else StanzaStart(lines[..|lines| - 1])
  }

  /** The latest value of each field set since the stanza began. */
  function Pending(lines: seq<string>): Partial {
    var seen := lines[StanzaStart(lines)..];
    Partial(LastValue(seen, PackageKey), LastValue(seen, VersionKey),
            LastValue(seen, ArchitectureKey), LastValue(seen, FilenameKey))
  }

  lemma LastValueAppend(seen: seq<string>, line: string)
    ensures Apply(Partial(LastValue(seen, PackageKey), LastValue(seen, VersionKey),
                          LastValue(seen, ArchitectureKey), LastValue(seen, FilenameKey)), line)
         == Partial(LastValue(seen + [line], PackageKey), LastValue(seen + [line], VersionKey),
                    LastValue(seen + [line], ArchitectureKey), LastValue(seen + [line], FilenameKey))
  {
    assert (seen + [line])[..|seen|] == seen;
  }

  /**
   * The in-progress record holds, for each field, the latest value seen since
   * the last completion, whatever blank lines came between: the fields of an
   * unfinished stanza carry over into the next.
   */
  lemma {:induction false} CurrentIsPending(lines: seq<string>)
    ensures Scan(lines).current == Pending(lines)
  {
    if lines != [] {
      var prefix := lines[..|lines| - 1];
      var line := lines[|lines| - 1];
      CurrentIsPending(prefix);
      if !Complete(Apply(Scan(prefix).current, line)) {
        var seen := prefix[StanzaStart(prefix)..];
        LastValueAppend(seen, line);
        assert lines[StanzaStart(lines)..] == seen + [line];
      }
    }
  }

  /** A completed record is made of the latest value of each field seen since the previous completion. */
  lemma CompletionEmitsPending(lines: seq<string>, line: string)
    requires Complete(Apply(Scan(lines).current, line))
    ensures var seen := lines[StanzaStart(lines)..] + [line];
            var q := Partial(LastValue(seen, PackageKey), LastValue(seen, VersionKey),
                             LastValue(seen, ArchitectureKey), LastValue(seen, FilenameKey));
            && Complete(q)
            && Records(lines + [line]) == Records(lines) +
                 [DebPackage(q.name.value, q.version.value, q.arch.value, q.filename.value)]
  {
    assert (lines + [line])[..|lines|] == lines;
    CurrentIsPending(lines);
    LastValueAppend(lines[StanzaStart(lines)..], line);
  }

  // ---------------------------------------------------------------------------
  // Choosing the newest record
  // ---------------------------------------------------------------------------

  predicate Wanted(p: DebPackage, packageName: string, arch: string) {
    p.name == packageName && p.arch == arch
  }

  /** A record is a candidate exactly when name and architecture both match. */
  function Ballots(records: seq<DebPackage>, packageName: string, arch: string): (b: seq<Option<string>>)
    ensures |b| == |records|
  {
    seq(|records|, j requires 0 <= j < |records| =>
      if Wanted(records[j], packageName, arch) then Some(records[j].version) else None)
  }

  /** The first strictly newest matching record, or None. */
  function Resolve(records: seq<DebPackage>, packageName: string, arch: string, less: VersionLess): Option<DebPackage> {
    match LatestIndex(Ballots(records, packageName, arch), less)
    case None => None
    case Some(k) => Some(records[k])
  }

  /** One more complete record: it replaces the best only if it matches and is strictly newer. */
  lemma ResolveAppend(records: seq<DebPackage>, p: DebPackage, packageName: string, arch: string, less: VersionLess)
    ensures var best := Resolve(records, packageName, arch, less);
            Resolve(records + [p], packageName, arch, less) ==
              if Wanted(p, packageName, arch) && (best.None? || less(best.value.version, p.version)) then Some(p)
              else best
  {
    var b := Ballots(records, packageName, arch);
    var ballot := if Wanted(p, packageName, arch) then Some(p.version) else None;
    assert Ballots(records + [p], packageName, arch) == b + [ballot];
    LatestIndexAppend(b, ballot, less);
  }

  /** The result matches name and architecture, and is None exactly when no complete record does. */
  lemma ResolveFound(records: seq<DebPackage>, packageName: string, arch: string, less: VersionLess)
    ensures var r := Resolve(records, packageName, arch, less);
            && (r.Some? ==> r.value in records && Wanted(r.value, packageName, arch))
            && (r.None? <==> forall p | p in records :: !Wanted(p, packageName, arch))
  {
    var b := Ballots(records, packageName, arch);
    if Resolve(records, packageName, arch, less).None? {
      forall p | p in records
        ensures !Wanted(p, packageName, arch)
      {
        var j :| 0 <= j < |records| && records[j] == p;
        assert b[j].None?;
      }
    } else {
      var k := LatestIndex(b, less).value;
      assert b[k].Some?;
    }
  }

  /** Position `k` is the first of the newest matching records. */
  ghost predicate FirstNewest(records: seq<DebPackage>, packageName: string, arch: string, less: VersionLess, k: int) {
    && 0 <= k < |records|
    && Wanted(records[k], packageName, arch)
    && (forall j :: 0 <= j < |records| && Wanted(records[j], packageName, arch) ==>
          !less(records[k].version, records[j].version))
    && (forall j :: 0 <= j < k && Wanted(records[j], packageName, arch) ==>
          less(records[j].version, records[k].version))
  }

  /**
   * Under a lawful version ordering the resolver returns exactly the first of
   * the newest matching records: no matching record is newer, and on a tie the
   * earliest wins because replacement needs a strictly newer version.
   */
  lemma ResolveIsFirstNewest(records: seq<DebPackage>, packageName: string, arch: string, less: VersionLess, k: int)
    requires StrictWeakOrder(less)
    ensures Resolve(records, packageName, arch, less) == Some(records[k]) <== FirstNewest(records, packageName, arch, less, k)
    ensures Resolve(records, packageName, arch, less).Some? ==>
              exists i :: FirstNewest(records, packageName, arch, less, i) &&
                          Resolve(records, packageName, arch, less) == Some(records[i])
  {
    var b := Ballots(records, packageName, arch);
    forall i | 0 <= i < |records|
      ensures IsFirstNewest(b, less, i) <==> FirstNewest(records, packageName, arch, less, i)
    {
      assert forall j :: 0 <= j < |records| ==> (b[j].Some? <==> Wanted(records[j], packageName, arch));
    }
    LatestIndexCharacterised(b, less, k);
    var r := LatestIndex(b, less);
    if r.Some? {
      LatestIndexCharacterised(b, less, r.value);
    }
  }

  /** A complete record for another package or architecture never affects the result, wherever it stands. */
  lemma {:induction false} ResolveIgnoresOthers(a: seq<DebPackage>, p: DebPackage, c: seq<DebPackage>,
                                                packageName: string, arch: string, less: VersionLess)
    requires !Wanted(p, packageName, arch)
    ensures Resolve(a + [p] + c, packageName, arch, less) == Resolve(a + c, packageName, arch, less)
    decreases |c|
  {
    if c == [] {
      assert a + [p] + c == a + [p] && a + c == a;
      ResolveAppend(a, p, packageName, arch, less);
    } else {
      var c' := c[..|c| - 1];
      var x := c[|c| - 1];
      ResolveIgnoresOthers(a, p, c', packageName, arch, less);
      assert a + [p] + c == (a + [p] + c') + [x];
      assert a + c == (a + c') + [x];
      ResolveAppend(a + [p] + c', x, packageName, arch, less);
      ResolveAppend(a + c', x, packageName, arch, less);
    }
  }

  /**
   * `get_latest_package_version`: one pass over the lines, filling the
   * in-progress record, judging it when complete and then resetting it.
   * `latestVersion` mirrors the script's separately kept `latest_version`.
   */
  method GetLatestPackageVersion(lines: seq<string>, packageName: string, arch: string, less: VersionLess)
    returns (latest: Option<DebPackage>)
    ensures latest == Resolve(Records(lines), packageName, arch, less)
    ensures latest.Some? ==> latest.value in Records(lines) && Wanted(latest.value, packageName, arch)
    ensures latest.None? <==> forall p | p in Records(lines) :: !Wanted(p, packageName, arch)
  {
    var current := Empty;
    var latestVersion: Option<string> := None;
    latest := None;
    for i := 0 to |lines|
      invariant current == Scan(lines[..i]).current
      invariant latest == Resolve(Records(lines[..i]), packageName, arch, less)
      invariant latestVersion == if latest.Some? then Some(latest.value.version) else None
    {
      var line := lines[i];
      ghost var before := current;
      ScanPrefixStep(lines, i);
      var m := FieldValue(line, PackageKey);
      if m.Some? {
        current := current.(name := m);
      }
      m := FieldValue(line, VersionKey);
      if m.Some? {
        current := current.(version := m);
      }
      m := FieldValue(line, ArchitectureKey);
      if m.Some? {
        current := current.(arch := m);
      }
      m := FieldValue(line, FilenameKey);
      if m.Some? {
        current := current.(filename := m);
      }
      assert current == Apply(before, line);
      if Complete(current) {
        var candidate := DebPackage(current.name.value, current.version.value, current.arch.value, current.filename.value);
        ResolveAppend(Records(lines[..i]), candidate, packageName, arch, less);
        if candidate.name == packageName && candidate.arch == arch {
          if latestVersion.None? || less(latestVersion.value, candidate.version) {
            latestVersion := Some(candidate.version);
            latest := Some(candidate);
          }
        }
        current := Empty;
      }
    }
    assert lines[..|lines|] == lines;
    ResolveFound(Records(lines), packageName, arch, less);
  }

  // ---------------------------------------------------------------------------
  // Architecture policy
  // ---------------------------------------------------------------------------

  /** `get_architectures_for_package`: one architecture-independent tag for Cassandra and DSE agents. */
  function ArchitecturesFor(packageName: string): (archs: seq<string>)
    ensures archs == CassandraDseArch <==> Contains(packageName, "cassandra") || Contains(packageName, "dse")
    ensures archs == CassandraDseArch || archs == OtherArchs
    ensures archs != []
  {
    if Contains(packageName, "cassandra") || Contains(packageName, "dse") then CassandraDseArch
    else OtherArchs
  }

  lemma ArchitecturesOfSomePackages()
    ensures ArchitecturesFor("axon-agent") == ["amd64", "arm64"]
    ensures ArchitecturesFor("axon-cassandra4.0-agent") == ["all"]
    ensures ArchitecturesFor("axon-dse5.1-agent") == ["all"]
  {
    var agent := "axon-agent";
    assert 'c' !in agent && 'd' !in agent;
    forall i | 0 <= i <= |agent| - 3
      ensures !OccursAt(agent, "dse", i)
    {
      assert agent[i] != 'd';
    }
    forall i | 0 <= i <= |agent| - 9
      ensures !OccursAt(agent, "cassandra", i)
    {
      assert agent[i] != 'c';
    }
    assert OccursAt("axon-cassandra4.0-agent", "cassandra", 5);
    assert OccursAt("axon-dse5.1-agent", "dse", 5);
  }

  // ---------------------------------------------------------------------------
  // Artifact location
  // ---------------------------------------------------------------------------

  predicate IsHexDigit(c: char) {
    '0' <= c <= '9' || 'a' <= c <= 'f'
  }

  /** The length of the longest suffix of `s` made of `[a-f0-9]`. */
  function HexRun(s: string): (n: nat)
    ensures n <= |s|
    ensures forall k :: |s| - n <= k < |s| ==> IsHexDigit(s[k])
    ensures n < |s| ==> !IsHexDigit(s[|s| - n - 1])
  {
    if s == [] || !IsHexDigit(s[|s| - 1]) then 0
    else HexRun(s[..|s| - 1]) + 1
  }

  /** The pattern `_[a-f0-9]+\.deb` matches `name` from position `j` to its end. */
  ghost predicate HashSegmentAt(name: string, j: int) {
    && 0 <= j && j + 6 <= |name|
    && name[j] == '_'
    && (forall k :: j < k < |name| - 4 ==> IsHexDigit(name[k]))
    && name[|name| - 4..] == ".deb"
  }

  /** Replaces a final `_<hex>.deb` by `.deb`; it only ever cuts a piece out before the extension. */
  function StripHashSegment(name: string): (r: string)
    ensures r == name || (6 <= |r| + 2 <= |name| && r == name[..|r| - 4] + ".deb")
  {
    if 4 <= |name| && name[|name| - 4..] == ".deb" then
      var stem := name[..|name| - 4];
      var h := HexRun(stem);
      if 0 < h < |stem| && stem[|stem| - h - 1] == '_' then
        var j := |stem| - h - 1;
        assert stem[..j] == name[..j];
        var r := stem[..j] + ".deb";
        assert |r| == j + 4 && r[..j] == name[..j];
        assert r == name[..|r| - 4] + ".deb";
        r
      else name
    else name
  }

  /** `re.sub(r'_[a-f0-9]+\.deb$', '.deb', name)`; `$` also matches before a final line break. */
  function CleanDebFilename(name: string): string {
    if |name| > 0 && name[|name| - 1] == '\n' then StripHashSegment(name[..|name| - 1]) + "\n"
    else StripHashSegment(name)
  }

  /** A matching segment starts right before the maximal hex run of the stem. */
  lemma HashSegmentIsHexRun(name: string, j: int)
    requires HashSegmentAt(name, j)
    ensures j == |name| - 4 - HexRun(name[..|name| - 4]) - 1
  {
    var stem := name[..|name| - 4];
    var h := HexRun(stem);
    assert stem[j] == '_' && !IsHexDigit(stem[j]);
    assert forall k :: j < k < |stem| ==> IsHexDigit(stem[k]);
  }

  /** The substitution removes the one `_<hex>` segment the pattern matches, and changes nothing else. */
  lemma StripHashSegmentMeaning(name: string)
    ensures forall j :: HashSegmentAt(name, j) ==> StripHashSegment(name) == name[..j] + ".deb"
    ensures (forall j :: !HashSegmentAt(name, j)) ==> StripHashSegment(name) == name
  {
    if 4 <= |name| && name[|name| - 4..] == ".deb" {
      var stem := name[..|name| - 4];
      var h := HexRun(stem);
      forall j | HashSegmentAt(name, j)
        ensures j == |stem| - h - 1
      {
        HashSegmentIsHexRun(name, j);
      }
      if 0 < h < |stem| && stem[|stem| - h - 1] == '_' {
        var j := |stem| - h - 1;
        assert forall k :: j < k < |name| - 4 ==> name[k] == stem[k];
        assert HashSegmentAt(name, j);
        assert stem[..j] == name[..j];
      }
    }
  }

  /**
   * On a file name (no line break) cleaning is exactly the regular
   * substitution: a name without the segment is a fixed point.
   */
  lemma CleanDebFilenameMeaning(name: string)
    requires '\n' !in name
    ensures forall j :: HashSegmentAt(name, j) ==> CleanDebFilename(name) == name[..j] + ".deb"
    ensures (forall j :: !HashSegmentAt(name, j)) ==> CleanDebFilename(name) == name
    ensures CleanDebFilename(name + "\n") == CleanDebFilename(name) + "\n"
  {
    StripHashSegmentMeaning(name);
    assert (name + "\n")[..|name|] == name;
  }

  /** A non-empty run of `[a-f0-9]`. */
  predicate IsHexRun(h: string) {
    |h| > 0 && forall k :: 0 <= k < |h| ==> IsHexDigit(h[k])
  }

  /** A final `_<hex>` segment before `.deb` is cut out. */
  lemma CleanStripsHashSegment(stem: string, h: string)
    requires IsHexRun(h)
    ensures CleanDebFilename(stem + "_" + h + ".deb") == stem + ".deb"
  {
    var name := stem + "_" + h + ".deb";
    assert name[|name| - 1] == 'b';
    assert name[|stem|] == '_';
    assert name[|name| - 4..] == ".deb";
    assert forall k :: |stem| < k < |name| - 4 ==> name[k] == h[k - |stem| - 1];
    assert HashSegmentAt(name, |stem|);
    StripHashSegmentMeaning(name);
    assert name[..|stem|] == stem;
  }

  /**
   * A hex run that does not follow a '_' is kept: in `_amd64.deb` the run
   * `d64` follows an 'm', so an architecture suffix is not taken for a hash.
   */
  lemma CleanKeepsUnprefixedRun(stem: string, c: char, h: string)
    requires c != '_' && !IsHexDigit(c)
    requires forall k :: 0 <= k < |h| ==> IsHexDigit(h[k])
    ensures CleanDebFilename(stem + [c] + h + ".deb") == stem + [c] + h + ".deb"
  {
    var name := stem + [c] + h + ".deb";
    var body := stem + [c] + h;
    assert name[|name| - 1] == 'b';
    assert name[..|name| - 4] == body;
    assert body[|stem|] == c;
    assert forall k :: |stem| < k < |body| ==> body[k] == h[k - |stem| - 1];
    assert HexRun(body) == |h|;
  }

  /** Cleaning is not idempotent: each application removes one more hex segment. */
  lemma CleaningIsNotIdempotent(stem: string, h1: string, h2: string)
    requires IsHexRun(h1) && IsHexRun(h2)
    ensures CleanDebFilename(stem + "_" + h1 + "_" + h2 + ".deb") == stem + "_" + h1 + ".deb"
    ensures CleanDebFilename(CleanDebFilename(stem + "_" + h1 + "_" + h2 + ".deb")) == stem + ".deb"
  {
    CleanStripsHashSegment(stem + "_" + h1, h2);
    CleanStripsHashSegment(stem, h1);
  }

  lemma CleaningKeepsNameFlat(name: string)
    requires '/' !in name
    ensures '/' !in CleanDebFilename(name)
  {
    var body := if |name| > 0 && name[|name| - 1] == '\n' then name[..|name| - 1] else name;
    assert forall c :: c in body ==> c in name;
    var r := StripHashSegment(body);
    assert forall c :: c in r ==> c in body || c in ".deb";
  }

  /**
   * The download URL and the cleaned local file name of a chosen record;
   * the script passes `AptRepoUrl` as the repository root.
   */
  function LocateDeb(repoUrl: string, p: DebPackage): (a: Paths.Artifact)
    ensures |a.url| == |repoUrl| + 1 + |p.filename|
    ensures a.url[..|repoUrl| + 1] == repoUrl + "/" && a.url[|repoUrl| + 1..] == p.filename
    ensures a.filename == CleanDebFilename(Paths.Basename(p.filename))
    ensures '/' !in a.filename
  {
    var name := Paths.Basename(p.filename);
    CleaningKeepsNameFlat(name);
    Paths.Artifact(repoUrl + "/" + p.filename, CleanDebFilename(name))
  }

  /** A file name without a hex segment is saved as it is, under the URL of its repository path. */
  lemma LocatePlainName(repoUrl: string, p: DebPackage, dir: string, name: string)
    requires p.filename == dir + "/" + name
    requires '/' !in name && '\n' !in name
    requires forall j :: !HashSegmentAt(name, j)
    ensures LocateDeb(repoUrl, p) == Paths.Artifact(repoUrl + "/" + dir + "/" + name, name)
  {
    Paths.BasenameAfterSlash(dir, name);
    CleanDebFilenameMeaning(name);
    assert CleanDebFilename(Paths.Basename(p.filename)) == name;
    assert repoUrl + "/" + p.filename == repoUrl + "/" + dir + "/" + name;
  }

  /** A file name ending in `_<hex>.deb` is saved without that segment, under the URL of its repository path. */
  lemma LocateHashedName(repoUrl: string, p: DebPackage, dir: string, stem: string, h: string)
    requires p.filename == dir + "/" + stem + "_" + h + ".deb"
    requires '/' !in stem && IsHexRun(h)
    ensures LocateDeb(repoUrl, p) == Paths.Artifact(repoUrl + "/" + p.filename, stem + ".deb")
  {
    var name := stem + "_" + h + ".deb";
    assert forall k :: 0 <= k < |name| ==> name[k] != '/' by {
      forall k | 0 <= k < |name|
        ensures name[k] != '/'
      {
        if |stem| < k < |stem| + 1 + |h| {
          assert name[k] == h[k - |stem| - 1];
        } else if k < |stem| {
          assert name[k] == stem[k];
        }
      }
    }
    assert p.filename == dir + "/" + name;
    Paths.BasenameAfterSlash(dir, name);
    CleanStripsHashSegment(stem, h);
  }

  /** A file name whose final hex run does not follow a '_', as in `_amd64.deb`, is saved as it is. */
  lemma LocateUnprefixedRun(repoUrl: string, p: DebPackage, dir: string, stem: string, c: char, h: string)
    requires p.filename == dir + "/" + stem + [c] + h + ".deb"
    requires '/' !in stem && c != '/' && c != '_' && !IsHexDigit(c)
    requires forall k :: 0 <= k < |h| ==> IsHexDigit(h[k])
    ensures LocateDeb(repoUrl, p).filename == stem + [c] + h + ".deb"
  {
    var name := stem + [c] + h + ".deb";
    assert forall k :: 0 <= k < |name| ==> name[k] != '/' by {
      forall k | 0 <= k < |name|
        ensures name[k] != '/'
      {
        if |stem| < k < |stem| + 1 + |h| {
          assert name[k] == h[k - |stem| - 1];
        } else if k < |stem| {
          assert name[k] == stem[k];
        }
      }
    }
    assert p.filename == dir + "/" + name;
    Paths.BasenameAfterSlash(dir, name);
    CleanKeepsUnprefixedRun(stem, c, h);
  }
}
