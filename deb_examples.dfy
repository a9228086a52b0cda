/** Worked index texts for the Debian resolver, as a `Packages` file is read with `readlines`. */
module DebExamples {
  import opened Wrappers
  import opened Versions
  import opened DebIndex
  import Paths

  lemma ScanAppend(lines: seq<string>, line: string)
    ensures Scan(lines + [line]) == Feed(Scan(lines), line)
  {
    assert (lines + [line])[..|lines|] == lines;
  }

  /** A line is read only by the key it starts with. */
  lemma OtherKeyIgnores(line: string, key: string)
    requires |key| > 0 && |line| > 0 && line[0] != key[0]
    ensures FieldValue(line, key).None?
  {
  }

  /** Each `Key: value` line sets its own field and no other. */
  lemma PackageLine(p: Partial, v: string)
    requires IsFieldValue(v)
    ensures Apply(p, PackageKey + v + "\n") == p.(name := Some(v))
  {
    var line := PackageKey + v + "\n";
    FieldValueOf(PackageKey, v);
    OtherKeyIgnores(line, VersionKey);
    OtherKeyIgnores(line, ArchitectureKey);
    OtherKeyIgnores(line, FilenameKey);
  }

  lemma VersionLine(p: Partial, v: string)
    requires IsFieldValue(v)
    ensures Apply(p, VersionKey + v + "\n") == p.(version := Some(v))
  {
    var line := VersionKey + v + "\n";
    FieldValueOf(VersionKey, v);
    OtherKeyIgnores(line, PackageKey);
    OtherKeyIgnores(line, ArchitectureKey);
    OtherKeyIgnores(line, FilenameKey);
  }

  lemma ArchitectureLine(p: Partial, v: string)
    requires IsFieldValue(v)
    ensures Apply(p, ArchitectureKey + v + "\n") == p.(arch := Some(v))
  {
    var line := ArchitectureKey + v + "\n";
    FieldValueOf(ArchitectureKey, v);
    OtherKeyIgnores(line, PackageKey);
    OtherKeyIgnores(line, VersionKey);
    OtherKeyIgnores(line, FilenameKey);
  }

  lemma FilenameLine(p: Partial, v: string)
    requires IsFieldValue(v)
    ensures Apply(p, FilenameKey + v + "\n") == p.(filename := Some(v))
  {
    var line := FilenameKey + v + "\n";
    FieldValueOf(FilenameKey, v);
    OtherKeyIgnores(line, PackageKey);
    OtherKeyIgnores(line, VersionKey);
    OtherKeyIgnores(line, ArchitectureKey);
  }

  /** Feeding a line that leaves the in-progress record incomplete. */
  lemma FeedIncomplete(lines: seq<string>, line: string, q: Partial)
    requires Apply(Scan(lines).current, line) == q && !Complete(q)
    ensures Scan(lines + [line]) == ScanState(q, Records(lines))
  {
    ScanAppend(lines, line);
  }

  /** Feeding a line that completes the in-progress record. */
  lemma FeedComplete(lines: seq<string>, line: string, q: Partial)
    requires Apply(Scan(lines).current, line) == q && Complete(q)
    ensures Scan(lines + [line]) == ScanState(Empty, Records(lines) + [DebPackage(q.name.value, q.version.value, q.arch.value, q.filename.value)])
  {
    ScanAppend(lines, line);
  }

  /** The package and version lines of a stanza. */
  function Header(n: string, v: string): seq<string> {
    [PackageKey + n + "\n", VersionKey + v + "\n"]
  }

  /** The architecture and file name lines of a stanza. */
  function Trailer(a: string, f: string): seq<string> {
    [ArchitectureKey + a + "\n", FilenameKey + f + "\n"]
  }

  /** The four field lines of one stanza, as `readlines` returns them. */
  function Stanza(n: string, v: string, a: string, f: string): seq<string> {
    Header(n, v) + Trailer(a, f)
  }

  /** Package and version lines on an empty record set those two fields. */
  lemma HeaderSetsNameAndVersion(lines: seq<string>, n: string, v: string)
    requires Scan(lines).current == Empty
    requires IsFieldValue(n) && IsFieldValue(v)
    ensures Scan(lines + Header(n, v)) == ScanState(Partial(Some(n), Some(v), None, None), Records(lines))
  {
    var l0, l1 := PackageKey + n + "\n", VersionKey + v + "\n";
    PackageLine(Empty, n);
    FeedIncomplete(lines, l0, Partial(Some(n), None, None, None));
    VersionLine(Partial(Some(n), None, None, None), v);
    FeedIncomplete(lines + [l0], l1, Partial(Some(n), Some(v), None, None));
    assert lines + [l0] + [l1] == lines + Header(n, v);
  }

  /** Architecture and file name lines complete a record holding a name and a version. */
  lemma TrailerCompletes(lines: seq<string>, n: string, v: string, a: string, f: string)
    requires Scan(lines).current == Partial(Some(n), Some(v), None, None)
    requires IsFieldValue(a) && IsFieldValue(f)
    ensures Scan(lines + Trailer(a, f)) == ScanState(Empty, Records(lines) + [DebPackage(n, v, a, f)])
  {
    var l2, l3 := ArchitectureKey + a + "\n", FilenameKey + f + "\n";
    ArchitectureLine(Partial(Some(n), Some(v), None, None), a);
    FeedIncomplete(lines, l2, Partial(Some(n), Some(v), Some(a), None));
    FilenameLine(Partial(Some(n), Some(v), Some(a), None), f);
    FeedComplete(lines + [l2], l3, Partial(Some(n), Some(v), Some(a), Some(f)));
    assert lines + [l2] + [l3] == lines + Trailer(a, f);
  }

  /** A stanza of the four field lines, begun on an empty record, completes exactly its own record. */
  lemma StanzaCompletes(lines: seq<string>, n: string, v: string, a: string, f: string)
    requires Scan(lines).current == Empty
    requires IsFieldValue(n) && IsFieldValue(v) && IsFieldValue(a) && IsFieldValue(f)
    ensures Scan(lines + Stanza(n, v, a, f)) == ScanState(Empty, Records(lines) + [DebPackage(n, v, a, f)])
  {
    HeaderSetsNameAndVersion(lines, n, v);
    TrailerCompletes(lines + Header(n, v), n, v, a, f);
    assert lines + (Header(n, v) + Trailer(a, f)) == lines + Header(n, v) + Trailer(a, f);
  }

  /** A stanza cut short by a blank line after its version leaves its fields in the record. */
  lemma CutShortStanza(lines: seq<string>, n1: string, v: string)
    requires Scan(lines).current == Empty
    requires IsFieldValue(n1) && IsFieldValue(v)
    ensures Scan(lines + Header(n1, v) + ["\n"]) == ScanState(Partial(Some(n1), Some(v), None, None), Records(lines))
  {
    HeaderSetsNameAndVersion(lines, n1, v);
    BlankLinesChangeNothing(lines + Header(n1, v));
  }

  /** The next stanza's package line renames the record and its trailer completes it with the leftover version. */
  lemma CompletedByNextStanza(lines: seq<string>, n1: string, v: string, n2: string, a: string, f: string)
    requires Scan(lines).current == Partial(Some(n1), Some(v), None, None)
    requires IsFieldValue(n2) && IsFieldValue(a) && IsFieldValue(f)
    ensures Records(lines + [PackageKey + n2 + "\n"] + Trailer(a, f)) == Records(lines) + [DebPackage(n2, v, a, f)]
  {
    PackageLine(Partial(Some(n1), Some(v), None, None), n2);
    FeedIncomplete(lines, PackageKey + n2 + "\n", Partial(Some(n2), Some(v), None, None));
    TrailerCompletes(lines + [PackageKey + n2 + "\n"], n2, v, a, f);
  }

  /**
   * A stanza cut short by a blank line leaks into the next one: the version of
   * package `n1` ends up in the record completed for package `n2`, whose own
   * stanza has no version line.
   */
  lemma UnfinishedStanzaLeaks(lines: seq<string>, n1: string, v: string, n2: string, a: string, f: string)
    requires Scan(lines).current == Empty
    requires IsFieldValue(n1) && IsFieldValue(v) && IsFieldValue(n2) && IsFieldValue(a) && IsFieldValue(f)
    ensures Records(lines + Header(n1, v) + ["\n"] + [PackageKey + n2 + "\n"] + Trailer(a, f))
         == Records(lines) + [DebPackage(n2, v, a, f)]
  {
    CutShortStanza(lines, n1, v);
    CompletedByNextStanza(lines + Header(n1, v) + ["\n"], n1, v, n2, a, f);
  }

  /** Two stanzas for one package and architecture, a blank line between: both records, in order. */
  lemma TwoStanzasRecords(n: string, v1: string, v2: string, a: string, f1: string, f2: string)
    requires IsFieldValue(n) && IsFieldValue(v1) && IsFieldValue(v2)
    requires IsFieldValue(a) && IsFieldValue(f1) && IsFieldValue(f2)
    ensures Records(Stanza(n, v1, a, f1) + ["\n"] + Stanza(n, v2, a, f2))
         == [DebPackage(n, v1, a, f1), DebPackage(n, v2, a, f2)]
  {
    var first := Stanza(n, v1, a, f1);
    StanzaCompletes([], n, v1, a, f1);
    assert [] + first == first;
    BlankLinesChangeNothing(first);
    StanzaCompletes(first + ["\n"], n, v2, a, f2);
  }

  /** The later stanza wins when its version is strictly newer. */
  lemma NewerStanzaIsChosen(n: string, v1: string, v2: string, a: string, f1: string, f2: string, less: VersionLess)
    requires IsFieldValue(n) && IsFieldValue(v1) && IsFieldValue(v2)
    requires IsFieldValue(a) && IsFieldValue(f1) && IsFieldValue(f2)
    requires less(v1, v2)
    ensures Resolve(Records(Stanza(n, v1, a, f1) + ["\n"] + Stanza(n, v2, a, f2)), n, a, less)
         == Some(DebPackage(n, v2, a, f2))
  {
    TwoStanzasRecords(n, v1, v2, a, f1, f2);
    var r1, r2 := DebPackage(n, v1, a, f1), DebPackage(n, v2, a, f2);
    ResolveAppend([], r1, n, a, less);
    assert [] + [r1] == [r1];
    ResolveAppend([r1], r2, n, a, less);
    assert [r1] + [r2] == [r1, r2];
  }

  /** Under the dot-numeric ordering, release 1.3.0 is newer than 1.2.0. */
  lemma MinorReleaseIsNewer()
    ensures NumericLess("1.2.0", "1.3.0")
  {
    assert "1.2.0" == "1" + "." + "2" + "." + "0";
    assert "1.3.0" == "1" + "." + "3" + "." + "0";
    assert NumberValue("2") == 2 && NumberValue("3") == 3;
    EarlierComponentDecides("1", "2", "3", "0");
  }

  /**
   * An index listing `axon-agent` 1.2.0 and then 1.3.0 for `amd64` resolves
   * to the 1.3.0 record under any ordering in which 1.3.0 is the newer, the
   * dot-numeric one included (`MinorReleaseIsNewer`).
   */
  lemma AgentReleaseIsChosen(f1: string, f2: string, less: VersionLess)
    requires IsFieldValue(f1) && IsFieldValue(f2)
    requires less("1.2.0", "1.3.0")
    ensures Resolve(Records(Stanza("axon-agent", "1.2.0", "amd64", f1) + ["\n"] + Stanza("axon-agent", "1.3.0", "amd64", f2)),
                    "axon-agent", "amd64", less)
         == Some(DebPackage("axon-agent", "1.3.0", "amd64", f2))
  {
    NewerStanzaIsChosen("axon-agent", "1.2.0", "1.3.0", "amd64", f1, f2, less);
  }

  /** The same index under the dot-numeric ordering. */
  lemma AgentReleaseIsChosenNumerically(f1: string, f2: string)
    requires IsFieldValue(f1) && IsFieldValue(f2)
    ensures Resolve(Records(Stanza("axon-agent", "1.2.0", "amd64", f1) + ["\n"] + Stanza("axon-agent", "1.3.0", "amd64", f2)),
                    "axon-agent", "amd64", NumericLess)
         == Some(DebPackage("axon-agent", "1.3.0", "amd64", f2))
  {
    MinorReleaseIsNewer();
    AgentReleaseIsChosen(f1, f2, NumericLess);
  }

  /** The chosen agent package is saved under its own name: `_amd64.deb` is not a hash segment. */
  lemma AgentFileIsSavedAsIs(repoUrl: string, dir: string)
    ensures LocateDeb(repoUrl, DebPackage("axon-agent", "1.3.0", "amd64", dir + "/axon-agent_1.3.0_amd64.deb")).filename
         == "axon-agent_1.3.0_amd64.deb"
  {
    var stem, h := "axon-agent_1.3.0_a", "d64";
    assert "axon-agent_1.3.0_amd64.deb" == stem + ['m'] + h + ".deb";
    assert dir + "/axon-agent_1.3.0_amd64.deb" == dir + "/" + stem + ['m'] + h + ".deb";
    assert '/' !in stem;
    LocateUnprefixedRun(repoUrl, DebPackage("axon-agent", "1.3.0", "amd64", dir + "/axon-agent_1.3.0_amd64.deb"), dir, stem, 'm', h);
  }
}
