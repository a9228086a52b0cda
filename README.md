# AxonOps package downloader: a verified model of the resolvers

The two download scripts (`axonops_deb_packages_downloader.py` for the APT
repository and `axonops_rpm_packages_downloader.py` for the YUM repository)
each pick, for every AxonOps package, the newest published build, and then
derive where to fetch it and what to call the saved file. This project models
that core and proves what it does:

- **Debian flat index** (`deb.dfy`, module `DebIndex`). `Packages` is read
  line by line. An in-progress record is filled from `Package:`, `Version:`,
  `Architecture:` and `Filename:` lines. It is judged as soon as all four
  fields are present and then reset. The first strictly newest record with the
  requested name and architecture is kept. The scan is a function (`Scan`,
  `Records`, `Resolve`). The script's loop is a method,
  `GetLatestPackageVersion`, proved equal to that function. `deb_examples.dfy`
  (module `DebExamples`) works through whole stanzas.
- **Architecture policy**. A package whose name contains `cassandra` or `dse`
  is looked up under `all`; every other package is looked up under `amd64`
  and `arm64`.
- **Debian artifact**. The download URL is the repository root, a '/', and
  the `Filename` field. The saved name is the base name with a final
  `_<hex>.deb` cut down to `.deb`.
- **RPM repository metadata** (`rpm.dfy`, module `RpmCatalog`). The `href`
  of the first primary `location` in `repomd.xml` is looked up, and the
  primary catalog URL is joined from it.
- **RPM resolver**. Every `x86_64` match is scanned, then every `noarch`
  match. A match replaces the running winner only when it is strictly newer.
  The winner's `href` is returned. The script raises on a candidate without
  a version and on a winner without a location; both are modelled as `Failure`
  results. The loops are methods (`GetLatestPackageVersion`, `ScanMatches`)
  proved equal to the function `LatestHref`.
- **RPM artifact**. The URL is `os.path.join(REPO_URL, href)`. The saved name
  drops the base name's first '-'-separated segment.

Both resolvers share one selection rule, `Latest.LatestIndex`: the first
strictly greatest candidate. The version ordering (`packaging.version` in the
scripts) is a parameter `less`, where `less(a, b)` reads "a is older than b".
The lemmas about the choice assume only that `less` is a strict weak order.
`Versions.NumericLess` is a dot-numeric instance, proved to be such an order.
`Text` holds splitting and joining on a separator. `Paths` holds
`os.path.basename` and `os.path.join`.

A blank line does not end a record: the script ignores it like any other
unrecognised line. Fields of a stanza that never completes stay in the
in-progress record until a later stanza completes it, so a version can carry
over into the next package's record.
`DebIndex.UnrecognisedLineChangesNothing`, `DebIndex.CurrentIsPending` and
`DebExamples.UnfinishedStanzaLeaks` state this behaviour.

## Model

| member | source | states |
|---|---|---|
| DebIndex.GetLatestPackageVersion | axonops_deb_packages_downloader.py:57-118 | The line loop returns exactly the resolution of the completed records: a result is one of those records, with the wanted name and architecture; None exactly when no completed record is wanted |
| DebIndex.FieldValue | axonops_deb_packages_downloader.py:63-66 | A recognised value is non-empty, free of line breaks, and the line is the key followed by it, with or without one final line break |
| DebIndex.FieldValueOf | axonops_deb_packages_downloader.py:77-95 | Conversely, every `Key: value` line, with or without its line break, yields its value |
| DebIndex.CurrentNeverComplete | axonops_deb_packages_downloader.py:98-107 | Between lines the in-progress record is never complete, because completion resets it at once |
| DebIndex.UnrecognisedLineChangesNothing | axonops_deb_packages_downloader.py:75-96 | A line that sets none of the four fields leaves the scan unchanged and does not reset the record |
| DebIndex.BlankLinesChangeNothing | axonops_deb_packages_downloader.py:75-96 | An empty or blank line changes nothing: stanza boundaries are not seen |
| DebIndex.CurrentIsPending | axonops_deb_packages_downloader.py:75-107 | The in-progress record holds, for each field, the latest value set since the last completion, whatever lines came between |
| DebIndex.CompletionEmitsPending | axonops_deb_packages_downloader.py:98-107 | A completing line emits exactly one record, made of the latest value of each field since the previous completion |
| DebIndex.ResolveAppend | axonops_deb_packages_downloader.py:98-104 | One more completed record replaces the best only if it has the wanted name and architecture and is strictly newer |
| DebIndex.ResolveFound | axonops_deb_packages_downloader.py:98-118 | The result is a completed record with the wanted name and architecture; None exactly when there is none |
| DebIndex.ResolveIsFirstNewest | axonops_deb_packages_downloader.py:99-104 | Under a lawful ordering the result is exactly the first of the newest wanted records: none is newer and every earlier one is strictly older |
| DebIndex.ResolveIgnoresOthers | axonops_deb_packages_downloader.py:99 | Inserting a record for another name or architecture anywhere does not change the result |
| DebIndex.ArchitecturesFor | axonops_deb_packages_downloader.py:41-45 | `all` exactly when the name contains `cassandra` or `dse`, otherwise `amd64` and `arm64` |
| DebIndex.ArchitecturesOfSomePackages | axonops_deb_packages_downloader.py:12-27 | The agent package uses both machine architectures; the Cassandra and DSE agents use `all` |
| DebIndex.HexRun | axonops_deb_packages_downloader.py:134 | The longest `[a-f0-9]` suffix: every character in it is a hex digit and the one before it is not |
| DebIndex.StripHashSegment | axonops_deb_packages_downloader.py:134 | The result is the name unchanged, or a shorter prefix of it followed by `.deb` |
| DebIndex.StripHashSegmentMeaning | axonops_deb_packages_downloader.py:134 | Wherever `_[a-f0-9]+\.deb` matches at the end, the name is cut there and `.deb` put back; a name with no match is unchanged |
| DebIndex.CleanDebFilenameMeaning | axonops_deb_packages_downloader.py:134 | On a file name the cleaning is exactly that substitution, a name already clean is a fixed point, and a final line break is kept |
| DebIndex.CleanStripsHashSegment | axonops_deb_packages_downloader.py:133-134 | `stem_<hex>.deb` is saved as `stem.deb` |
| DebIndex.CleanKeepsUnprefixedRun | axonops_deb_packages_downloader.py:134 | A hex run not preceded by '_' (as `d64` in `_amd64.deb`) is kept |
| DebIndex.CleaningIsNotIdempotent | axonops_deb_packages_downloader.py:134 | Two trailing hex segments lose one per cleaning, so cleaning twice differs from cleaning once |
| DebIndex.CleaningKeepsNameFlat | axonops_deb_packages_downloader.py:131-134 | Cleaning a base name introduces no '/' |
| DebIndex.LocateDeb | axonops_deb_packages_downloader.py:129-134 | The URL is the repository root, one '/', then the `Filename` field; the saved name is the base name of `Filename` after the hash-segment substitution, and holds no '/' |
| DebIndex.LocateHashedName | axonops_deb_packages_downloader.py:129-134 | A record `dir/stem_<hex>.deb` is fetched from `root/dir/stem_<hex>.deb` and saved as `stem.deb` |
| DebIndex.LocateUnprefixedRun | axonops_deb_packages_downloader.py:131-134 | A record whose name ends in a hex run not preceded by '_', as in `_amd64.deb`, is saved under its own base name |
| DebIndex.LocatePlainName | axonops_deb_packages_downloader.py:129-134 | A record `dir/name` whose name has no hash segment is fetched from `root/dir/name` and saved as `name` |
| DebExamples.HeaderSetsNameAndVersion | axonops_deb_packages_downloader.py:77-86 | Package and version lines on an empty record set exactly those two fields and emit nothing |
| DebExamples.TrailerCompletes | axonops_deb_packages_downloader.py:87-107 | Architecture and filename lines complete a name-and-version record, emit it and reset |
| DebExamples.StanzaCompletes | axonops_deb_packages_downloader.py:75-107 | A four-line stanza begun on an empty record emits exactly its own record and leaves the record empty |
| DebExamples.CutShortStanza | axonops_deb_packages_downloader.py:75-107 | A stanza cut off by a blank line after its version keeps its name and version in the record |
| DebExamples.CompletedByNextStanza | axonops_deb_packages_downloader.py:77-107 | The next package line renames that record, and its trailer completes it with the leftover version |
| DebExamples.UnfinishedStanzaLeaks | axonops_deb_packages_downloader.py:75-107 | The version of an unfinished stanza ends up in the record of the next package, whose own stanza has no version line |
| DebExamples.TwoStanzasRecords | axonops_deb_packages_downloader.py:75-107 | Two stanzas for the same package and architecture, separated by a blank line, give both records, in order |
| DebExamples.NewerStanzaIsChosen | axonops_deb_packages_downloader.py:97-110 | Of two stanzas for one package, the later one wins when its version is strictly newer |
| DebExamples.MinorReleaseIsNewer | axonops_deb_packages_downloader.py:102 | Under the dot-numeric ordering 1.2.0 is older than 1.3.0 |
| DebExamples.AgentReleaseIsChosen | axonops_deb_packages_downloader.py:75-110 | An index with `axon-agent` 1.2.0 then 1.3.0 for `amd64` resolves to the 1.3.0 record under any ordering where 1.3.0 is newer |
| DebExamples.AgentReleaseIsChosenNumerically | axonops_deb_packages_downloader.py:75-110 | The same index resolves to the 1.3.0 record under the dot-numeric ordering |
| DebExamples.AgentFileIsSavedAsIs | axonops_deb_packages_downloader.py:129-134 | The chosen `axon-agent_1.3.0_amd64.deb` is saved under that same name |
| Latest.LatestIndex | axonops_deb_packages_downloader.py:102-104 | The chosen position holds a candidate; there is none exactly when no position does |
| Latest.LatestIndexAppend | axonops_rpm_packages_downloader.py:69-71 | Step lemma, the definition unfolded once: a later candidate takes over only when strictly newer; a non-candidate changes nothing |
| Latest.LatestIsNewest | axonops_rpm_packages_downloader.py:69-71 | Under an irreflexive, transitive ordering no candidate is strictly newer than the chosen one |
| Latest.LatestIsFirst | axonops_deb_packages_downloader.py:102-104 | Under a strict weak order every candidate before the chosen one is strictly older: ties go to the first |
| Latest.LatestIndexCharacterised | axonops_rpm_packages_downloader.py:64-71 | The selection returns position k exactly when k is the first of the newest candidates |
| Versions.NumericLessIsStrictWeakOrder | axonops_rpm_packages_downloader.py:68-69 | The dot-numeric ordering is irreflexive, transitive and negatively transitive |
| Versions.LastComponentDecides | axonops_deb_packages_downloader.py:102 | Versions differing only in their last component compare by that component's number, both ways |
| Versions.ComponentsAreNumeric | axonops_deb_packages_downloader.py:101-102 | `v.9` is older than `v.10`, and not the reverse: components are numbers, not text |
| Versions.TrailingZeroIsEqual | axonops_deb_packages_downloader.py:102 | `v` and `v.0` are equal versions: neither is older |
| Versions.ExtraComponentIsNewer | axonops_deb_packages_downloader.py:102 | An extra non-zero component makes a version newer |
| Versions.EarlierComponentDecides | axonops_deb_packages_downloader.py:102 | A larger earlier component makes a version newer whatever equal component follows: `v.2.t` is older than `v.3.t` |
| Versions.KeyOfJoined | axonops_rpm_packages_downloader.py:68 | The key of dot-joined components is the list of their numbers |
| Text.IndexOf | axonops_rpm_packages_downloader.py:93 | The position of the first occurrence of a character |
| Text.SplitOn | axonops_rpm_packages_downloader.py:93 | `str.split` with one separator gives at least one part, and no part holds the separator |
| Text.JoinSplit | axonops_rpm_packages_downloader.py:93 | Joining the parts of a split with the same separator gives back the text |
| Text.SplitJoin | axonops_rpm_packages_downloader.py:93 | Splitting the join of separator-free parts gives back the parts |
| Text.SplitOnAppend | axonops_rpm_packages_downloader.py:93 | Appending a separator and a separator-free piece appends one part |
| Paths.Basename | axonops_rpm_packages_downloader.py:90 | `os.path.basename` is the '/'-free suffix after the last '/' |
| Paths.BasenameAfterSlash | axonops_deb_packages_downloader.py:131 | The base name of `dir/name` is `name` when `name` holds no '/' |
| RpmCatalog.FirstPrimaryFrom | axonops_rpm_packages_downloader.py:40 | The first `data` entry of type primary with a `location`, or none when no entry qualifies |
| RpmCatalog.PrimaryLocation | axonops_rpm_packages_downloader.py:40 | The `href` of the first primary location; fails exactly when there is no such location, or with a missing-attribute error when that first location has no `href` |
| RpmCatalog.PrimaryCatalogUrl | axonops_rpm_packages_downloader.py:40-44 | Succeeds exactly when the lookup does; a relative `href` is appended to the repository root |
| RpmCatalog.FindAllMatches | axonops_rpm_packages_downloader.py:65 | A package is found exactly when it is in the catalog with that exact name and architecture |
| RpmCatalog.FindAllArch | axonops_rpm_packages_downloader.py:65 | Every found package has the requested name and architecture |
| RpmCatalog.CandidatesOrder | axonops_rpm_packages_downloader.py:64-65 | The scan order is every `x86_64` match, then every `noarch` match |
| RpmCatalog.CandidatesAreExactMatches | axonops_rpm_packages_downloader.py:64-65 | The candidates are exactly the catalog's packages with that name and one of the two architectures |
| RpmCatalog.Winner | axonops_rpm_packages_downloader.py:66-71 | The running winner, when there is one, carries a version |
| RpmCatalog.WinnerIsLatestIndex | axonops_rpm_packages_downloader.py:64-71 | The running winner is the candidate at the position the shared selection rule picks |
| RpmCatalog.WinnerIsCandidate | axonops_rpm_packages_downloader.py:66-73 | The winner is a candidate; there is none exactly when no candidate has a version |
| RpmCatalog.WinnerAppend | axonops_rpm_packages_downloader.py:69-71 | Step lemma, the definition unfolded once: a versioned candidate takes over only when strictly newer than the current winner |
| RpmCatalog.ScanMatches | axonops_rpm_packages_downloader.py:66-71 | The inner loop reports whether every match has a version; if so, it carries the running winner across all of them |
| RpmCatalog.GetLatestPackageVersion | axonops_rpm_packages_downloader.py:59-79 | The loops return exactly the result the resolution function defines, failures included |
| RpmCatalog.MissingVersionFails | axonops_rpm_packages_downloader.py:67-68 | A match without a version makes the lookup fail |
| RpmCatalog.NotFoundIffNoCandidate | axonops_rpm_packages_downloader.py:73-75 | None exactly when no package has that name and an `x86_64` or `noarch` architecture |
| RpmCatalog.FailureCases | axonops_rpm_packages_downloader.py:67-78 | It fails on a missing version exactly when some candidate lacks one, on a missing location exactly when the winner lacks one, and never otherwise |
| RpmCatalog.FirstNewestIsLatestIndex | axonops_rpm_packages_downloader.py:64-71 | With every candidate versioned, the first of the newest is exactly what the selection picks |
| RpmCatalog.FoundIsFirstNewest | axonops_rpm_packages_downloader.py:64-79 | The returned `href` is that of the first of the newest candidates across both architectures, and the first of the newest is always what is returned |
| RpmCatalog.X86BeatsNoarchOnTies | axonops_rpm_packages_downloader.py:64-71 | A `noarch` winner is strictly newer than every `x86_64` build: on a tie `x86_64` wins |
| RpmCatalog.CleanRpmFilenameDropsFirstSegment | axonops_rpm_packages_downloader.py:93 | The saved name is what follows the first '-', or empty when there is none, and shorter for a non-empty name |
| RpmCatalog.CleanRpmFilenameTwice | axonops_rpm_packages_downloader.py:93 | Cleaning twice drops two segments: the cleaning is not idempotent |
| RpmCatalog.LocateRpm | axonops_rpm_packages_downloader.py:84-93 | A download happens exactly for a non-empty path; a relative path is fetched under the repository root; the saved name is the base name with its first '-' segment dropped, and holds no '/' |
| RpmCatalog.CleanPrefixedName | axonops_rpm_packages_downloader.py:93 | A name `prefix-rest` whose prefix holds no '-' is saved as `rest` |
| RpmCatalog.LocatePrefixedRpm | axonops_rpm_packages_downloader.py:86-93 | A relative path `dir/prefix-rest` is fetched from the repository root followed by that path and saved as `rest` |

## Left out

- Network access, files, gzip decompression and XML parsing are not modelled. A `Packages` file is a sequence of lines. `repomd.xml` is a sequence of `data` entries. The primary catalog is a sequence of `package` entries, each holding its `name`, `arch`, the `ver` of its version and the `href` of its location.
- PEP 440 version parsing (`packaging.version`) is not modelled. The ordering is a parameter, and an unparsable version, which raises in the scripts, is not represented.
- The fuzzy-match diagnostics (`difflib.get_close_matches` over `available_packages`) and all printed messages are left out. They do not affect any returned value.
- `download_file`, `download_packages_for_arch` with its failure path, the top-level loops over `PACKAGES` and the final clean-up are left out. They are I/O around the modelled functions.
- The package name is used verbatim in the XPath predicate. Quoting problems from a name containing `'` are not modelled.
- `readlines` newline translation is not modelled: lines end in `'\n'` as given.
- A `package` element with several `name` or `arch` children is not modelled; each entry holds one of each.
- DebIndex.LocateDeb takes the repository root as a parameter. The script always passes `https://packages.axonops.com/apt`, which is `DebIndex.AptRepoUrl`.
- Paths.Join: only the relative-path case is stated, in `RpmCatalog.PrimaryCatalogUrl` and `RpmCatalog.LocateRpm`. An absolute `href` replacing the root is computed but not stated.
