/**
 * JavaDetectionService: finds the installed Java runtimes and the JAVA_HOME
 * in effect. The machine it runs on (environment variables, filesystem,
 * path normalisation and the launcher probe) is an input, a Host.
 */
module JavaDetection {
  import opened Wrappers
  import opened Text
  import opened Distributions
  import opened VersionParsing
  import opened DisplayOrder

  /** What `Directory.GetParent(dir)?.FullName` gives for a PATH entry, or that it threw. */
  datatype ParentLookup = NoParent | Parent(fullName: string) | ParentThrows

  /**
   * The machine as the discovery sees it. `subDirs(root)` is what
   * Directory.EnumerateDirectories yields before it finishes or fails;
   * `fullPath` is Path.GetFullPath on a non-empty path; `probe(launcher)` is
   * the outcome of running `launcher -version`.
   */
  datatype Host = Host(
    machineJavaHome: Option<string>,
    userJavaHome: Option<string>,
    pathVariable: Option<string>,
    programFiles: string,
    programFilesX86: string,
    dirExists: string -> bool,
    fileExists: string -> bool,
    subDirs: string -> seq<string>,
    fullPath: string -> string,
    parentOf: string -> ParentLookup,
    probe: string -> Probe)

  /** The outcome of DiscoverDistributions: the ordered list, or the exception a blank JAVA_HOME causes. */
  datatype Discovery = Found(distributions: seq<JavaDistribution>) | EmptyActiveHome

  /** The JAVA_HOME in effect: the machine-scope value unless it is null or blank, else the user-scope one. */
  function GetActiveJavaHome(machine: Option<string>, user: Option<string>): (r: Option<string>)
    ensures !IsNullOrWhiteSpace(machine) ==> r == machine
    ensures IsNullOrWhiteSpace(machine) ==> r == user
    ensures IsNullOrWhiteSpace(r) <==> IsNullOrWhiteSpace(machine) && IsNullOrWhiteSpace(user)
  {
    if !IsNullOrWhiteSpace(machine) then machine else user
  }

  /** The install roots whose subdirectories are candidates, in the order they are scanned. */
  function CommonJavaRoots(h: Host): seq<string> {
    [ Combine(h.programFiles, "Java"),
      Combine(h.programFiles, "Eclipse Adoptium"),
      Combine(h.programFiles, "Microsoft"),
      Combine(h.programFiles, "Eclipse Foundation"),
      Combine(h.programFiles, "Amazon Corretto"),
      Combine(h.programFiles, "BellSoft"),
      Combine(h.programFiles, "Zulu"),
      Combine(h.programFiles, "Semeru"),
      Combine(h.programFiles, "jbr-17"),
      Combine(h.programFilesX86, "Java") ]
  }

  /** Path.PathSeparator on Windows. */
  const PathSeparator: char := ';'

  /** `<home>\bin\java.exe`. */
  function LauncherPath(home: string): (r: string)
    ensures home == "" ==> r == "bin\\java.exe"
    ensures home != "" && IsDirectorySeparator(home[|home| - 1]) ==> r == home + "bin\\java.exe"
    ensures home != "" && !IsDirectorySeparator(home[|home| - 1]) ==> r == home + "\\bin\\java.exe"
  {
    Combine(Combine(home, "bin"), "java.exe")
  }

  /** "Java {version}" when there is no vendor, "{vendor} {version}" otherwise. */
  function ComposeDisplayName(vendor: Option<string>, version: string): (r: string)
    ensures |r| > |version| && r[|r| - |version|..] == version && r[|r| - |version| - 1] == ' '
    ensures r[..|r| - |version| - 1] == if IsNullOrWhiteSpace(vendor) then "Java" else vendor.value
  {
    if IsNullOrWhiteSpace(vendor) then "Java " + version else vendor.value + " " + version
  }

  /** None of the vendor names the vendor chain produces is blank. */
  lemma VendorNamesNotBlank()
    ensures forall k | 0 <= k < |VendorRules| :: !IsBlank(VendorRules[k].vendor)
  {
    forall k | 0 <= k < |VendorRules| ensures !IsBlank(VendorRules[k].vendor) {
      assert !IsWhiteSpace(VendorRules[k].vendor[0]);
    }
  }

  /**
   * What a record built from a probe always satisfies: the display name is
   * composed from vendor and version, the vendor is "" or one of the known
   * vendor names, the version is the unknown sentinel or a non-empty
   * quote-free token, and the runtime name is made of name characters.
   */
  ghost predicate WellFormed(d: JavaDistribution) {
    && (d.vendor == "" ==> d.displayName == "Java " + d.version)
    && (d.vendor != "" ==>
          d.displayName == d.vendor + " " + d.version
          && exists k | 0 <= k < |VendorRules| :: d.vendor == VendorRules[k].vendor)
    && (d.version == UnknownVersion || (d.version != "" && '"' !in d.version))
    && (forall c | c in d.runtimeName :: IsNameChar(c))
  }

  /**
   * TryCreateDistribution: no record without `bin\java.exe`; otherwise a
   * record for `homePath` whose fields come from probing the launcher, and
   * a degraded one (unknown version, no vendor, no runtime name) when the
   * probe failed.
   */
  function TryCreateDistribution(h: Host, homePath: string): (r: Option<JavaDistribution>)
    ensures r.None? <==> !h.fileExists(LauncherPath(homePath))
    ensures r.Some? ==> r.value.homePath == homePath && !r.value.isActive && WellFormed(r.value)
    ensures r.Some? ==>
      var info := GetVersionInfo(h.probe(LauncherPath(homePath)));
      && r.value.version == info.version
      && r.value.vendor == info.vendor.GetOr("")
      && r.value.runtimeName == info.runtimeName.GetOr("")
    ensures r.Some? && h.probe(LauncherPath(homePath)).Failed? ==>
      r.value == JavaDistribution("Java " + UnknownVersion, UnknownVersion, "", homePath, false, "")
  {
    var binPath := LauncherPath(homePath);
    if !h.fileExists(binPath) then None
    else
      var info := GetVersionInfo(h.probe(binPath));
      VendorNamesNotBlank();
      Some(JavaDistribution(
        displayName := ComposeDisplayName(info.vendor, info.version),
        version := info.version,
        vendor := info.vendor.GetOr(""),
        homePath := homePath,
        isActive := false,
        runtimeName := info.runtimeName.GetOr("")))
  }

  /**
   * What a record says about the launcher's error text: the vendor is the
   * first matching rule's vendor, or "" exactly when no marker occurs; the
   * runtime name is the leftmost runtime-name capture, or "" when there is
   * none; the version is the leftmost version capture, or the unknown
   * sentinel when there is none.
   */
  lemma RecordFromLauncherOutput(h: Host, homePath: string, err: string)
    requires TryCreateDistribution(h, homePath).Some?
    requires h.probe(LauncherPath(homePath)) == Completed(err)
    ensures var d := TryCreateDistribution(h, homePath).value;
      && (d.vendor == "" <==> forall k | 0 <= k < |VendorRules| :: !ContainsIgnoreCase(err, VendorRules[k].marker))
      && (d.vendor != "" ==> exists k | 0 <= k < |VendorRules| ::
            && d.vendor == VendorRules[k].vendor
            && ContainsIgnoreCase(err, VendorRules[k].marker)
            && forall j | 0 <= j < k :: !ContainsIgnoreCase(err, VendorRules[j].marker))
      && (FindRuntimeName(err).None? ==> d.runtimeName == "")
      && (FindRuntimeName(err).Some? ==> d.runtimeName == FindRuntimeName(err).value.1)
      && (FindVersion(err).None? ==> d.version == UnknownVersion)
      && (FindVersion(err).Some? ==> d.version == FindVersion(err).value.1)
  {
    VendorNamesNotBlank();
    var vendor := DetectVendor(err);
    if vendor.Some? {
      var k :| 0 <= k < |VendorRules| && vendor.value == VendorRules[k].vendor;
      assert vendor.value != "";
    }
  }

  /** `full` is the normalised active home, compared ignoring case; never so when there is none. */
  predicate IsActiveHome(full: string, normalizedActive: Option<string>) {
    normalizedActive.Some? && EqualsIgnoreCase(full, normalizedActive.value)
  }

  /** The first test in TryAdd: the candidate is not blank and is an existing directory. */
  predicate Accepted(h: Host, c: string) {
    !IsBlank(c) && h.dirExists(c)
  }

  /**
   * The state TryAdd works on: the set of full paths seen so far (kept as
   * their ignore-case keys) and the list of records built so far.
   */
  datatype Scan = Scan(seen: set<string>, list: seq<JavaDistribution>)

  /**
   * One TryAdd(homePath). A blank or missing directory changes nothing; a
   * full path already seen changes nothing; otherwise the path is recorded
   * as seen, and a record is appended exactly when it has a launcher.
   */
  function Offer(h: Host, normalizedActive: Option<string>, st: Scan, homePath: string): (r: Scan)
    ensures !Accepted(h, homePath) ==> r == st
    ensures Accepted(h, homePath) && Fold(h.fullPath(homePath)) in st.seen ==> r == st
    ensures Accepted(h, homePath) ==> r.seen == st.seen + {Fold(h.fullPath(homePath))}
    ensures r.list == st.list || (
      && Accepted(h, homePath)
      && Fold(h.fullPath(homePath)) !in st.seen
      && h.fileExists(LauncherPath(h.fullPath(homePath)))
      && |r.list| == |st.list| + 1 && r.list[..|st.list|] == st.list
      && r.list[|st.list|].homePath == h.fullPath(homePath))
  {
    if !Accepted(h, homePath) then st
    else
      var full := h.fullPath(homePath);
      if Fold(full) in st.seen then st
      else
        var seen := st.seen + {Fold(full)};
        match TryCreateDistribution(h, full)
        case None => Scan(seen, st.list)
        case Some(d) =>
          assert (st.list + [d.(isActive := IsActiveHome(full, normalizedActive))])[..|st.list|] == st.list;
          Scan(seen, st.list + [d.(isActive := IsActiveHome(full, normalizedActive))])
  }

  /** TryAdd applied to each candidate in turn. */
  function Collect(h: Host, normalizedActive: Option<string>, st: Scan, cs: seq<string>): Scan
    decreases |cs|
  {
    if cs == [] then st else Collect(h, normalizedActive, Offer(h, normalizedActive, st, cs[0]), cs[1..])
  }

  /** The JAVA_HOME candidate, when it is set and not blank. */
  function HomeCandidates(activeHome: Option<string>): seq<string> {
    if IsNullOrWhiteSpace(activeHome) then [] else [activeHome.value]
  }

  /** The subdirectories of each existing root, root by root. */
  function RootCandidates(h: Host, roots: seq<string>): seq<string> {
    if roots == [] then []
    else (if h.dirExists(roots[0]) then h.subDirs(roots[0]) else []) + RootCandidates(h, roots[1..])
  }

  /** The PATH entries: PATH (or "") split on ';' without the empty pieces. */
  function PathEntries(h: Host): (r: seq<string>)
    ensures forall e | e in r :: e != "" && PathSeparator !in e
    ensures h.pathVariable.None? ==> r == []
  {
    var pieces := Split(h.pathVariable.GetOr(""), PathSeparator);
    assert forall e | e in pieces :: PathSeparator !in e;
    RemoveEmpty(pieces)
  }

  /**
   * A PATH assembled from `dirs` with ';' between them gives back exactly the
   * non-empty ones, in the same order and with their repetitions.
   */
  lemma PathEntriesInOrder(h: Host, dirs: seq<string>)
    requires |dirs| >= 1 && forall i | 0 <= i < |dirs| :: PathSeparator !in dirs[i]
    requires h.pathVariable == Some(Join(dirs, PathSeparator))
    ensures PathEntries(h) == RemoveEmpty(dirs)
  {
    SplitJoin(dirs, PathSeparator);
  }

  /**
   * The parent of each PATH entry that holds java.exe, in order; a throwing
   * parent lookup abandons the rest of PATH.
   */
  function PathCandidates(h: Host, dirs: seq<string>): seq<string> {
    if dirs == [] then []
    else if !h.fileExists(Combine(Trim(dirs[0]), "java.exe")) then PathCandidates(h, dirs[1..])
    else
      match h.parentOf(dirs[0])
      case ParentThrows => []
      case NoParent => PathCandidates(h, dirs[1..])
      case Parent(p) => (if p == "" then [] else [p]) + PathCandidates(h, dirs[1..])
  }

  /** Every candidate TryAdd is called with, in call order. */
  function Candidates(h: Host, activeHome: Option<string>): seq<string> {
    HomeCandidates(activeHome) + RootCandidates(h, CommonJavaRoots(h)) + PathCandidates(h, PathEntries(h))
  }

  /** JAVA_HOME trimmed and made a full path; only defined when it is not blank. */
  function NormalizedActive(h: Host, activeHome: Option<string>): Option<string>
    requires activeHome.Some? ==> Trim(activeHome.value) != ""
  {
    if activeHome.Some? then Some(h.fullPath(Trim(activeHome.value))) else None
  }

  /** The records in discovery order, before sorting. */
  function Collected(h: Host, activeHome: Option<string>): seq<JavaDistribution>
    requires activeHome.Some? ==> Trim(activeHome.value) != ""
  {
    Collect(h, NormalizedActive(h, activeHome), Scan({}, []), Candidates(h, activeHome)).list
  }

  /** The whole of DiscoverDistributions as a value. */
  function Discover(h: Host, le: (string, string) -> bool): Discovery {
    var activeHome := GetActiveJavaHome(h.machineJavaHome, h.userJavaHome);
    if activeHome.Some? && Trim(activeHome.value) == "" then EmptyActiveHome
    else Found(SortForDisplay(le, Collected(h, activeHome)))
  }

  /**
   * The local state of DiscoverDistributions that its local function TryAdd
   * updates: the HashSet of full paths (ordinal ignore-case, kept here as
   * ignore-case keys) and the list of records.
   */
  class Collector {
    const host: Host
    const normalizedActive: Option<string>
    var seen: set<string>
    var list: seq<JavaDistribution>

    function State(): Scan
      reads this
    {
      Scan(seen, list)
    }

    constructor (host: Host, normalizedActive: Option<string>)
      ensures this.host == host && this.normalizedActive == normalizedActive
      ensures State() == Scan({}, [])
    {
      this.host := host;
      this.normalizedActive := normalizedActive;
      seen := {};
      list := [];
    }

    /** TryAdd(homePath). */
    method TryAdd(homePath: string)
      modifies this
      ensures State() == Offer(host, normalizedActive, old(State()), homePath)
    {
      if IsBlank(homePath) || !host.dirExists(homePath) {
        return;
      }
      var full := host.fullPath(homePath);
      var added := Fold(full) !in seen;
      seen := seen + {Fold(full)};
      if !added {
        return;
      }
      var dist := TryCreateDistribution(host, full);
      if dist.Some? {
        list := list + [dist.value.(isActive := IsActiveHome(full, normalizedActive))];
      }
    }

    /** The scan of the install roots: the subdirectories of each existing root, offered in turn. */
    method TryAddRootSubdirectories(roots: seq<string>)
      modifies this
      ensures State() == Collect(host, normalizedActive, old(State()), RootCandidates(host, roots))
    {
      ghost var final := Collect(host, normalizedActive, State(), RootCandidates(host, roots));
      assert roots[0..] == roots;
      for i := 0 to |roots|
        invariant Collect(host, normalizedActive, State(), RootCandidates(host, roots[i..])) == final
      {
        var root := roots[i];
        RootCandidatesStep(host, roots, i);
        if !host.dirExists(root) {
          assert RootCandidates(host, roots[i..]) == RootCandidates(host, roots[i + 1..]);
          continue;
        }
        var subs := host.subDirs(root);
        ghost var rest := RootCandidates(host, roots[i + 1..]);
        assert subs[0..] == subs;
        for j := 0 to |subs|
          invariant Collect(host, normalizedActive, State(), subs[j..] + rest) == final
        {
          CollectStep(host, normalizedActive, State(), subs, j, rest);
          TryAdd(subs[j]);
        }
        assert subs[|subs|..] + rest == rest;
      }
    }

    /** The scan of PATH: the parent of each entry holding java.exe, until a parent lookup throws. */
    method TryAddPathParents(pathDirs: seq<string>)
      modifies this
      ensures State() == Collect(host, normalizedActive, old(State()), PathCandidates(host, pathDirs))
    {
      ghost var final := Collect(host, normalizedActive, State(), PathCandidates(host, pathDirs));
      var k := 0;
      assert pathDirs[k..] == pathDirs;
      while k < |pathDirs|
        invariant k <= |pathDirs|
        invariant Collect(host, normalizedActive, State(), PathCandidates(host, pathDirs[k..])) == final
      {
        var dir := pathDirs[k];
        var javaExe := Combine(Trim(dir), "java.exe");
        if host.fileExists(javaExe) {
          match host.parentOf(dir)
          case ParentThrows =>
            PathEntryStops(host, pathDirs, k);
            break;
          case NoParent =>
            PathEntrySkipped(host, pathDirs, k);
          case Parent(candidateHome) =>
            if candidateHome != "" {
              PathEntryOffered(host, normalizedActive, State(), pathDirs, k, candidateHome);
              TryAdd(candidateHome);
            } else {
              PathEntrySkipped(host, pathDirs, k);
            }
        } else {
          PathEntrySkipped(host, pathDirs, k);
        }
        k := k + 1;
      }
    }
  }

  /** Offering `xs + ys` is offering `xs`, then `ys`. */
  lemma {:induction false} CollectAppend(h: Host, na: Option<string>, st: Scan, xs: seq<string>, ys: seq<string>)
    ensures Collect(h, na, st, xs + ys) == Collect(h, na, Collect(h, na, st, xs), ys)
    decreases |xs|
  {
    if xs == [] {
      assert xs + ys == ys;
    } else {
      assert (xs + ys)[0] == xs[0];
      assert (xs + ys)[1..] == xs[1..] + ys;
      CollectAppend(h, na, Offer(h, na, st, xs[0]), xs[1..], ys);
    }
  }

  /** Offering the candidates of `xs[j..]` and then `rest`: one TryAdd, then the others. */
  lemma CollectStep(h: Host, na: Option<string>, st: Scan, xs: seq<string>, j: nat, rest: seq<string>)
    requires j < |xs|
    ensures Collect(h, na, st, xs[j..] + rest) == Collect(h, na, Offer(h, na, st, xs[j]), xs[j + 1..] + rest)
  {
    assert (xs[j..] + rest)[0] == xs[j];
    assert (xs[j..] + rest)[1..] == xs[j + 1..] + rest;
  }

  /** Offering all candidates: JAVA_HOME (when set and not blank), then the root subdirectories, then the PATH parents. */
  lemma CollectCandidates(h: Host, na: Option<string>, st: Scan, activeHome: Option<string>)
    ensures Collect(h, na, st, Candidates(h, activeHome))
         == Collect(h, na,
              Collect(h, na,
                if IsNullOrWhiteSpace(activeHome) then st else Offer(h, na, st, activeHome.value),
                RootCandidates(h, CommonJavaRoots(h))),
              PathCandidates(h, PathEntries(h)))
  {
    var home := HomeCandidates(activeHome);
    var roots := RootCandidates(h, CommonJavaRoots(h));
    var paths := PathCandidates(h, PathEntries(h));
    assert Candidates(h, activeHome) == home + (roots + paths);
    CollectAppend(h, na, st, home, roots + paths);
    if !IsNullOrWhiteSpace(activeHome) {
      assert home[1..] == [];
    }
    CollectAppend(h, na, Collect(h, na, st, home), roots, paths);
  }

  /** The candidates of the roots from the i-th on: those of the i-th root, then the rest. */
  lemma RootCandidatesStep(h: Host, roots: seq<string>, i: nat)
    requires i < |roots|
    ensures RootCandidates(h, roots[i..])
         == (if h.dirExists(roots[i]) then h.subDirs(roots[i]) else []) + RootCandidates(h, roots[i + 1..])
  {
    assert roots[i..][1..] == roots[i + 1..];
  }

  /** A PATH entry without java.exe, or whose parent is missing or empty, adds no candidate. */
  lemma PathEntrySkipped(h: Host, dirs: seq<string>, k: nat)
    requires k < |dirs|
    requires h.fileExists(Combine(Trim(dirs[k]), "java.exe")) ==>
      h.parentOf(dirs[k]) == NoParent || h.parentOf(dirs[k]) == Parent("")
    ensures PathCandidates(h, dirs[k..]) == PathCandidates(h, dirs[k + 1..])
  {
    assert dirs[k..][0] == dirs[k];
    assert dirs[k..][1..] == dirs[k + 1..];
  }

  /** A PATH entry with java.exe whose parent lookup throws ends the PATH candidates. */
  lemma PathEntryStops(h: Host, dirs: seq<string>, k: nat)
    requires k < |dirs|
    requires h.fileExists(Combine(Trim(dirs[k]), "java.exe")) && h.parentOf(dirs[k]) == ParentThrows
    ensures PathCandidates(h, dirs[k..]) == []
  {
    assert dirs[k..][0] == dirs[k];
  }

  /** A PATH entry with java.exe and a non-empty parent offers that parent, then the rest. */
  lemma PathEntryOffered(h: Host, na: Option<string>, st: Scan, dirs: seq<string>, k: nat, p: string)
    requires k < |dirs|
    requires h.fileExists(Combine(Trim(dirs[k]), "java.exe")) && h.parentOf(dirs[k]) == Parent(p) && p != ""
    ensures Collect(h, na, st, PathCandidates(h, dirs[k..]))
         == Collect(h, na, Offer(h, na, st, p), PathCandidates(h, dirs[k + 1..]))
  {
    assert dirs[k..][0] == dirs[k];
    assert dirs[k..][1..] == dirs[k + 1..];
    assert PathCandidates(h, dirs[k..]) == [p] + PathCandidates(h, dirs[k + 1..]);
    CollectStep(h, na, st, [p], 0, PathCandidates(h, dirs[k + 1..]));
    assert [p][0..] == [p] && [p][1..] == [];
  }

  /**
   * DiscoverDistributions: offers JAVA_HOME, the subdirectories of the
   * install roots and the parents of the PATH entries holding java.exe to
   * TryAdd, then sorts what was collected for display.
   */
  method DiscoverDistributions(h: Host, le: (string, string) -> bool) returns (r: Discovery)
    ensures r == Discover(h, le)
  {
    var activeHome := GetActiveJavaHome(h.machineJavaHome, h.userJavaHome);
    if activeHome.Some? && Trim(activeHome.value) == "" {
      // Path.GetFullPath("") throws out of the discovery
      return EmptyActiveHome;
    }
    var normalizedActive := if activeHome.Some? then Some(h.fullPath(Trim(activeHome.value))) else None;
    var c := new Collector(h, normalizedActive);
    CollectCandidates(h, normalizedActive, c.State(), activeHome);
    // 1. JAVA_HOME
    if !IsNullOrWhiteSpace(activeHome) {
      c.TryAdd(activeHome.value);
    }
    // 2. the subdirectories of the install roots
    c.TryAddRootSubdirectories(CommonJavaRoots(h));
    // 3. the parents of the PATH entries that hold java.exe
    c.TryAddPathParents(PathEntries(h));
    r := Found(SortForDisplay(le, c.list));
  }
}
