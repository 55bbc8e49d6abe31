# Java runtime discovery, verified model

A Dafny model of the Java-runtime discovery in QuickKit's
`JavaDetectionService`. The service finds the JAVA_HOME in effect and lists
the Java installations on a Windows machine.

Candidate home directories come from three sources, in this order:
- JAVA_HOME;
- the subdirectories of ten well-known install roots under Program Files;
- the parent of every PATH entry that holds `java.exe`.

The service then works on the candidates as follows:
1. It drops blank and non-existent paths.
2. It deduplicates full paths, ignoring case.
3. It probes `<home>\bin\java.exe -version` for the survivors and parses the
   version, vendor and runtime name out of the launcher's error stream.
4. It marks the entry that is the normalised JAVA_HOME as active.
5. It sorts active entries first, then by display name.

The machine is an input, the `Host` datatype. It holds:
- the two JAVA_HOME scopes and PATH;
- the two program-files folders;
- `Directory.Exists`, `File.Exists` and the directory enumeration;
- `Path.GetFullPath` and `Directory.GetParent`;
- the launcher probe.

Modules:
- `Text` covers the .NET string helpers the service relies on: `char.IsWhiteSpace`, `Trim`, ordinal ignore-case comparison and `IndexOf`, `Split` with `RemoveEmptyEntries`, and `Path.Combine`.
- `Distributions` is the `JavaDistribution` record (`Models/JavaDistribution.cs:6-25`), as a datatype.
- `VersionParsing` covers the two regexes, the vendor chain and `GetVersionInfo`. Its companion `VersionParsingFacts` holds the lemmas about them.
- `DisplayOrder` is the `OrderByDescending(IsActive).ThenBy(DisplayName)` sort, as a stable insertion sort.
- `JavaDetection` covers `GetActiveJavaHome` and `TryCreateDistribution`. It also holds the `Collector` class, whose fields are the `HashSet` and `List` that the local function `TryAdd` mutates, and the imperative `DiscoverDistributions` method.

`DiscoverDistributions` is proved equal to the functional specification `Discover`. In `Discover`, TryAdd is the step function `Offer`, folded over the candidate sequence by `Collect`. `DiscoveryFacts` proves what the result promises.

Behaviour of the code worth noting, which the model keeps:
- **Timeout.** The return value of `WaitForExit(3000)` is ignored. A launcher that outlives the wait still has its already-read error text parsed. The timeout does not produce a degraded record.
- **Missing version.** When no version is found, the vendor and runtime name are still taken from the text. They are not emptied.
- **Sentinel.** The unknown-version string is "未知".
- **Blank user-scope JAVA_HOME.** Suppose the user-scope JAVA_HOME is whitespace only and the machine-scope one is unset or blank. Then `Path.GetFullPath("")` throws out of `DiscoverDistributions`. The model returns this as the outcome `EmptyActiveHome`; it does not exclude it by a precondition.

## Model

| member | source | states |
|---|---|---|
| Text.Trim | Services/JavaDetectionService.cs:46 | the result is the slice of the input that starts where its leading whitespace ends and leaves a blank right margin, it has no whitespace at either end, and it is empty exactly when the input is blank |
| Text.IndexOfIgnoreCase | Services/JavaDetectionService.cs:154-162 | the index is non-negative exactly when the marker occurs ignoring case, and it is the leftmost occurrence |
| Text.Split | Services/JavaDetectionService.cs:89-90 | at least one piece, none containing the separator, and joining the pieces with it gives back the input |
| Text.RemoveEmpty | Services/JavaDetectionService.cs:90 | keeps exactly the non-empty pieces, never adding one |
| Text.RemoveEmptySingle | Services/JavaDetectionService.cs:90 | one piece is kept exactly when it is non-empty |
| Text.RemoveEmptyAppend | Services/JavaDetectionService.cs:90 | the kept pieces of a concatenation are those of each part, in order; with the one-piece case this fixes order and repetitions |
| Text.SplitJoin | Services/JavaDetectionService.cs:89-90 | separator-free pieces joined by the separator split back into exactly those pieces |
| Text.Combine | Services/JavaDetectionService.cs:111 | an empty second part gives the first; an empty first part or a rooted second part gives the second; otherwise the parts are concatenated, with one `\` inserted only when neither has a separator at the join |
| VersionParsing.QuotedAfter | Services/JavaDetectionService.cs:150 | a capture is a non-empty quote-free token that stands, after a whitespace run and an opening quote, right before a closing quote |
| VersionParsing.VersionPatternAt | Services/JavaDetectionService.cs:150 | a match at a position is `version` or `openjdk version` there, ignoring case, followed by whitespace and the quoted token it captures |
| VersionParsing.RuntimeNameAt | Services/JavaDetectionService.cs:165 | a match at a position captures a non-empty run of `[\w-]` characters |
| VersionParsing.Leftmost | Services/JavaDetectionService.cs:150 | the regex scan returns the leftmost start position where the pattern matches, with its capture; no position before it matches |
| VersionParsing.FirstVendorRule | Services/JavaDetectionService.cs:153-162 | the chosen rule's marker occurs in the text ignoring case, and no earlier rule's marker does; none is chosen only when no marker occurs |
| VersionParsing.DetectVendor | Services/JavaDetectionService.cs:153-162 | no vendor exactly when no marker occurs ignoring case; otherwise the vendor of a rule whose marker occurs and no earlier rule's marker does |
| VersionParsing.GetVersionInfo | Services/JavaDetectionService.cs:130-175 | a failed probe gives ("未知", null, null); for completed output the version is the leftmost version capture, else "未知", the vendor is the first-hit vendor and the runtime name is the leftmost runtime-name capture, a non-empty word of `[\w-]` characters |
| VersionParsingFacts.QuotedAfterIntro | Services/JavaDetectionService.cs:150 | conversely, whitespace, a quote, a non-empty quote-free token and a closing quote are matched, capturing that token |
| VersionParsingFacts.VersionPatternIntro | Services/JavaDetectionService.cs:150 | `version` followed by whitespace and a quoted token is a match capturing the token |
| VersionParsingFacts.OpenJdkPatternIntro | Services/JavaDetectionService.cs:150 | `openjdk version` followed by whitespace and a quoted token is a match capturing the token |
| VersionParsingFacts.OpenJdkBannerVersion | Services/JavaDetectionService.cs:149-151 | the banner `openjdk version "21.0.1" 2023-10-17` yields the version `21.0.1` |
| VersionParsingFacts.VersionAlternativeRedundant | Services/JavaDetectionService.cs:150 | the `openjdk version` alternative never changes the captured version: it equals the leftmost capture of `version\s+"([^"]+)"` alone |
| VersionParsingFacts.RuntimeNameIsWholeWord | Services/JavaDetectionService.cs:164-167 | the runtime name is a slice of the text with no name character immediately before or after it |
| VersionParsingFacts.RuntimeNameShape | Services/JavaDetectionService.cs:165 | a runtime-name match is the whole maximal run of name characters at its position |
| VersionParsingFacts.RuntimeNameFollowedByVersion | Services/JavaDetectionService.cs:165 | a runtime-name match is followed by whitespace and then "version", ignoring case |
| VersionParsingFacts.VendorNamesDistinct | Services/JavaDetectionService.cs:154-162 | no two rules of the chain map to the same vendor name |
| VersionParsingFacts.VendorPrecedence | Services/JavaDetectionService.cs:153-162 | when the markers of two rules both occur, a vendor is found and it is never the later rule's |
| DisplayOrder.Insert | Services/JavaDetectionService.cs:106 | inserting adds exactly the one entry |
| DisplayOrder.SortForDisplay | Services/JavaDetectionService.cs:106 | the sorted list is a permutation of the collected list |
| DisplayOrder.BeforeIsTotalPreorder | Services/JavaDetectionService.cs:106 | "active first, then by name" is total and transitive when the name comparer is |
| DisplayOrder.SortIsSorted | Services/JavaDetectionService.cs:106 | active entries come before inactive ones, and display names ascend within each group |
| DisplayOrder.SortIsStable | Services/JavaDetectionService.cs:106 | entries with equal sort keys keep their relative discovery order |
| DisplayOrder.SortKeepsHomesDistinct | Services/JavaDetectionService.cs:106 | sorting keeps home paths distinct ignoring case |
| JavaDetection.GetActiveJavaHome | Services/JavaDetectionService.cs:33-38 | the machine value when it is not null or blank, else the user value unchanged; the result is null or blank exactly when both are |
| JavaDetection.LauncherPath | Services/JavaDetectionService.cs:111 | the launcher path is the home path followed by `\bin\java.exe`, without the first `\` when the home already ends in a separator, and `bin\java.exe` for an empty home |
| JavaDetection.ComposeDisplayName | Services/JavaDetectionService.cs:116-118 | the name is "Java" or the vendor, then a space, then the version; "Java" exactly when the vendor is null or blank |
| JavaDetection.TryCreateDistribution | Services/JavaDetectionService.cs:109-128 | no record exactly when `bin\java.exe` is missing; otherwise an inactive, well-formed record for the home path whose fields come from the probe, and the degraded "Java 未知" record when the probe failed |
| JavaDetection.RecordFromLauncherOutput | Services/JavaDetectionService.cs:115-126 | a record's vendor is "" exactly when no marker occurs and otherwise the first matching rule's vendor; its runtime name and version are the leftmost captures, or "" and "未知" when there are none |
| JavaDetection.Offer | Services/JavaDetectionService.cs:50-64 | a blank or missing directory changes nothing; a full path already seen changes nothing; otherwise the path is recorded as seen; the list grows by one entry for that full path only when its launcher exists |
| JavaDetection.PathEntries | Services/JavaDetectionService.cs:89-90 | the PATH entries are non-empty and contain no `;`, and there are none when PATH is unset |
| JavaDetection.PathEntriesInOrder | Services/JavaDetectionService.cs:89-90 | a PATH assembled from directories with `;` between them gives back exactly the non-empty ones, in order and with repetitions |
| JavaDetection.Collector.constructor | Services/JavaDetectionService.cs:47-48 | the seen set and the list start empty |
| JavaDetection.Collector.TryAdd | Services/JavaDetectionService.cs:50-64 | the new seen set and list are exactly the `Offer` step applied to the old ones |
| JavaDetection.Collector.TryAddRootSubdirectories | Services/JavaDetectionService.cs:70-84 | the state after the root scan is the old state with every subdirectory of every existing root offered in order |
| JavaDetection.Collector.TryAddPathParents | Services/JavaDetectionService.cs:86-104 | the state after the PATH scan is the old state with the non-empty parent of every entry holding `java.exe` offered in order, stopping at the first parent lookup that throws |
| JavaDetection.PathEntryStops | Services/JavaDetectionService.cs:87-104 | a throwing parent lookup abandons the remaining PATH entries |
| JavaDetection.CollectAppend | Services/JavaDetectionService.cs:66-104 | offering two candidate sequences one after the other is offering their concatenation |
| JavaDetection.DiscoverDistributions | Services/JavaDetectionService.cs:43-107 | the result is exactly `Discover`: the error outcome for a blank active home, else the sorted fold of `Offer` over JAVA_HOME, root subdirectories and PATH parents |
| DiscoveryFacts.OfferKeepsInvariant | Services/JavaDetectionService.cs:50-64 | one TryAdd keeps listed homes in the seen set, listed entries probed and correctly flagged, and homes distinct |
| DiscoveryFacts.CollectKeepsInvariant | Services/JavaDetectionService.cs:50-104 | any sequence of TryAdd calls keeps that invariant |
| DiscoveryFacts.CollectExtends | Services/JavaDetectionService.cs:55-62 | TryAdd only adds: the seen set grows and the list is extended at its end |
| DiscoveryFacts.CollectOrigin | Services/JavaDetectionService.cs:52-62 | every added entry's home is the full path of an offered candidate that is a non-blank existing directory |
| DiscoveryFacts.CollectCovers | Services/JavaDetectionService.cs:52-56 | every offered non-blank existing directory ends up in the seen set, listed or not, so later duplicates are skipped |
| DiscoveryFacts.CollectFindsFirst | Services/JavaDetectionService.cs:54-62 | the first offered candidate with a given full path, ignoring case, is listed when its launcher exists |
| DiscoveryFacts.AtMostOneActive | Services/JavaDetectionService.cs:46-61 | with distinct homes and correct flags, at most one entry is active, and none is when there is no active home |
| DiscoveryFacts.DiscoverFailsOnlyOnBlankHome | Services/JavaDetectionService.cs:33-46 | discovery fails exactly when the machine value is null or blank and the user value is present but blank |
| DiscoveryFacts.DiscoverEntries | Services/JavaDetectionService.cs:43-128 | every listed entry has a launcher, is the probed record of the full path of an accepted candidate, is active exactly when that path equals the trimmed, normalised JAVA_HOME ignoring case, and no two homes are equal ignoring case |
| DiscoveryFacts.DiscoverFindsFirst | Services/JavaDetectionService.cs:50-104 | nothing is missed: the first accepted candidate with a given full path is listed whenever its launcher exists |
| DiscoveryFacts.DiscoverOrder | Services/JavaDetectionService.cs:106 | the result is in display order, is a permutation of the collected list, and keeps ties in discovery order |
| DiscoveryFacts.DiscoverOneActive | Services/JavaDetectionService.cs:46-61 | at most one entry is active, and none is when no JAVA_HOME is set |
| DiscoveryFacts.DiscoverActiveFirst | Services/JavaDetectionService.cs:106 | under a total preorder on names, an active entry is the first of the sorted list |
| DiscoveryFacts.ActiveHomeListedFirst | Services/JavaDetectionService.cs:45-68 | a JAVA_HOME naming an existing installation with a launcher is listed first and active, given that its full path is the same with and without trimming |

## Left out

- **Process launching.** `Process.Start`, `ReadToEnd` and `WaitForExit` are the `Host.probe` input: either a failure, which covers a start that returned null or threw, or the error-stream text. The timeout, the possibly orphaned child process and the standard output are not modelled.
- **Filesystem and environment.** The filesystem, environment variables and special folders are inputs. `Directory.Exists`, `File.Exists`, `EnumerateDirectories`, `GetFullPath` and `GetParent` are uninterpreted functions of the `Host`.
- **Failed directory enumeration.** A root whose enumeration fails partway is modelled by `subDirs` delivering only the directories seen before the failure.
- **GetFullPath failures.** `fullPath` is total, so only the blank-JAVA_HOME failure on line 46 is modelled. In the source, a `GetFullPath` that throws for other reasons (invalid characters, a path that is too long) escapes `DiscoverDistributions` when it happens on line 46 or inside the TryAdd of line 68. Inside the root loop it abandons the rest of that root, and inside the PATH loop the rest of PATH. The model does not capture these outcomes.
- **Case-insensitive comparison.** The ordinal ignore-case comparison, `IndexOf` with `OrdinalIgnoreCase` and regex `IgnoreCase` fold ASCII letters only. `\w` is taken as ASCII letters, digits and `_`. Unicode case mapping and Unicode word characters are not modelled.
- **Regex engine.** Only the two fixed patterns are modelled, as match functions at each start position plus a leftmost scan. There is no general .NET regex semantics.
- **Display-name comparer.** The culture-sensitive comparer of `ThenBy(DisplayName)` is an abstract total preorder parameter. `LINQ` ordering is modelled as a stable insertion sort, which gives the same stable order.
- **JavaDistribution mutability.** `JavaDistribution` is a mutable class in the source. Its only property set after construction, `IsActive`, is set before the object is shared, so the model uses a datatype and a field update.
- **Out of scope.** `DeviceInfoService` (WMI queries and floating-point size formatting), the device-info model and the UI pages, window and converters are not part of this model.
- JavaDetection.CommonJavaRoots: carries no contract; the table of ten roots is used as written.
