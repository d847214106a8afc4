# Baseline manifest and drift detection, modelled in Dafny

This project models the core of a progressive-linting tool. The tool freezes the
current lint state of a codebase as a *baseline manifest*. It then detects when
that baseline has drifted from the live project and can *auto-heal* it by writing
a fresh one. Three source files make up the core, and each has its own module:

- `directory_discovery.dfy` (module `DirectoryDiscovery`) models
  `lib/directory-discovery.js`. It holds the fixed test/scratch name patterns and
  `isTestDir`. It also holds the catalogue of production directories under a
  root (`discoverDirs` and its frontend and backend views) and the two staged-file
  partitioners (`getChangedDirs`, `getChangedFiles`).
- `manifest_manager.dfy` (module `ManifestManager`) models
  `lib/manifest-manager.js`: the manifest record, the configuration fingerprint
  with its `"unknown"` sentinel, the age in whole days, and a store class whose
  methods read and write whole records at a path.
- `drift_detector.dfy` (module `DriftDetector`) models `lib/drift-detector.js`:
  directory, configuration and time drift, the ordered detail lines, the text
  report, and auto-heal.

Three helper modules stand for JavaScript built-ins the core relies on:
`wrappers.dfy` (`Option` for `null`/`undefined`, `Result` for a thrown error),
`text.dfy` (`startsWith`, `endsWith`, case-insensitive search for a fixed
fragment, `split`, `join`, number rendering) and `ordering.dfy` (`filter`, the
default string `sort()`, and duplicate-freedom).

How the environment is represented:

- The directory catalogue reads a snapshot `map<path, Node>`. A node is a file
  or a directory with its entries, and a path absent from the map does not exist.
- The manifest store is a class `ManifestStore` with a `files: map<path, Content>`
  field. `Content` is either a manifest record or text that does not parse as one.
  JSON printing and parsing are therefore the identity on records.
- The content hash is the store's constant `digest: Content -> string`, an
  opaque function of content.
- Timestamps are integer milliseconds. The current time `now` is a parameter.
  Dafny's `/` by a positive divisor rounds down, as `Math.floor` does.
- The staged-file query arrives as `Option<seq<string>>`: `None` when
  `git diff` fails, otherwise the lines of its trimmed output (`Some([])` when it
  printed nothing).
- Caller-supplied exclusion regular expressions are one predicate
  `extra: string -> bool`. Only the fixed patterns get concrete definitions.

Three behaviours are modelled exactly as the code has them, although a reader
might expect otherwise:

- `addedDirs` and `removedDirs` keep the order of their input lists and are not
  sorted (`lib/drift-detector.js:23-24`), so the detail lines list the
  directories in that order, not alphabetically.
- `createManifest` stores the directory list as given, neither sorted nor
  deduplicated. `total_directories` is the list's length, which is the number of
  distinct directories only when the list has no repeats
  (`lib/manifest-manager.js:28-29`).
- `formatDriftReport` ignores `hasViolationDrift` (`lib/drift-detector.js:54`).
  A drift whose only set flag is the violation flag renders as no report, and
  `detectDrift` never sets that flag.

## Model

| member | source | states |
|---|---|---|
| `DirectoryDiscovery.AnyMatches` | lib/directory-discovery.js:9-11 | `patterns.some(p => p.test(name))`: true exactly when some pattern in the list matches the name |
| `DirectoryDiscovery.Matches` | lib/directory-discovery.js:7-10 | `p.test(name)` for the three fixed shapes: `/test/i` searches the name ignoring ASCII case, `/^x$/` is equality with `x`, and `/^\./` is a test that the name starts with `.` |
| `Text.ContainsFolded` | lib/directory-discovery.js:7 | the `/test/i` search: true exactly when some window of the name equals the fragment after ASCII case folding |
| `Text.StartsWith` | lib/directory-discovery.js:66 | `s.startsWith(prefix)`: `s` begins with `prefix`, character for character |
| `Text.EndsWith` | lib/directory-discovery.js:104-107 | the `$`-anchored suffix test: `s` ends with `suffix`, character for character |
| `DirectoryDiscovery.IsTestDir` | lib/directory-discovery.js:7-11 | `isTestDir(n)` holds exactly when `n` contains "test" in any letter case, equals `__pycache__`, `e2e` or `node_modules`, or starts with `.` |
| `DirectoryDiscovery.TestDirExamples` | tests/directory-discovery.test.js:40-47 | `__tests__`, `tests`, `Testing`, `e2e`, `__pycache__` and `.hidden` are test or scratch directories |
| `DirectoryDiscovery.ProductionDirExamples` | tests/directory-discovery.test.js:49-55 | `api`, `components`, `routers`, `services` and `features` are production directories |
| `DirectoryDiscovery.Excluded` | lib/directory-discovery.js:15-24 | a name is excluded exactly when a fixed test pattern or a caller pattern matches it |
| `DirectoryDiscovery.Names` | lib/directory-discovery.js:25 | `.map((e) => e.name)`: one name per entry, in entry order |
| `DirectoryDiscovery.DiscoverDirs` | lib/directory-discovery.js:13-27 | a missing base gives `[]` and a base that is a file gives a not-a-directory failure. Otherwise the result is sorted ascending, and a name is in it exactly when it is a directory entry matched by no fixed pattern and no caller pattern; when the entries have distinct names, the result has no duplicates |
| `DirectoryDiscovery.OrDefault` | lib/directory-discovery.js:30 | `option || fallback` on a string option: the option when set, otherwise the (non-empty) fallback, so the result is never empty |
| `DirectoryDiscovery.JoinPath` | lib/directory-discovery.js:30 | `path.join` of a directory and a child, separated by `/` |
| `DirectoryDiscovery.FrontendSrcPath` | lib/directory-discovery.js:30 | `srcPath`: the project root joined with the frontend directory and then the source directory, each defaulting when unset |
| `DirectoryDiscovery.BackendAppPath` | lib/directory-discovery.js:37 | `appPath`: the project root joined with the backend directory and then the application directory, each defaulting when unset |
| `DirectoryDiscovery.DiscoverFrontendDirs` | lib/directory-discovery.js:29-34 | equals the catalogue of `root/frontendDir/srcDir` |
| `DirectoryDiscovery.DiscoverBackendDirs` | lib/directory-discovery.js:36-41 | equals the catalogue of `root/backendDir/appDir` |
| `DirectoryDiscovery.DefaultRoots` | lib/directory-discovery.js:29-41 | with no options the two roots are `root/frontend/src` and `root/backend/app` |
| `DirectoryDiscovery.FrontendPrefix` | lib/directory-discovery.js:44 | the staged-path prefix `frontendDir/srcDir/`, each part defaulting when unset |
| `DirectoryDiscovery.BackendPrefix` | lib/directory-discovery.js:45 | the staged-path prefix `backendDir/appDir/`, each part defaulting when unset |
| `DirectoryDiscovery.TopDir` | lib/directory-discovery.js:68 | `rest.split('/')[0]` is the part of `rest` before its first `/`: a prefix of `rest` that contains no `/` and is followed by a `/` or by the end of `rest` |
| `DirectoryDiscovery.SetAdd` | lib/directory-discovery.js:69-73 | adding to a JavaScript `Set` keeps it duplicate-free and adds exactly the new element |
| `DirectoryDiscovery.GetChangedDirs` | lib/directory-discovery.js:43-82 | an unavailable query gives three empty lists, and `all` is the staged list. Both directory lists are sorted and duplicate-free. `d` is a frontend entry exactly when some staged file starts with the frontend prefix and its first segment after it is `d`, non-empty and not a test directory. Backend entries are the same for the backend prefix, counting only files not under the frontend prefix |
| `DirectoryDiscovery.FrontendDirPrefix` | lib/directory-discovery.js:100 | the staged-path prefix `frontendDir/`, defaulting to `frontend/` |
| `DirectoryDiscovery.BackendDirPrefix` | lib/directory-discovery.js:101 | the staged-path prefix `backendDir/`, defaulting to `backend/` |
| `DirectoryDiscovery.IsScriptSource` | lib/directory-discovery.js:104 | a script source ends in `.js`, `.jsx`, `.ts` or `.tsx` |
| `DirectoryDiscovery.IsPythonSource` | lib/directory-discovery.js:107 | a Python source ends in `.py` |
| `DirectoryDiscovery.GetChangedFiles` | lib/directory-discovery.js:84-111 | an unavailable query gives two empty lists. Otherwise each list keeps staging order (a subsequence of the staged list). The frontend list holds exactly the staged files under `frontendDir/` ending in `.js`, `.jsx`, `.ts` or `.tsx`; the backend list holds exactly those under `backendDir/` ending in `.py` |
| `DirectoryDiscovery.ChangedFilesCount` | lib/directory-discovery.js:102-108 | each list holds an accepted staged file as many times as it was staged, and any other file not at all |
| `Ordering.Filter` | lib/directory-discovery.js:22-24 | `filter` keeps exactly the elements satisfying the predicate, in their original order |
| `Ordering.FilterKeepsCount` | lib/directory-discovery.js:103-108 | an element the filter accepts occurs in the result as often as in the input |
| `Ordering.Sort` | lib/directory-discovery.js:26 | `sort()` returns an ascending rearrangement of its input |
| `Ordering.SortSameElements` | lib/directory-discovery.js:26 | sorting keeps the length and exactly the same elements |
| `Ordering.SortedUnique` | lib/directory-discovery.js:26 | two ascending rearrangements of the same elements are equal, so the sorted catalogue is determined by the names alone |
| `Ordering.LeTotal` | lib/directory-discovery.js:26 | any two names are comparable in the sort order |
| `Ordering.LeTransitive` | lib/directory-discovery.js:26 | the sort order is transitive |
| `Ordering.LeAntisymmetric` | lib/directory-discovery.js:26 | names that sort before each other are equal |
| `Ordering.NoDupPermutation` | lib/directory-discovery.js:78-79 | sorting the contents of a `Set` keeps them duplicate-free |
| `Ordering.SortSet` | lib/directory-discovery.js:78-79 | sorting the contents of a `Set` gives an ascending, duplicate-free list of exactly the same elements |
| `Text.Split` | lib/directory-discovery.js:68 | `split` yields at least one piece, and no piece contains the separator |
| `Text.SplitJoin` | lib/drift-detector.js:63 | splitting a `join`ed list on the separator gives the list back when no element contains the separator |
| `Text.NatToString` | lib/drift-detector.js:43 | the age in a detail line is rendered as a non-empty string of decimal digits without a leading zero |
| `Text.NatToStringValue` | lib/drift-detector.js:43 | read as a decimal number, the rendered age is the age itself |
| `Text.Join` | lib/drift-detector.js:28-31 | a joined text starts with its first piece |
| `Text.JoinLength` | lib/drift-detector.js:28-31 | a joined text is as long as the pieces together plus `(n - 1)` separators for `n` pieces |
| `Text.JoinPiece` | lib/drift-detector.js:28-31 | piece `k` of a joined text sits at `PieceOffset(k)`, and the separator follows it unless it is the last piece |
| `Text.PieceOffsetValue` | lib/drift-detector.js:28-31 | piece `k` starts after the lengths of the `k` pieces before it plus `k` separators |
| `ManifestManager.Fingerprint` | lib/manifest-manager.js:7-13 | `"unknown"` for a missing path, otherwise the digest of the file's content |
| `ManifestManager.ManifestStore.HashFile` | lib/manifest-manager.js:7-13 | `hashFile` returns the fingerprint of the path in the current store |
| `ManifestManager.SameContentSameFingerprint` | lib/manifest-manager.js:11-12 | files with equal content have equal fingerprints |
| `ManifestManager.FingerprintUnknownIffMissing` | lib/manifest-manager.js:7-13 | with 32-character digests, the fingerprint is `"unknown"` exactly when the file is missing |
| `ManifestManager.CalculateAge` | lib/manifest-manager.js:15-19 | the age is the whole number of days `d` with `d` days ≤ elapsed time < `d + 1` days |
| `ManifestManager.AgeIsUnique` | lib/manifest-manager.js:15-19 | any whole number of days bracketing the elapsed time is the age |
| `ManifestManager.AgeSameDay` | tests/manifest-manager.test.js:46-49 | a manifest created less than a day ago is 0 days old |
| `ManifestManager.AgeOfDaysAgo` | tests/manifest-manager.test.js:51-56 | a manifest created exactly `k` days ago is `k` days old |
| `ManifestManager.NewManifest` | lib/manifest-manager.js:21-34 | the record stores the directories unchanged, their count as `total_directories`, the violations as `total_violations`, the given fingerprint and time, and `test_excluded` defaulting to `[]` |
| `ManifestManager.ManifestStore.CreateManifest` | lib/manifest-manager.js:21-34 | `createManifest` builds that record with `config_hash` = the configuration's fingerprint, `"unknown"` when it is absent |
| `ManifestManager.Lookup` | lib/manifest-manager.js:36-45 | reading yields a record exactly when the path holds one, and `None` when the path is missing or holds unparsable content |
| `ManifestManager.ManifestStore.ReadManifest` | lib/manifest-manager.js:36-45 | `readManifest` returns what reading the current store yields |
| `ManifestManager.ManifestStore.WriteManifest` | lib/manifest-manager.js:47-50 | `writeManifest` replaces the content at the path by the record and changes nothing else |
| `ManifestManager.ReadBackWritten` | lib/manifest-manager.js:36-50 | reading a path just written returns the written record, whatever the path held before |
| `ManifestManager.WriteLeavesOtherPaths` | lib/manifest-manager.js:47-50 | a write changes neither the record read nor the fingerprint at any other path |
| `DriftDetector.BaselineDirs` | lib/drift-detector.js:22 | a manifest without `directories_baselined` counts as having none |
| `Wrappers.Option.GetOr` | lib/drift-detector.js:22 | `value || default` on an optional field: the value when present, otherwise the default |
| `DriftDetector.AddedDirs` | lib/drift-detector.js:23 | exactly the current directories missing from the baseline, in current order |
| `DriftDetector.RemovedDirs` | lib/drift-detector.js:24 | exactly the baselined directories no longer current, in baseline order |
| `DriftDetector.AddedDirsCount` | lib/drift-detector.js:23 | a current directory missing from the baseline is reported as many times as it occurs in the current list, and a baselined one not at all |
| `DriftDetector.RemovedDirsCount` | lib/drift-detector.js:24 | a baselined directory no longer current is reported as many times as it occurs in the baseline, and a current one not at all |
| `DriftDetector.ConfigDrifted` | lib/drift-detector.js:35 | configuration drift: the current fingerprint is not `"unknown"` and differs from the stored `config_hash` |
| `DriftDetector.TimeDrifted` | lib/drift-detector.js:41 | time drift: the age in days exceeds 30 |
| `DriftDetector.AddedLine` | lib/drift-detector.js:28 | the added-directories detail is `Added directories: ` followed by the names joined by `, ` |
| `DriftDetector.RemovedLine` | lib/drift-detector.js:31 | the removed-directories detail is `Removed directories: ` followed by the names joined by `, ` |
| `DriftDetector.AgeLine` | lib/drift-detector.js:43 | the staleness detail is `Baseline is <age> days old (consider refreshing)` with the age in decimal |
| `DriftDetector.AddedLineExample` | tests/drift-detector.test.js:119-128 | for the added directories `features, utils` the detail line reads `Added directories: features, utils`, the detail the report test formats |
| `DriftDetector.Details` | lib/drift-detector.js:27-44 | the detail lines, at most four, are empty exactly when no directory was added or removed, the configuration did not drift and the baseline is not stale |
| `DriftDetector.DirectoryDriftIffDifferentSets` | lib/drift-detector.js:23-25 | both difference lists are empty exactly when the two lists hold the same directories |
| `DriftDetector.UnchangedDirsExample` | tests/drift-detector.test.js:43-54 | unchanged directories `api, components, hooks` give no added and no removed directories |
| `DriftDetector.AddedDirsExample` | tests/drift-detector.test.js:56-66 | adding `features, utils` reports exactly those two, in that order, and nothing removed |
| `DriftDetector.RemovedDirsExample` | tests/drift-detector.test.js:68-78 | keeping only `api` reports `components, hooks` removed, in that order, and nothing added |
| `DriftDetector.ConfigDriftRoundTrip` | lib/drift-detector.js:34-35 | editing the configuration to content with a different, known digest is drift, and restoring the original content removes it |
| `DriftDetector.MissingConfigIsNoDrift` | lib/drift-detector.js:34-35 | a missing configuration is never configuration drift |
| `DriftDetector.TimeDriftBoundary` | lib/drift-detector.js:40-41 | a manifest created `k` whole days ago is stale exactly when `k > 30` |
| `DriftDetector.DetailsInRuleOrder` | lib/drift-detector.js:27-44 | there is one detail line per rule that fired, each fired rule's own line is among them, and the lines name distinct rules in the order added, removed, configuration, age |
| `DriftDetector.DriftIffDetails` | lib/drift-detector.js:25-44 | for a drift of the shape `detectDrift` returns, some flag is set exactly when there are detail lines |
| `DriftDetector.DetectDrift` | lib/drift-detector.js:5-47 | with no readable manifest, returns only the "No manifest found - run baseline first" message. Otherwise: the added and removed lists; directory drift iff either is non-empty; configuration drift iff the current fingerprint is known and differs from `config_hash`; the age in days; time drift iff age > 30; violation drift false; the detail lines in rule order |
| `DriftDetector.Bullets` | lib/drift-detector.js:60-62 | one bullet per detail, in order, each the detail indented by `  - ` |
| `DriftDetector.FormatDriftReport` | lib/drift-detector.js:49-64 | returns the message of a no-manifest result unchanged. Returns `None` when the directory, configuration and time flags are all false, whatever the violation flag. Otherwise returns "Drift Detected:" followed by one `  - detail` line per detail, joined by newlines |
| `DriftDetector.ReportLines` | lib/drift-detector.js:59-63 | read line by line, a report is the header then exactly one bullet per detail in order, when no detail spans lines |
| `DriftDetector.HealedManifest` | lib/drift-detector.js:69-76 | the record auto-heal writes baselines the current directories with their count, the current violations, the configuration's fingerprint in the store before the write, the tool, version and test exclusions given, and the current time |
| `DriftDetector.AutoHeal` | lib/drift-detector.js:66-86 | the store afterwards holds, at the manifest path only, a record of the current directories, their count, the current violations and the configuration's fingerprint from before the write. It reports the prior record's directories and violations, or `[]` and 0 without one, beside the new values |
| `DriftDetector.HealedBaselineHasNoDrift` | lib/drift-detector.js:66-86 | checked the same day with the same directories and a configuration stored elsewhere, a healed baseline reads back and shows no directory, configuration or time drift |
| `DriftDetector.HealTwiceSameBaseline` | lib/drift-detector.js:66-86 | healing twice with unchanged inputs writes records equal in every field except the creation time |

## Left out

- JSON encoding and decoding of manifests are not modelled. A stored record reads back as itself, and content that does not parse reads as `None`. Valid JSON of another shape, and records missing fields other than `directories_baselined`, are not represented.
- The hash algorithm (MD5) is not modelled. The digest is an opaque function of content, so "different contents give different hashes" cannot be proved; `ConfigDriftRoundTrip` takes it as a hypothesis.
- ISO-8601 timestamps and the system clock are not modelled. Creation times are milliseconds, and the current time is a parameter.
- Running `git diff` and the trimming and splitting of its output on newlines are not modelled. The model receives the resulting lines.
- Caller-supplied exclusion patterns are a predicate, not regular expressions. The unused `maxDepth` option has no counterpart.
- `path.join` normalisation is not modelled. Paths are joined with `/`.
- Filesystem failures other than listing a path that is a file are not modelled: unreadable directories, failed writes, and a parent path blocked by a file. `WriteManifest` always succeeds, and because the map has no separate directory entries, missing parent directories need no creating.
- Ordering.Sort compares characters by code point, while JavaScript compares UTF-16 code units. The two differ only between characters above U+FFFF and characters in U+E000 to U+FFFF.
- `formatDriftReport` applied to objects missing some fields (as its tests do) is not modelled. A drift value here always carries every field.
- Asynchronous execution is modelled as sequential steps, in the order the `await`s run.
- The command-line front end, post-install messages, installer, git hook manager, virtual-environment manager and the re-export index are not part of this model.
