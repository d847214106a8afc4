/** Drift detection against a stored baseline manifest, the text report of a
    drift, and auto-heal, which replaces a stale manifest with one describing
    the current state. */
module DriftDetector {
  import opened Wrappers
  import opened Text
  import opened Ordering
  import opened ManifestManager

  const NoManifestMessage := "No manifest found - run baseline first"

  /** A baseline older than this many whole days is stale. */
  const MaxAgeDays := 30

  const AddedPrefix := "Added directories: "
  const RemovedPrefix := "Removed directories: "
  const ConfigChangedLine := "Configuration changed (config file hash mismatch)"
  const AgePrefix := "Baseline is "
  const ReportHeader := "Drift Detected:"
  const Bullet := "  - "

  /** The outcome of a drift check: no loadable baseline, or the four drift flags
      with the evidence behind them. */
  datatype DriftResult =
    | NoManifest(message: string)
    | Drift(
        hasDirectoryDrift: bool,
        hasConfigDrift: bool,
        hasTimeDrift: bool,
        hasViolationDrift: bool,
        addedDirs: seq<string>,
        removedDirs: seq<string>,
        age: int,
        details: seq<string>)

  /** The baselined directories; a record without the field has none. */
  function BaselineDirs(m: Manifest): (dirs: seq<string>)
    ensures m.directoriesBaselined.None? ==> dirs == []
    ensures m.directoriesBaselined.Some? ==> dirs == m.directoriesBaselined.value
  {
    m.directoriesBaselined.GetOr([])
  }

  /** Current directories that the baseline lacks, in current order. */
  function AddedDirs(current: seq<string>, baseline: seq<string>): (added: seq<string>)
    ensures forall d :: d in added <==> d in current && d !in baseline
    ensures IsSubsequence(added, current)
  {
    Filter((d: string) => d !in baseline, current)
  }

  /** Baselined directories that are no longer current, in baseline order. */
  function RemovedDirs(current: seq<string>, baseline: seq<string>): (removed: seq<string>)
    ensures forall d :: d in removed <==> d in baseline && d !in current
    ensures IsSubsequence(removed, baseline)
  {
    Filter((d: string) => d !in current, baseline)
  }

  /** A current directory missing from the baseline is reported as often as it
      occurs in the current list; one in the baseline is not reported. */
  lemma AddedDirsCount(current: seq<string>, baseline: seq<string>, d: string)
    ensures multiset(AddedDirs(current, baseline))[d] == if d in baseline then 0 else multiset(current)[d]
  {
    if d !in baseline {
      FilterKeepsCount((x: string) => x !in baseline, current, d);
    }
  }

  /** A baselined directory no longer current is reported as often as it occurs
      in the baseline; a current one is not reported. */
  lemma RemovedDirsCount(current: seq<string>, baseline: seq<string>, d: string)
    ensures multiset(RemovedDirs(current, baseline))[d] == if d in current then 0 else multiset(baseline)[d]
  {
    if d !in current {
      FilterKeepsCount((x: string) => x !in current, baseline, d);
    }
  }

  /** A configuration counts as changed only when its fingerprint is known and
      differs from the stored one. */
  predicate ConfigDrifted(currentHash: string, storedHash: string) {
    currentHash != Unknown && currentHash != storedHash
  }

  predicate TimeDrifted(age: int) {
    age > MaxAgeDays
  }

  function AddedLine(added: seq<string>): string {
    AddedPrefix + Join(added, ", ")
  }

  function RemovedLine(removed: seq<string>): string {
    RemovedPrefix + Join(removed, ", ")
  }

  function AgeLine(age: nat): string {
    AgePrefix + NatToString(age) + " days old (consider refreshing)"
  }

  /** The detail lines of a drift: one for each rule that fired, in the order
      added, removed, configuration, age. There are none exactly when no rule
      fired. */
  function Details(added: seq<string>, removed: seq<string>, configDrift: bool, age: int): (ds: seq<string>)
    ensures |ds| <= 4
    ensures ds == [] <==> added == [] && removed == [] && !configDrift && !TimeDrifted(age)
  {
    (if added != [] then [AddedLine(added)] else [])
    + (if removed != [] then [RemovedLine(removed)] else [])
    + (if configDrift then [ConfigChangedLine] else [])
    + (if TimeDrifted(age) then [AgeLine(age)] else [])
  }

  /** Which rule a detail line reports, by its fixed opening words; -1 for none. */
  function RuleOf(line: string): int {
    if StartsWith(line, AddedPrefix) then 0
    else if StartsWith(line, RemovedPrefix) then 1
    else if line == ConfigChangedLine then 2
    else if StartsWith(line, AgePrefix) then 3
    else -1
  }

  /** A string that differs from `prefix` at a position both have does not
      start with `prefix`. */
  lemma CharDiffers(s: string, prefix: string, k: int)
    requires 0 <= k < |s| && k < |prefix| && s[k] != prefix[k]
    ensures !StartsWith(s, prefix)
  {
    if |prefix| <= |s| { assert s[..|prefix|][k] == s[k]; }
  }

  lemma RuleOfLines(added: seq<string>, removed: seq<string>, age: nat)
    ensures RuleOf(AddedLine(added)) == 0
    ensures RuleOf(RemovedLine(removed)) == 1
    ensures RuleOf(ConfigChangedLine) == 2
    ensures RuleOf(AgeLine(age)) == 3
  {
    assert AddedLine(added)[..|AddedPrefix|] == AddedPrefix;
    var r := RemovedLine(removed);
    assert r[..|RemovedPrefix|] == RemovedPrefix;
    assert AddedPrefix[0] == 'A' && RemovedPrefix[0] == 'R';
    CharDiffers(r, AddedPrefix, 0);
    assert ConfigChangedLine[18] == 'g' && AddedPrefix[18] == ' ' && RemovedPrefix[18] == 's';
    CharDiffers(ConfigChangedLine, AddedPrefix, 18);
    CharDiffers(ConfigChangedLine, RemovedPrefix, 18);
    var a := AgeLine(age);
    assert a[..|AgePrefix|] == AgePrefix;
    CharDiffers(a, AddedPrefix, 0);
    CharDiffers(a, RemovedPrefix, 0);
    assert a[0] == 'B';
  }

  /** Under the classification `rule`, every line reports a rule below `bound`,
      and the rules strictly increase along the lines. */
  predicate RulesBelow(rule: string -> int, ds: seq<string>, bound: int) {
    && (forall k :: 0 <= k < |ds| ==> 0 <= rule(ds[k]) < bound)
    && (forall i, j :: 0 <= i < j < |ds| ==> rule(ds[i]) < rule(ds[j]))
  }

  /** Appending a line for rule `bound` to lines for lower rules keeps them ordered. */
  lemma AppendRule(rule: string -> int, ds: seq<string>, line: string, bound: int, fired: bool)
    requires 0 <= bound && RulesBelow(rule, ds, bound) && (fired ==> rule(line) == bound)
    ensures RulesBelow(rule, ds + (if fired then [line] else []), bound + 1)
  {
    if fired {
      var r := ds + [line];
      forall k | 0 <= k < |r| ensures 0 <= rule(r[k]) < bound + 1 {
        if k < |ds| { assert r[k] == ds[k]; } else { assert r[k] == line; }
      }
      forall i, j | 0 <= i < j < |r| ensures rule(r[i]) < rule(r[j]) {
        assert r[i] == ds[i];
        if j < |ds| { assert r[j] == ds[j]; } else { assert r[j] == line; }
      }
    } else {
      assert ds + [] == ds;
    }
  }

  /** Picking any of four lines for rules 0 to 3, in that order, gives lines in
      strictly increasing rule order. */
  lemma SelectionOrdered(
    rule: string -> int, l0: string, l1: string, l2: string, l3: string, f0: bool, f1: bool, f2: bool, f3: bool)
    requires rule(l0) == 0 && rule(l1) == 1 && rule(l2) == 2 && rule(l3) == 3
    ensures RulesBelow(rule,
      (if f0 then [l0] else []) + (if f1 then [l1] else []) + (if f2 then [l2] else []) + (if f3 then [l3] else []), 4)
  {
    var ds1 := if f0 then [l0] else [];
    var ds2 := ds1 + (if f1 then [l1] else []);
    var ds3 := ds2 + (if f2 then [l2] else []);
    assert RulesBelow(rule, ds1, 1) by {
      AppendRule(rule, [], l0, 0, f0);
      assert [] + ds1 == ds1;
    }
    assert RulesBelow(rule, ds2, 2) by { AppendRule(rule, ds1, l1, 1, f1); }
    assert RulesBelow(rule, ds3, 3) by { AppendRule(rule, ds2, l2, 2, f2); }
    AppendRule(rule, ds3, l3, 3, f3);
  }

  /** The detail lines name distinct rules in strictly increasing rule order,
      there is one line for each rule that fired, and that line is among them. */
  lemma DetailsInRuleOrder(added: seq<string>, removed: seq<string>, configDrift: bool, age: int)
    ensures var ds := Details(added, removed, configDrift, age);
      && |ds| == (if added != [] then 1 else 0) + (if removed != [] then 1 else 0)
                 + (if configDrift then 1 else 0) + (if TimeDrifted(age) then 1 else 0)
      && RulesBelow(RuleOf, ds, 4)
      && (added != [] ==> AddedLine(added) in ds)
      && (removed != [] ==> RemovedLine(removed) in ds)
      && (configDrift ==> ConfigChangedLine in ds)
      && (TimeDrifted(age) ==> AgeLine(age) in ds)
  {
    var t: nat := if age > 0 then age else 0;
    RuleOfLines(added, removed, t);
    SelectionOrdered(
      RuleOf, AddedLine(added), RemovedLine(removed), ConfigChangedLine, AgeLine(t),
      added != [], removed != [], configDrift, TimeDrifted(age));
    assert TimeDrifted(age) ==> AgeLine(t) == AgeLine(age);
  }

  /** The shape every drift that `DetectDrift` returns has. */
  ghost predicate WellFormed(drift: DriftResult) {
    drift.Drift? ==>
      && (drift.hasDirectoryDrift <==> drift.addedDirs != [] || drift.removedDirs != [])
      && (drift.hasTimeDrift <==> TimeDrifted(drift.age))
      && !drift.hasViolationDrift
      && drift.details == Details(drift.addedDirs, drift.removedDirs, drift.hasConfigDrift, drift.age)
  }

  /** For a well-formed drift, some rule fired exactly when there are detail lines. */
  lemma DriftIffDetails(drift: DriftResult)
    requires drift.Drift? && WellFormed(drift)
    ensures drift.hasDirectoryDrift || drift.hasConfigDrift || drift.hasTimeDrift <==> drift.details != []
  {
    DetailsInRuleOrder(drift.addedDirs, drift.removedDirs, drift.hasConfigDrift, drift.age);
  }

  /** `detectDrift`: compares the current directory list and configuration
      fingerprint against the manifest stored at `manifestPath`. */
  method DetectDrift(
    store: ManifestStore, manifestPath: string, configPath: string,
    currentDirs: seq<string>, now: int) returns (drift: DriftResult)
    ensures Lookup(store.files, manifestPath).None? ==> drift == NoManifest(NoManifestMessage)
    ensures Lookup(store.files, manifestPath).Some? ==>
      var m := Lookup(store.files, manifestPath).value;
      && drift.Drift?
      && WellFormed(drift)
      && drift.addedDirs == AddedDirs(currentDirs, BaselineDirs(m))
      && drift.removedDirs == RemovedDirs(currentDirs, BaselineDirs(m))
      && (drift.hasConfigDrift <==> ConfigDrifted(Fingerprint(store.digest, store.files, configPath), m.configHash))
      && drift.age == CalculateAge(m.createdAt, now)
  {
    var manifest := store.ReadManifest(manifestPath);
    if manifest.None? {
      return NoManifest(NoManifestMessage);
    }
    var m := manifest.value;
    var details: seq<string> := [];

    var baselineDirs := BaselineDirs(m);
    var addedDirs := AddedDirs(currentDirs, baselineDirs);
    var removedDirs := RemovedDirs(currentDirs, baselineDirs);
    var hasDirectoryDrift := |addedDirs| > 0 || |removedDirs| > 0;
    if |addedDirs| > 0 {
      details := details + [AddedLine(addedDirs)];
    }
    if |removedDirs| > 0 {
      details := details + [RemovedLine(removedDirs)];
    }
    ghost var directoryDetails := details;
    assert directoryDetails ==
      (if addedDirs != [] then [AddedLine(addedDirs)] else []) + (if removedDirs != [] then [RemovedLine(removedDirs)] else []);

    var currentHash := store.HashFile(configPath);
    var hasConfigDrift := ConfigDrifted(currentHash, m.configHash);
    if hasConfigDrift {
      details := details + [ConfigChangedLine];
    }
    assert details == directoryDetails + (if hasConfigDrift then [ConfigChangedLine] else []);

    var age := CalculateAge(m.createdAt, now);
    var hasTimeDrift := TimeDrifted(age);
    if hasTimeDrift {
      details := details + [AgeLine(age)];
    }
    assert details == Details(addedDirs, removedDirs, hasConfigDrift, age);
    drift := Drift(hasDirectoryDrift, hasConfigDrift, hasTimeDrift, false, addedDirs, removedDirs, age, details);
  }

  /** Each detail line indented as a bullet. */
  function Bullets(details: seq<string>): (lines: seq<string>)
    ensures |lines| == |details|
    ensures forall k :: 0 <= k < |details| ==> lines[k] == Bullet + details[k]
  {
    seq(|details|, k requires 0 <= k < |details| => Bullet + details[k])
  }

  /** `formatDriftReport`: the text shown for a drift, `None` when there is nothing
      to show. Only the directory, configuration and time flags are consulted. */
  method FormatDriftReport(drift: DriftResult) returns (report: Option<string>)
    ensures drift.NoManifest? ==> report == Some(drift.message)
    ensures drift.Drift? && !(drift.hasDirectoryDrift || drift.hasConfigDrift || drift.hasTimeDrift) ==>
      report == None
    ensures drift.Drift? && (drift.hasDirectoryDrift || drift.hasConfigDrift || drift.hasTimeDrift) ==>
      report == Some(Join([ReportHeader] + Bullets(drift.details), "\n"))
  {
    if drift.NoManifest? {
      return Some(drift.message);
    }
    var hasDrift := drift.hasDirectoryDrift || drift.hasConfigDrift || drift.hasTimeDrift;
    if !hasDrift {
      return None;
    }
    var lines := [ReportHeader];
    for i := 0 to |drift.details|
      invariant lines == [ReportHeader] + Bullets(drift.details[..i])
    {
      lines := lines + [Bullet + drift.details[i]];
    }
    assert drift.details[..|drift.details|] == drift.details;
    report := Some(Join(lines, "\n"));
  }

  /** Read line by line, a report is the header and then one bullet per detail,
      in order, provided no detail spans several lines. */
  lemma ReportLines(details: seq<string>)
    requires forall k :: 0 <= k < |details| ==> '\n' !in details[k]
    ensures Split(Join([ReportHeader] + Bullets(details), "\n"), '\n') == [ReportHeader] + Bullets(details)
  {
    var lines := [ReportHeader] + Bullets(details);
    forall k | 0 <= k < |lines| ensures '\n' !in lines[k] {
      if k > 0 {
        assert lines[k] == Bullet + details[k - 1];
      }
    }
    SplitJoin(lines, '\n');
  }

  /** What auto-heal reports: the previous and new directory lists and counts. */
  datatype HealReport = HealReport(
    oldDirs: Option<seq<string>>,
    newDirs: seq<string>,
    oldViolations: int,
    newViolations: int)

  /** The record auto-heal writes, given the store's state before the heal. */
  function HealedManifest(
    digest: Content -> string, files: Files, configPath: string, currentDirs: seq<string>,
    tool: string, version: string, currentViolations: int, testExcluded: Option<seq<string>>, now: int): (m: Manifest)
    ensures m.directoriesBaselined == Some(currentDirs) && m.totalDirectories == |currentDirs|
    ensures m.totalViolations == currentViolations
    ensures m.configHash == Fingerprint(digest, files, configPath)
    ensures m.createdAt == now && m.tool == tool && m.version == version
    ensures m.testExcluded == testExcluded.GetOr([])
  {
    NewManifest(now, tool, version, currentDirs, currentViolations, Fingerprint(digest, files, configPath), testExcluded)
  }

  /** `autoHeal`: replaces the manifest at `manifestPath` by a fresh one for the
      current directories and violation count, and reports what it replaced. */
  method AutoHeal(
    store: ManifestStore, manifestPath: string, configPath: string, currentDirs: seq<string>,
    tool: string, version: string, currentViolations: int, testExcluded: Option<seq<string>>, now: int)
    returns (report: HealReport)
    modifies store
    ensures store.files == old(store.files)[manifestPath := Record(
      HealedManifest(store.digest, old(store.files), configPath, currentDirs, tool, version, currentViolations, testExcluded, now))]
    ensures var prior := Lookup(old(store.files), manifestPath);
      && report.oldDirs == (if prior.Some? then prior.value.directoriesBaselined else Some([]))
      && report.oldViolations == (if prior.Some? then prior.value.totalViolations else 0)
      && report.newDirs == currentDirs
      && report.newViolations == currentViolations
  {
    var oldManifest := store.ReadManifest(manifestPath);
    var newManifest := store.CreateManifest(tool, version, currentDirs, currentViolations, configPath, testExcluded, now);
    store.WriteManifest(manifestPath, newManifest);
    report := HealReport(
      if oldManifest.Some? then oldManifest.value.directoriesBaselined else Some([]),
      currentDirs,
      if oldManifest.Some? then oldManifest.value.totalViolations else 0,
      currentViolations);
  }

  // ----- Properties relating several operations -----

  /** No directory drift exactly when both lists hold the same directories. */
  lemma DirectoryDriftIffDifferentSets(current: seq<string>, baseline: seq<string>)
    ensures AddedDirs(current, baseline) == [] && RemovedDirs(current, baseline) == [] <==>
      forall d :: d in current <==> d in baseline
  {
    var added := AddedDirs(current, baseline);
    var removed := RemovedDirs(current, baseline);
    if added != [] { assert added[0] in added; }
    if removed != [] { assert removed[0] in removed; }
    if exists d :: d in current && d !in baseline {
      var d :| d in current && d !in baseline;
      assert d in added;
    }
    if exists d :: d in baseline && d !in current {
      var d :| d in baseline && d !in current;
      assert d in removed;
    }
  }

  /** Once the configuration has been fingerprinted, editing it to content with
      a different digest is drift, and restoring the original content is not. */
  lemma ConfigDriftRoundTrip(
    digest: Content -> string, files: Files, configPath: string, original: Content, edited: Content)
    requires digest(edited) != Unknown && digest(edited) != digest(original)
    ensures var stored := Fingerprint(digest, files[configPath := original], configPath);
      && ConfigDrifted(Fingerprint(digest, files[configPath := edited], configPath), stored)
      && !ConfigDrifted(Fingerprint(digest, files[configPath := edited][configPath := original], configPath), stored)
  {
  }

  /** A missing configuration never counts as drift. */
  lemma MissingConfigIsNoDrift(digest: Content -> string, files: Files, configPath: string, storedHash: string)
    requires configPath !in files
    ensures !ConfigDrifted(Fingerprint(digest, files, configPath), storedHash)
  {
  }

  /** Time drift sets in strictly after 30 whole days. */
  lemma TimeDriftBoundary(now: int, days: int)
    ensures TimeDrifted(CalculateAge(now - days * MillisPerDay, now)) <==> days > 30
  {
    AgeOfDaysAgo(now, days);
  }

  /** Checked on the same day against the same directories and an untouched
      configuration, a freshly healed baseline shows no drift of any kind. */
  lemma HealedBaselineHasNoDrift(
    digest: Content -> string, files: Files, manifestPath: string, configPath: string,
    currentDirs: seq<string>, tool: string, version: string, currentViolations: int,
    testExcluded: Option<seq<string>>, now: int, later: int)
    requires configPath != manifestPath
    requires now <= later < now + MillisPerDay
    ensures var m := HealedManifest(digest, files, configPath, currentDirs, tool, version, currentViolations, testExcluded, now);
      var after := files[manifestPath := Record(m)];
      && Lookup(after, manifestPath) == Some(m)
      && AddedDirs(currentDirs, BaselineDirs(m)) == []
      && RemovedDirs(currentDirs, BaselineDirs(m)) == []
      && !ConfigDrifted(Fingerprint(digest, after, configPath), m.configHash)
      && !TimeDrifted(CalculateAge(m.createdAt, later))
  {
    DirectoryDriftIffDifferentSets(currentDirs, currentDirs);
    AgeSameDay(now, later);
  }

  /** Healing twice with unchanged inputs writes records that differ only in
      their creation time, and the second heal reports the first one's values. */
  lemma HealTwiceSameBaseline(
    digest: Content -> string, files: Files, manifestPath: string, configPath: string,
    currentDirs: seq<string>, tool: string, version: string, currentViolations: int,
    testExcluded: Option<seq<string>>, first: int, second: int)
    requires configPath != manifestPath
    ensures var m1 := HealedManifest(digest, files, configPath, currentDirs, tool, version, currentViolations, testExcluded, first);
      var after := files[manifestPath := Record(m1)];
      var m2 := HealedManifest(digest, after, configPath, currentDirs, tool, version, currentViolations, testExcluded, second);
      && m2 == m1.(createdAt := second)
      && Lookup(after, manifestPath) == Some(m1)
      && m1.directoriesBaselined == Some(currentDirs)
      && m1.totalViolations == currentViolations
  {
  }

  /** Unchanged directories: nothing added, nothing removed. */
  lemma UnchangedDirsExample()
    ensures AddedDirs(["api", "components", "hooks"], ["api", "components", "hooks"]) == []
    ensures RemovedDirs(["api", "components", "hooks"], ["api", "components", "hooks"]) == []
  {
    DirectoryDriftIffDifferentSets(["api", "components", "hooks"], ["api", "components", "hooks"]);
  }

  /** Two new directories are reported in the order they are listed. */
  lemma AddedDirsExample()
    ensures AddedDirs(["api", "components", "hooks", "features", "utils"], ["api", "components", "hooks"])
      == ["features", "utils"]
    ensures RemovedDirs(["api", "components", "hooks", "features", "utils"], ["api", "components", "hooks"]) == []
  {
    var baseline := ["api", "components", "hooks"];
    assert "features" !in baseline && "utils" !in baseline;
    assert AddedDirs(["utils"], baseline) == ["utils"];
    assert AddedDirs(["features", "utils"], baseline) == ["features", "utils"];
    assert AddedDirs(["hooks", "features", "utils"], baseline) == ["features", "utils"];
    assert AddedDirs(["components", "hooks", "features", "utils"], baseline) == ["features", "utils"];
    var current := ["api", "components", "hooks", "features", "utils"];
    assert RemovedDirs(current, ["hooks"]) == [];
    assert RemovedDirs(current, ["components", "hooks"]) == [];
  }

  /** Two vanished directories are reported in baseline order. */
  lemma RemovedDirsExample()
    ensures AddedDirs(["api"], ["api", "components", "hooks"]) == []
    ensures RemovedDirs(["api"], ["api", "components", "hooks"]) == ["components", "hooks"]
  {
  }

  /** The detail line for the added directories `features, utils`. */
  lemma AddedLineExample()
    ensures AddedLine(["features", "utils"]) == "Added directories: features, utils"
  {
    var xs := ["features", "utils"];
    assert xs[1..] == ["utils"];
    assert Join(xs, ", ") == "features" + ", " + "utils";
  }
}
