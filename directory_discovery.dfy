/** The directory catalogue: which child directories of a source root are
    "production" directories, and which directories and files a staged change
    touches. The filesystem is a read-only snapshot; the list of staged paths
    reported by version control is an input. */
module DirectoryDiscovery {
  import opened Wrappers
  import opened Text
  import opened Ordering

  /** The three shapes of fixed exclusion pattern: `/test/i`, `/^name$/` and `/^prefix/`. */
  datatype Pattern =
    | ContainsIgnoringCase(fragment: string)
    | Exactly(name: string)
    | Prefix(start: string)

  predicate Matches(p: Pattern, name: string) {
    match p
    case ContainsIgnoringCase(fragment) => ContainsFolded(name, fragment)
    case Exactly(n) => name == n
    case Prefix(start) => StartsWith(name, start)
  }

  /** The fixed list of test and scratch directory patterns, in source order. */
  const TestPatterns: seq<Pattern> :=
    [ContainsIgnoringCase("test"), Exactly("__pycache__"), Exactly("e2e"), Prefix("."), Exactly("node_modules")]

  /** `patterns.some((p) => p.test(name))`. */
  function AnyMatches(patterns: seq<Pattern>, name: string): (b: bool)
    ensures b <==> exists k :: 0 <= k < |patterns| && Matches(patterns[k], name)
  {
    if patterns == [] then false
    else Matches(patterns[0], name) || AnyMatches(patterns[1..], name)
  }

  /** `isTestDir`: a name is a test or scratch directory exactly when it contains
      "test" in any letter case, is `__pycache__`, `e2e` or `node_modules`, or
      starts with a dot. */
  predicate IsTestDir(name: string): (b: bool)
    ensures b <==>
      || OccursFolded(name, "test")
      || name == "__pycache__"
      || name == "e2e"
      || (|name| > 0 && name[0] == '.')
      || name == "node_modules"
  {
    var ps := TestPatterns;
    assert Matches(ps[0], name) <==> OccursFolded(name, "test");
    assert Matches(ps[1], name) <==> name == "__pycache__";
    assert Matches(ps[2], name) <==> name == "e2e";
    assert Matches(ps[3], name) <==> (|name| > 0 && name[0] == '.');
    assert Matches(ps[4], name) <==> name == "node_modules";
    AnyMatches(ps, name)
  }

  /** The test and scratch names the project's own tests classify. */
  lemma TestDirExamples()
    ensures IsTestDir("__tests__") && IsTestDir("tests") && IsTestDir("Testing")
    ensures IsTestDir("e2e") && IsTestDir("__pycache__") && IsTestDir(".hidden")
  {
    DunderTestsIsTestDir();
    TestsIsTestDir();
    TestingIsTestDir();
    E2eIsTestDir();
    PycacheIsTestDir();
    HiddenIsTestDir();
  }

  lemma DunderTestsIsTestDir()
    ensures IsTestDir("__tests__")
  {
    TestWindowChars("__tests__", 2);
  }

  lemma TestsIsTestDir()
    ensures IsTestDir("tests")
  {
    TestWindowChars("tests", 0);
  }

  lemma TestingIsTestDir()
    ensures IsTestDir("Testing")
  {
    TestWindowChars("Testing", 0);
  }

  lemma E2eIsTestDir()
    ensures IsTestDir("e2e")
  {
  }

  lemma PycacheIsTestDir()
    ensures IsTestDir("__pycache__")
  {
  }

  lemma HiddenIsTestDir()
    ensures IsTestDir(".hidden")
  {
  }

  /** A window matches "test" exactly when its four characters fold to t, e, s, t. */
  lemma TestWindowChars(name: string, i: int)
    requires 0 <= i && i + 4 <= |name|
    ensures MatchesAt(name, "test", i) <==>
      && FoldChar(name[i]) == 't' && FoldChar(name[i + 1]) == 'e'
      && FoldChar(name[i + 2]) == 's' && FoldChar(name[i + 3]) == 't'
  {
    var w := name[i..i + 4];
    assert Fold(w)[0] == FoldChar(name[i]) && Fold(w)[1] == FoldChar(name[i + 1]);
    assert Fold(w)[2] == FoldChar(name[i + 2]) && Fold(w)[3] == FoldChar(name[i + 3]);
  }

  /** A name in which no four consecutive characters fold to "test" does not
      contain the fragment. */
  lemma NoTestWindow(name: string)
    requires forall i :: 0 <= i && i + 4 <= |name| ==>
      FoldChar(name[i]) != 't' || FoldChar(name[i + 1]) != 'e' ||
      FoldChar(name[i + 2]) != 's' || FoldChar(name[i + 3]) != 't'
    ensures !OccursFolded(name, "test")
  {
    forall i | MatchesAt(name, "test", i) ensures false {
      TestWindowChars(name, i);
    }
  }

  /** The production names the project's own tests classify. */
  lemma ProductionDirExamples()
    ensures !IsTestDir("api") && !IsTestDir("components") && !IsTestDir("routers")
    ensures !IsTestDir("services") && !IsTestDir("features")
  {
    ApiIsProduction();
    ComponentsIsProduction();
    RoutersIsProduction();
    ServicesIsProduction();
    FeaturesIsProduction();
  }

  lemma ApiIsProduction()
    ensures !IsTestDir("api")
  {
    NoTestWindow("api");
  }

  lemma ComponentsIsProduction()
    ensures !IsTestDir("components")
  {
    NoTestWindow("components");
  }

  lemma RoutersIsProduction()
    ensures !IsTestDir("routers")
  {
    NoTestWindow("routers");
  }

  lemma ServicesIsProduction()
    ensures !IsTestDir("services")
  {
    NoTestWindow("services");
  }

  lemma FeaturesIsProduction()
    ensures !IsTestDir("features")
  {
    NoTestWindow("features");
  }

  // ----- Catalogue of a source root -----

  datatype Entry = Entry(name: string, isDirectory: bool)

  /** What a path names in the snapshot: a file, or a directory and its entries. */
  datatype Node = FileNode | DirNode(entries: seq<Entry>)

  /** A path absent from the map does not exist. */
  type Tree = map<string, Node>

  /** `readdirSync` on an existing path that is not a directory throws. */
  datatype IoError = NotADirectory(path: string)

  /** A fixed pattern or one of the caller's extra patterns matches `name`;
      `extra` stands for the caller's case-insensitive regular expressions. */
  predicate Excluded(name: string, extra: string -> bool) {
    IsTestDir(name) || extra(name)
  }

  function Names(entries: seq<Entry>): (r: seq<string>)
    ensures |r| == |entries|
    ensures forall k :: 0 <= k < |entries| ==> r[k] == entries[k].name
  {
    seq(|entries|, k requires 0 <= k < |entries| => entries[k].name)
  }

  /** Prepending an entry whose name none of `es` has keeps names distinct. */
  lemma ConsNamesDistinct(e: Entry, es: seq<Entry>)
    requires NoDup(Names(es))
    requires forall k :: 0 <= k < |es| ==> es[k].name != e.name
    ensures NoDup(Names([e] + es))
  {
    var ns := Names([e] + es);
    forall i, j | 0 <= i < j < |ns| ensures ns[i] != ns[j] {
      assert ns[j] == es[j - 1].name;
      if i > 0 { assert ns[i] == es[i - 1].name; }
    }
  }

  /** Filtering entries with distinct names leaves entries with distinct names. */
  lemma {:induction false} FilterKeepsNamesDistinct(p: Entry -> bool, entries: seq<Entry>)
    requires NoDup(Names(entries))
    ensures NoDup(Names(Filter(p, entries)))
  {
    if entries != [] {
      var rest := entries[1..];
      assert Names(rest) == Names(entries)[1..];
      FilterKeepsNamesDistinct(p, rest);
      var kept := Filter(p, rest);
      if p(entries[0]) {
        assert Filter(p, entries) == [entries[0]] + kept;
        forall k | 0 <= k < |kept| ensures kept[k].name != entries[0].name {
          assert kept[k] in rest;
          var j :| 0 <= j < |rest| && rest[j] == kept[k];
          assert Names(entries)[j + 1] == kept[k].name;
        }
        ConsNamesDistinct(entries[0], kept);
      } else {
        assert Filter(p, entries) == kept;
      }
    }
  }

  /** The production directories directly under `basePath`, sorted by name. */
  function DiscoverDirs(tree: Tree, basePath: string, extra: string -> bool): (r: Result<seq<string>, IoError>)
    ensures basePath !in tree ==> r == Success([])
    ensures basePath in tree && tree[basePath].FileNode? ==> r == Failure(NotADirectory(basePath))
    ensures basePath in tree && tree[basePath].DirNode? ==>
      && r.Success?
      && Sorted(r.value)
      && (NoDup(Names(tree[basePath].entries)) ==> NoDup(r.value))
      && forall n :: n in r.value <==>
           exists e :: e in tree[basePath].entries && e.isDirectory && e.name == n && !Excluded(n, extra)
  {
    if basePath !in tree then Success([])
    else match tree[basePath]
      case FileNode => Failure(NotADirectory(basePath))
      case DirNode(entries) =>
        var dirs := Filter((e: Entry) => e.isDirectory, entries);
        var kept := Filter((e: Entry) => !Excluded(e.name, extra), dirs);
        var names := Names(kept);
        SortSameElements(names);
        assert NoDup(Names(entries)) ==> NoDup(Sort(names)) by {
          if NoDup(Names(entries)) {
            FilterKeepsNamesDistinct((e: Entry) => e.isDirectory, entries);
            FilterKeepsNamesDistinct((e: Entry) => !Excluded(e.name, extra), dirs);
            NoDupPermutation(names, Sort(names));
          }
        }
        assert forall n :: n in names <==> exists e :: e in kept && e.name == n;
        Success(Sort(names))
  }

  /** Directory options; the empty string stands for an option left unset. */
  datatype Options = Options(frontendDir: string, srcDir: string, backendDir: string, appDir: string)

  const NoOptions := Options("", "", "", "")

  /** JavaScript's `given || fallback` on a string option. */
  function OrDefault(given: string, fallback: string): (r: string)
    requires fallback != ""
    ensures r != ""
  {
    if given == "" then fallback else given
  }

  function JoinPath(dir: string, child: string): string {
    dir + "/" + child
  }

  function FrontendSrcPath(projectRoot: string, options: Options): string {
    JoinPath(JoinPath(projectRoot, OrDefault(options.frontendDir, "frontend")), OrDefault(options.srcDir, "src"))
  }

  function BackendAppPath(projectRoot: string, options: Options): string {
    JoinPath(JoinPath(projectRoot, OrDefault(options.backendDir, "backend")), OrDefault(options.appDir, "app"))
  }

  /** The catalogue of the frontend source root. */
  function DiscoverFrontendDirs(tree: Tree, projectRoot: string, options: Options, extra: string -> bool)
    : (r: Result<seq<string>, IoError>)
    ensures r == DiscoverDirs(tree, FrontendSrcPath(projectRoot, options), extra)
  {
    DiscoverDirs(tree, FrontendSrcPath(projectRoot, options), extra)
  }

  /** The catalogue of the backend application root. */
  function DiscoverBackendDirs(tree: Tree, projectRoot: string, options: Options, extra: string -> bool)
    : (r: Result<seq<string>, IoError>)
    ensures r == DiscoverDirs(tree, BackendAppPath(projectRoot, options), extra)
  {
    DiscoverDirs(tree, BackendAppPath(projectRoot, options), extra)
  }

  /** With no options the two roots are `frontend/src` and `backend/app`. */
  lemma DefaultRoots(projectRoot: string)
    ensures FrontendSrcPath(projectRoot, NoOptions) == projectRoot + "/frontend/src"
    ensures BackendAppPath(projectRoot, NoOptions) == projectRoot + "/backend/app"
  {
  }

  // ----- Staged changes -----

  function FrontendPrefix(options: Options): string {
    OrDefault(options.frontendDir, "frontend") + "/" + OrDefault(options.srcDir, "src") + "/"
  }

  function BackendPrefix(options: Options): string {
    OrDefault(options.backendDir, "backend") + "/" + OrDefault(options.appDir, "app") + "/"
  }

  /** `rest.split('/')[0]`: the first path segment of `rest`, which runs up to
      the first slash or to the end. */
  function TopDir(rest: string): (d: string)
    ensures '/' !in d
    ensures StartsWith(rest, d) && (|d| == |rest| || rest[|d|] == '/')
  {
    SplitHead(rest, '/');
    Split(rest, '/')[0]
  }

  /** Staged file `file` names frontend directory `d`. */
  ghost predicate FrontendDirOf(file: string, frontendPrefix: string, d: string) {
    && StartsWith(file, frontendPrefix)
    && TopDir(file[|frontendPrefix|..]) == d
    && d != ""
    && !IsTestDir(d)
  }

  /** Staged file `file` names backend directory `d`; a file under the frontend
      prefix never does. */
  ghost predicate BackendDirOf(file: string, frontendPrefix: string, backendPrefix: string, d: string) {
    && !StartsWith(file, frontendPrefix)
    && StartsWith(file, backendPrefix)
    && TopDir(file[|backendPrefix|..]) == d
    && d != ""
    && !IsTestDir(d)
  }

  datatype ChangedDirs = ChangedDirs(frontend: seq<string>, backend: seq<string>, all: seq<string>)

  /** `set.add(x)` on a JavaScript `Set`, kept as its insertion-ordered contents. */
  function SetAdd(s: seq<string>, x: string): (r: seq<string>)
    ensures NoDup(s) ==> NoDup(r)
    ensures forall y :: y in r <==> y in s || y == x
  {
    if x in s then s else s + [x]
  }

  /** The frontend set after the partitioning loop has looked at `file`. */
  function FrontendAfter(dirs: seq<string>, file: string, frontendPrefix: string): seq<string> {
    if StartsWith(file, frontendPrefix) then
      var dir := TopDir(file[|frontendPrefix|..]);
      if dir != "" && !IsTestDir(dir) then SetAdd(dirs, dir) else dirs
    else dirs
  }

  /** The backend set after the partitioning loop has looked at `file`. */
  function BackendAfter(dirs: seq<string>, file: string, frontendPrefix: string, backendPrefix: string): seq<string> {
    if !StartsWith(file, frontendPrefix) && StartsWith(file, backendPrefix) then
      var dir := TopDir(file[|backendPrefix|..]);
      if dir != "" && !IsTestDir(dir) then SetAdd(dirs, dir) else dirs
    else dirs
  }

  /** One pass of the partitioning loop, frontend side: if the set held the
      directories `files[..i]` name, after `files[i]` it holds those
      `files[..i + 1]` name. */
  lemma FrontendStep(dirs: seq<string>, files: seq<string>, i: int, frontendPrefix: string)
    requires 0 <= i < |files|
    requires forall d :: d in dirs <==> exists j :: 0 <= j < i && FrontendDirOf(files[j], frontendPrefix, d)
    ensures forall d :: d in FrontendAfter(dirs, files[i], frontendPrefix) <==>
      exists j :: 0 <= j < i + 1 && FrontendDirOf(files[j], frontendPrefix, d)
  {
    forall d | d in FrontendAfter(dirs, files[i], frontendPrefix) && d !in dirs
      ensures FrontendDirOf(files[i], frontendPrefix, d)
    {
    }
  }

  /** The backend side of one pass of the partitioning loop. */
  lemma BackendStep(dirs: seq<string>, files: seq<string>, i: int, frontendPrefix: string, backendPrefix: string)
    requires 0 <= i < |files|
    requires forall d :: d in dirs <==> exists j :: 0 <= j < i && BackendDirOf(files[j], frontendPrefix, backendPrefix, d)
    ensures forall d :: d in BackendAfter(dirs, files[i], frontendPrefix, backendPrefix) <==>
      exists j :: 0 <= j < i + 1 && BackendDirOf(files[j], frontendPrefix, backendPrefix, d)
  {
    forall d | d in BackendAfter(dirs, files[i], frontendPrefix, backendPrefix) && d !in dirs
      ensures BackendDirOf(files[i], frontendPrefix, backendPrefix, d)
    {
    }
  }

  /** Partitions the staged paths (`None` when the version-control query failed)
      into the frontend and backend directories they touch. */
  method GetChangedDirs(staged: Option<seq<string>>, options: Options) returns (r: ChangedDirs)
    ensures staged.None? ==> r == ChangedDirs([], [], [])
    ensures staged.Some? ==> r.all == staged.value
    ensures Sorted(r.frontend) && NoDup(r.frontend)
    ensures Sorted(r.backend) && NoDup(r.backend)
    ensures forall d :: d in r.frontend <==>
      staged.Some? && (exists i :: 0 <= i < |staged.value| && FrontendDirOf(staged.value[i], FrontendPrefix(options), d))
    ensures forall d :: d in r.backend <==>
      staged.Some? && (exists i ::
                         0 <= i < |staged.value| &&
                         BackendDirOf(staged.value[i], FrontendPrefix(options), BackendPrefix(options), d))
  {
    var frontendPrefix := FrontendPrefix(options);
    var backendPrefix := BackendPrefix(options);
    if staged.None? || staged.value == [] {
      return ChangedDirs([], [], []);
    }
    var files := staged.value;
    var frontendDirs: seq<string> := [];
    var backendDirs: seq<string> := [];
    for i := 0 to |files|
      invariant NoDup(frontendDirs) && NoDup(backendDirs)
      invariant forall d :: d in frontendDirs <==>
        exists j :: 0 <= j < i && FrontendDirOf(files[j], frontendPrefix, d)
      invariant forall d :: d in backendDirs <==>
        exists j :: 0 <= j < i && BackendDirOf(files[j], frontendPrefix, backendPrefix, d)
    {
      var file := files[i];
      FrontendStep(frontendDirs, files, i, frontendPrefix);
      BackendStep(backendDirs, files, i, frontendPrefix, backendPrefix);
      ghost var frontendNext := FrontendAfter(frontendDirs, file, frontendPrefix);
      ghost var backendNext := BackendAfter(backendDirs, file, frontendPrefix, backendPrefix);
      if StartsWith(file, frontendPrefix) {
        var rest := file[|frontendPrefix|..];
        var dir := TopDir(rest);
        if dir != "" && !IsTestDir(dir) {
          frontendDirs := SetAdd(frontendDirs, dir);
        }
      } else if StartsWith(file, backendPrefix) {
        var rest := file[|backendPrefix|..];
        var dir := TopDir(rest);
        if dir != "" && !IsTestDir(dir) {
          backendDirs := SetAdd(backendDirs, dir);
        }
      }
      assert frontendDirs == frontendNext && backendDirs == backendNext;
    }
    SortSet(frontendDirs);
    SortSet(backendDirs);
    r := ChangedDirs(Sort(frontendDirs), Sort(backendDirs), files);
  }

  datatype ChangedFiles = ChangedFiles(frontend: seq<string>, backend: seq<string>)

  /** `/\.(js|jsx|ts|tsx)$/`. */
  predicate IsScriptSource(file: string) {
    EndsWith(file, ".js") || EndsWith(file, ".jsx") || EndsWith(file, ".ts") || EndsWith(file, ".tsx")
  }

  function FrontendDirPrefix(options: Options): string {
    OrDefault(options.frontendDir, "frontend") + "/"
  }

  function BackendDirPrefix(options: Options): string {
    OrDefault(options.backendDir, "backend") + "/"
  }

  /** `/\.py$/`. */
  predicate IsPythonSource(file: string) {
    EndsWith(file, ".py")
  }

  /** The staged script files under the frontend directory and the staged Python
      files under the backend directory, each in staging order. */
  function GetChangedFiles(staged: Option<seq<string>>, options: Options): (r: ChangedFiles)
    ensures staged.None? ==> r == ChangedFiles([], [])
    ensures staged.Some? ==> IsSubsequence(r.frontend, staged.value) && IsSubsequence(r.backend, staged.value)
    ensures forall f :: f in r.frontend <==>
      staged.Some? && f in staged.value && StartsWith(f, FrontendDirPrefix(options)) && IsScriptSource(f)
    ensures forall f :: f in r.backend <==>
      staged.Some? && f in staged.value && StartsWith(f, BackendDirPrefix(options)) && IsPythonSource(f)
  {
    if staged.None? || staged.value == [] then ChangedFiles([], [])
    else
      var files := staged.value;
      var frontendPrefix := FrontendDirPrefix(options);
      var backendPrefix := BackendDirPrefix(options);
      ChangedFiles(
        Filter((f: string) => StartsWith(f, frontendPrefix) && IsScriptSource(f), files),
        Filter((f: string) => StartsWith(f, backendPrefix) && IsPythonSource(f), files))
  }

  /** Each staged file a list accepts appears in it as often as it was staged. */
  lemma ChangedFilesCount(staged: Option<seq<string>>, options: Options, f: string)
    ensures var r := GetChangedFiles(staged, options);
      && multiset(r.frontend)[f] ==
         (if staged.Some? && StartsWith(f, FrontendDirPrefix(options)) && IsScriptSource(f) then multiset(staged.value)[f] else 0)
      && multiset(r.backend)[f] ==
         (if staged.Some? && StartsWith(f, BackendDirPrefix(options)) && IsPythonSource(f) then multiset(staged.value)[f] else 0)
  {
    if staged.Some? && staged.value != [] {
      var frontendPrefix := FrontendDirPrefix(options);
      var backendPrefix := BackendDirPrefix(options);
      if StartsWith(f, frontendPrefix) && IsScriptSource(f) {
        FilterKeepsCount((x: string) => StartsWith(x, frontendPrefix) && IsScriptSource(x), staged.value, f);
      }
      if StartsWith(f, backendPrefix) && IsPythonSource(f) {
        FilterKeepsCount((x: string) => StartsWith(x, backendPrefix) && IsPythonSource(x), staged.value, f);
      }
    }
  }
}
