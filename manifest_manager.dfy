/** The baseline manifest: its record, its age, the fingerprint of the linter
    configuration it was taken against, and the store it is read from and
    written to. The store maps a path to the content found there; parsing and
    printing JSON are not modelled, so a stored manifest is kept as a record and
    anything else at a path is text that does not parse as one. */
module ManifestManager {
  import opened Wrappers

  /** The fingerprint of a configuration file that does not exist. */
  const Unknown := "unknown"

  const MillisPerDay := 1000 * 60 * 60 * 24

  /** A baseline record. `createdAt` is in milliseconds since the epoch.
      `directoriesBaselined` is `None` when the stored record lacks the field. */
  datatype Manifest = Manifest(
    createdAt: int,
    tool: string,
    version: string,
    directoriesBaselined: Option<seq<string>>,
    totalDirectories: int,
    totalViolations: int,
    configHash: string,
    testExcluded: seq<string>)

  /** What a path holds: a well-formed manifest record, or text that is not one. */
  datatype Content = Text(text: string) | Record(manifest: Manifest)

  type Files = map<string, Content>

  /** The fingerprint of the file at `path`: `digest` of its content, or the
      sentinel when there is no file. `digest` is an opaque function of content. */
  function Fingerprint(digest: Content -> string, files: Files, path: string): (h: string)
    ensures path !in files ==> h == Unknown
    ensures path in files ==> h == digest(files[path])
  {
    if path !in files then Unknown else digest(files[path])
  }

  /** Two files with equal content have equal fingerprints. */
  lemma SameContentSameFingerprint(digest: Content -> string, files: Files, p: string, q: string)
    requires p in files && q in files && files[p] == files[q]
    ensures Fingerprint(digest, files, p) == Fingerprint(digest, files, q)
  {
  }

  /** With a digest of fixed 32-character width (an MD5 hex string), the sentinel
      appears exactly when the file is missing. */
  lemma FingerprintUnknownIffMissing(digest: Content -> string, files: Files, path: string)
    requires forall c :: |digest(c)| == 32
    ensures Fingerprint(digest, files, path) == Unknown <==> path !in files
  {
    if path in files {
      assert |digest(files[path])| == 32;
    }
  }

  /** Whole days elapsed from `createdAt` to `now`, rounded down. */
  function CalculateAge(createdAt: int, now: int): (days: int)
    ensures days * MillisPerDay <= now - createdAt < (days + 1) * MillisPerDay
  {
    (now - createdAt) / MillisPerDay
  }

  /** The age is the one whole number of days that brackets the elapsed time. */
  lemma AgeIsUnique(createdAt: int, now: int, days: int)
    requires days * MillisPerDay <= now - createdAt < (days + 1) * MillisPerDay
    ensures CalculateAge(createdAt, now) == days
  {
  }

  /** A baseline taken less than a day ago is 0 days old. */
  lemma AgeSameDay(createdAt: int, now: int)
    requires createdAt <= now < createdAt + MillisPerDay
    ensures CalculateAge(createdAt, now) == 0
  {
    AgeIsUnique(createdAt, now, 0);
  }

  /** A baseline taken exactly `days` days ago is `days` days old. */
  lemma AgeOfDaysAgo(now: int, days: int)
    ensures CalculateAge(now - days * MillisPerDay, now) == days
  {
    AgeIsUnique(now - days * MillisPerDay, now, days);
  }

  /** The record `createManifest` builds from its inputs, the clock reading and
      the configuration fingerprint; `testExcluded` is optional and defaults to none. */
  function NewManifest(
    createdAt: int, tool: string, version: string, directories: seq<string>,
    violations: int, configHash: string, testExcluded: Option<seq<string>>): (m: Manifest)
    ensures m.createdAt == createdAt && m.tool == tool && m.version == version
    ensures m.directoriesBaselined == Some(directories)
    ensures m.totalDirectories == |directories|
    ensures m.totalViolations == violations
    ensures m.configHash == configHash
    ensures m.testExcluded == testExcluded.GetOr([])
  {
    Manifest(createdAt, tool, version, Some(directories), |directories|, violations, configHash, testExcluded.GetOr([]))
  }

  /** What reading `path` yields: the stored record, or `None` when nothing is
      there or what is there does not parse as a manifest. */
  function Lookup(files: Files, path: string): (r: Option<Manifest>)
    ensures r.Some? <==> path in files && files[path].Record?
    ensures r.Some? ==> files[path] == Record(r.value)
  {
    if path in files && files[path].Record? then Some(files[path].manifest) else None
  }

  /** Reading a path just written yields the record written. */
  lemma ReadBackWritten(files: Files, path: string, m: Manifest)
    ensures Lookup(files[path := Record(m)], path) == Some(m)
  {
  }

  /** Writing one path changes what no other path reads or fingerprints to. */
  lemma WriteLeavesOtherPaths(digest: Content -> string, files: Files, path: string, other: string, m: Manifest)
    requires other != path
    ensures Lookup(files[path := Record(m)], other) == Lookup(files, other)
    ensures Fingerprint(digest, files[path := Record(m)], other) == Fingerprint(digest, files, other)
  {
  }

  /** The file store the manifest manager reads and writes. */
  class ManifestStore {
    const digest: Content -> string
    var files: Files

    constructor (digest: Content -> string, files: Files)
      ensures this.digest == digest && this.files == files
    {
      this.digest := digest;
      this.files := files;
    }

    /** `hashFile`: the fingerprint of the file at `path`. */
    method HashFile(path: string) returns (h: string)
      ensures h == Fingerprint(digest, files, path)
    {
      if path !in files {
        return Unknown;
      }
      h := digest(files[path]);
    }

    /** `createManifest`: a new record for the given inputs, fingerprinting the
        configuration at `configPath` and stamping it with `now`. */
    method CreateManifest(
      tool: string, version: string, directories: seq<string>, violations: int,
      configPath: string, testExcluded: Option<seq<string>>, now: int) returns (m: Manifest)
      ensures m == NewManifest(now, tool, version, directories, violations, Fingerprint(digest, files, configPath), testExcluded)
    {
      var configHash := HashFile(configPath);
      m := NewManifest(now, tool, version, directories, violations, configHash, testExcluded);
    }

    /** `readManifest`: the record at `path`, or `None` for a missing or corrupt file. */
    method ReadManifest(path: string) returns (r: Option<Manifest>)
      ensures r == Lookup(files, path)
    {
      if path !in files {
        return None;
      }
      match files[path]
      case Text(_) => r := None;
      case Record(m) => r := Some(m);
    }

    /** `writeManifest`: replaces whatever is at `path` with the record. The map
        has no separate directory entries, so missing parent directories need
        no creating. */
    method WriteManifest(path: string, m: Manifest)
      modifies this`files
      ensures files == old(files)[path := Record(m)]
    {
      files := files[path := Record(m)];
    }
  }
}
