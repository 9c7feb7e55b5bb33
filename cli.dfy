/**
 * src/cli.ts: the backup session of `start` (every tracked root is scanned in
 * turn, every processed file is struck off the listing of the object store,
 * and whatever is left over is deleted as outdated), `ensureAbsolute` and
 * `getCommonIgnorePatterns`. The configuration, the directory trees, the
 * watcher's events and the contents of the common-ignore file are parameters.
 */
module Cli {
  import opened Wrappers
  import opened Text
  import opened Paths
  import opened Ignore
  import opened Daemon

  /** The fields of the configuration that `start` reads. */
  datatype Config = Config(trackPaths: seq<string>, ignorePatterns: seq<string>, ignoreFrom: seq<string>, maxFileSize: int)

  /** What `start` logs when it completes: how many outdated objects it removed and how many files it keeps track of. */
  datatype Summary = Summary(outdated: nat, indexCount: nat)

  /** The events the watcher reports on a root, given the ignore patterns it is started with, until the persist queue drains. */
  type Watcher = (string, seq<string>) -> seq<WatchEvent>

  /** The object names the callbacks carry. */
  function ReportedNames(reports: seq<Report>): set<string> {
    set r | r in reports :: r.objectName
  }

  lemma ReportedNamesConcat(a: seq<Report>, b: seq<Report>)
    ensures ReportedNames(a + b) == ReportedNames(a) + ReportedNames(b)
  {
    assert forall r :: r in a + b <==> r in a || r in b;
  }

  /**
   * The pattern list a root is watched with: the configured patterns followed
   * by those the rule files under the root give; none when the walk fails.
   */
  function RootPatterns(config: Config, target: string, tree: string -> Dir): Option<seq<string>>
  {
    var collected := CollectIgnoreFilePatterns(target, tree(target), config.ignoreFrom);
    if collected.None? then None else Some(config.ignorePatterns + collected.value)
  }

  /** Without rule-file names a root is watched with exactly the configured patterns. */
  lemma RootPatternsWithoutRuleFiles(config: Config, target: string, tree: string -> Dir)
    requires config.ignoreFrom == []
    ensures RootPatterns(config, target, tree).Some? ==> RootPatterns(config, target, tree).value == config.ignorePatterns
  {
    CollectWithoutRuleFiles(target, tree(target));
    if RootPatterns(config, target, tree).Some? {
      assert config.ignorePatterns + [] == config.ignorePatterns;
    }
  }

  /**
   * The state of a session between roots: the store, the names not yet
   * reported (`unhandledObjects`), `indexCount`, the callbacks so far, and
   * whether a root's walk failed, which rejects `start`.
   */
  datatype Session = Session(objects: map<string, StoredObject>, unhandled: set<string>, indexCount: nat,
                             reports: seq<Report>, aborted: bool)

  /** One root: its patterns are collected, its daemon runs, and each callback strikes its name off and counts. */
  function RootStep(s: Session, target: string, config: Config, tree: string -> Dir, watch: Watcher,
                    sources: map<string, SourceFile>, hash: string -> string): Session
  {
    var patterns := RootPatterns(config, target, tree);
    if patterns.None? then s.(aborted := true)
    else
      var run := DaemonSpec(s.objects, watch(target, patterns.value), sources, hash, config.maxFileSize);
      Session(run.objects, s.unhandled - ReportedNames(run.reports), s.indexCount + |run.reports|,
              s.reports + run.reports, false)
  }

  /** The roots one at a time in order; once a walk fails nothing further runs. */
  function RunRoots(s: Session, roots: seq<string>, config: Config, tree: string -> Dir, watch: Watcher,
                    sources: map<string, SourceFile>, hash: string -> string): Session
    decreases |roots|
  {
    if roots == [] || s.aborted then s
    else RunRoots(RootStep(s, roots[0], config, tree, watch, sources, hash), roots[1..], config, tree, watch, sources, hash)
  }

  /** The session over every tracked root, starting from the listing of the object store. */
  function SessionOf(config: Config, objects: map<string, StoredObject>, tree: string -> Dir, watch: Watcher,
                     sources: map<string, SourceFile>, hash: string -> string): Session
  {
    RunRoots(Session(objects, objects.Keys, 0, [], false), config.trackPaths, config, tree, watch, sources, hash)
  }

  /** The store after `start` and whether it completes. */
  datatype StartOutcome = StartOutcome(objects: map<string, StoredObject>, result: Result<Summary>)

  /**
   * `start`: a failed walk rejects before anything is deleted; otherwise every
   * unreported name is removed, and the call rejects if one of them is gone
   * already (`fs.rm` of a missing file; the other removals still happen).
   */
  function StartSpec(config: Config, objects: map<string, StoredObject>, tree: string -> Dir, watch: Watcher,
                     sources: map<string, SourceFile>, hash: string -> string): StartOutcome
  {
    var s := SessionOf(config, objects, tree, watch, sources, hash);
    if s.aborted then StartOutcome(s.objects, Failure("cannot list a tracked directory"))
    else StartOutcome(s.objects - s.unhandled,
                      if s.unhandled <= s.objects.Keys then Success(Summary(|s.unhandled|, s.indexCount))
                      else Failure("no such object file"))
  }

  /** The callbacks of one root, in order: each strikes its object name off and counts one. */
  method OnProcessed(unhandled: set<string>, count: nat, rootReports: seq<Report>)
    returns (unhandledObjects: set<string>, indexCount: nat)
    ensures unhandledObjects == unhandled - ReportedNames(rootReports)
    ensures indexCount == count + |rootReports|
  {
    unhandledObjects, indexCount := unhandled, count;
    for j := 0 to |rootReports|
      invariant unhandledObjects == unhandled - ReportedNames(rootReports[..j])
      invariant indexCount == count + j
    {
      ReportedNamesConcat(rootReports[..j], [rootReports[j]]);
      assert rootReports[..j + 1] == rootReports[..j] + [rootReports[j]];
      indexCount := indexCount + 1;
      unhandledObjects := unhandledObjects - {rootReports[j].objectName};
    }
    assert rootReports[..|rootReports|] == rootReports;
  }

  /**
   * The scan of `start`: every tracked root in order, its patterns collected
   * and its daemon run, each callback (`onProcessed`) striking its object
   * name off the unhandled names and counting it.
   */
  method ScanRoots(config: Config, store: ObjectStore, tree: string -> Dir, watch: Watcher,
                   sources: map<string, SourceFile>, hash: string -> string, now: int)
    returns (unhandledObjects: set<string>, indexCount: nat, ghost reports: seq<Report>, aborted: bool)
    modifies store
    ensures Session(store.objects, unhandledObjects, indexCount, reports, aborted)
         == SessionOf(config, old(store.objects), tree, watch, sources, hash)
  {
    reports := [];
    indexCount := 0;
    unhandledObjects := store.objects.Keys;
    aborted := false;
    var i := 0;
    while i < |config.trackPaths|
      invariant 0 <= i <= |config.trackPaths|
      invariant RunRoots(Session(store.objects, unhandledObjects, indexCount, reports, false), config.trackPaths[i..],
                         config, tree, watch, sources, hash)
             == SessionOf(config, old(store.objects), tree, watch, sources, hash)
    {
      assert config.trackPaths[i..][0] == config.trackPaths[i] && config.trackPaths[i..][1..] == config.trackPaths[i + 1..];
      unhandledObjects, indexCount, reports, aborted :=
        ScanRoot(config, config.trackPaths[i], store, tree, watch, sources, hash, now, unhandledObjects, indexCount, reports);
      if aborted {
        return;
      }
      i := i + 1;
    }
  }

  /**
   * One tracked root of the scan: the configured patterns followed by the
   * collected ones, the daemon started with them, and its callbacks handled.
   */
  method ScanRoot(config: Config, target: string, store: ObjectStore, tree: string -> Dir, watch: Watcher,
                  sources: map<string, SourceFile>, hash: string -> string, now: int,
                  unhandled: set<string>, count: nat, ghost reportsBefore: seq<Report>)
    returns (unhandledObjects: set<string>, indexCount: nat, ghost reports: seq<Report>, aborted: bool)
    modifies store
    ensures Session(store.objects, unhandledObjects, indexCount, reports, aborted)
         == RootStep(Session(old(store.objects), unhandled, count, reportsBefore, false), target, config, tree, watch, sources, hash)
  {
    unhandledObjects, indexCount, reports := unhandled, count, reportsBefore;
    var collected := CollectIgnoreFilePatterns(target, tree(target), config.ignoreFrom);
    if collected.None? {
      return unhandledObjects, indexCount, reports, true;
    }
    var ignorePatterns := config.ignorePatterns + collected.value;
    var rootReports := RunDaemon(store, watch(target, ignorePatterns), sources, hash, config.maxFileSize, now);
    unhandledObjects, indexCount := OnProcessed(unhandledObjects, indexCount, rootReports);
    reports := reports + rootReports;
    aborted := false;
  }

  /** The removal of the leftovers: every name is removed, and `missing` tells whether some was already gone. */
  method RemoveOrphans(store: ObjectStore, filesToRemove: set<string>) returns (missing: bool)
    modifies store
    ensures store.objects == old(store.objects) - filesToRemove
    ensures missing <==> !(filesToRemove <= old(store.objects).Keys)
  {
    var pending := filesToRemove;
    missing := false;
    while pending != {}
      invariant pending <= filesToRemove
      invariant store.objects == old(store.objects) - (filesToRemove - pending)
      invariant missing <==> !(filesToRemove - pending <= old(store.objects).Keys)
      decreases pending
    {
      var file :| file in pending;
      var removed := store.RemoveObject(file);
      missing := missing || !removed;
      pending := pending - {file};
    }
  }

  /**
   * `start`: lists the object store, scans every tracked root, then removes
   * the names nobody reported.
   */
  method Start(config: Config, store: ObjectStore, tree: string -> Dir, watch: Watcher,
               sources: map<string, SourceFile>, hash: string -> string, now: int) returns (result: Result<Summary>)
    modifies store
    ensures StartOutcome(store.objects, result) == StartSpec(config, old(store.objects), tree, watch, sources, hash)
  {
    var unhandledObjects, indexCount, reports, aborted := ScanRoots(config, store, tree, watch, sources, hash, now);
    if aborted {
      return Failure("cannot list a tracked directory");
    }
    var missing := RemoveOrphans(store, unhandledObjects);
    if missing {
      result := Failure("no such object file");
    } else {
      result := Success(Summary(|unhandledObjects|, indexCount));
    }
  }

  // ---------------------------------------------------------------------------
  // Properties of the session
  // ---------------------------------------------------------------------------

  /** A report is about a present source and names that source's object. */
  predicate FromSource(r: Report, sources: map<string, SourceFile>, hash: string -> string) {
    r.filePath in sources && r.objectName == ObjectFilename(hash, r.filePath)
  }

  /**
   * The bookkeeping of the callbacks: the unhandled names are the listing
   * minus every reported name, `indexCount` is the number of callbacks, and
   * every callback is about a present source under its own object name.
   */
  ghost predicate Bookkept(s: Session, listing: set<string>, sources: map<string, SourceFile>, hash: string -> string) {
    && s.unhandled == listing - ReportedNames(s.reports)
    && s.indexCount == |s.reports|
    && forall r <- s.reports :: FromSource(r, sources, hash)
  }

  lemma RootStepBookkept(s: Session, target: string, config: Config, tree: string -> Dir, watch: Watcher,
                         sources: map<string, SourceFile>, hash: string -> string, listing: set<string>)
    requires Bookkept(s, listing, sources, hash)
    ensures Bookkept(RootStep(s, target, config, tree, watch, sources, hash), listing, sources, hash)
  {
    var patterns := RootPatterns(config, target, tree);
    if patterns.Some? {
      var events := watch(target, patterns.value);
      var run := DaemonSpec(s.objects, events, sources, hash, config.maxFileSize);
      ReportedNamesConcat(s.reports, run.reports);
      DaemonReportsSound(s.objects, events, sources, hash, config.maxFileSize);
      assert forall r <- run.reports :: FromSource(r, sources, hash);
    }
  }

  /** Every root keeps the bookkeeping. */
  lemma {:induction false} RunRootsBookkept(s: Session, roots: seq<string>, config: Config, tree: string -> Dir,
                                           watch: Watcher, sources: map<string, SourceFile>, hash: string -> string,
                                           listing: set<string>)
    requires Bookkept(s, listing, sources, hash)
    ensures Bookkept(RunRoots(s, roots, config, tree, watch, sources, hash), listing, sources, hash)
    decreases |roots|
  {
    if roots != [] && !s.aborted {
      RootStepBookkept(s, roots[0], config, tree, watch, sources, hash, listing);
      RunRootsBookkept(RootStep(s, roots[0], config, tree, watch, sources, hash), roots[1..], config, tree, watch,
                       sources, hash, listing);
    }
  }

  /** The session over every tracked root keeps its books against the listing it started from. */
  lemma SessionBookkeeping(config: Config, objects: map<string, StoredObject>, tree: string -> Dir, watch: Watcher,
                           sources: map<string, SourceFile>, hash: string -> string)
    ensures Bookkept(SessionOf(config, objects, tree, watch, sources, hash), objects.Keys, sources, hash)
  {
    assert ReportedNames([]) == {};
    RunRootsBookkept(Session(objects, objects.Keys, 0, [], false), config.trackPaths, config, tree, watch, sources, hash,
                     objects.Keys);
  }

  /**
   * What `start` deletes: after a failed walk, nothing; otherwise exactly the
   * listed names nobody reported. A reported name is never deleted, and
   * neither is an object the session itself created.
   */
  lemma DeletesExactlyOrphans(config: Config, objects: map<string, StoredObject>, tree: string -> Dir, watch: Watcher,
                              sources: map<string, SourceFile>, hash: string -> string)
    ensures var s := SessionOf(config, objects, tree, watch, sources, hash);
      var out := StartSpec(config, objects, tree, watch, sources, hash);
      && (s.aborted ==> out.objects == s.objects && out.result.Failure?)
      && (!s.aborted ==> forall n <- s.objects ::
            (n !in out.objects <==> n in objects && n !in ReportedNames(s.reports)))
      && (!s.aborted && out.result.Success? ==> out.result.value.indexCount == |s.reports|)
  {
    SessionBookkeeping(config, objects, tree, watch, sources, hash);
  }

  /**
   * An object whose path has no readable source (its persist throws before
   * any callback) is deleted as outdated at the end of a session that
   * completes its walks.
   */
  lemma FailedPersistOrphaned(config: Config, objects: map<string, StoredObject>, tree: string -> Dir, watch: Watcher,
                              sources: map<string, SourceFile>, hash: string -> string, name: string)
    requires name in objects
    requires forall q <- sources :: ObjectFilename(hash, q) != name
    requires !SessionOf(config, objects, tree, watch, sources, hash).aborted
    ensures name !in StartSpec(config, objects, tree, watch, sources, hash).objects
  {
    var s := SessionOf(config, objects, tree, watch, sources, hash);
    SessionBookkeeping(config, objects, tree, watch, sources, hash);
    assert name !in ReportedNames(s.reports);
  }

  // ---------------------------------------------------------------------------
  // ensureAbsolute and getCommonIgnorePatterns
  // ---------------------------------------------------------------------------

  /**
   * `ensureAbsolute`: the input as given when its trimmed form is absolute,
   * otherwise the trimmed form resolved against the working directory. Either
   * way the trimmed result is absolute.
   */
  function EnsureAbsolute(pathValue: string, cwd: string): (r: string)
    requires IsAbsolute(cwd)
    ensures IsAbsolute(Trim(r))
    ensures IsAbsolute(Trim(pathValue)) ==> r == pathValue
    ensures !IsAbsolute(Trim(pathValue)) ==> r == Resolve(cwd, Trim(pathValue))
  {
    if IsAbsolute(Trim(pathValue)) then pathValue
    else
      var r := Resolve(cwd, Trim(pathValue));
      TrimKeepsFirst(r);
      r
  }

  /**
   * A relative path without surrounding whitespace or a trailing separator is
   * made absolute by joining it onto the working directory.
   */
  lemma EnsureAbsoluteJoins(pathValue: string, cwd: string)
    requires IsAbsolute(cwd)
    requires pathValue != [] && !IsJsWhitespace(pathValue[0]) && !IsJsWhitespace(pathValue[|pathValue| - 1])
    requires !IsAbsolute(pathValue) && pathValue[|pathValue| - 1] != '/'
    ensures EnsureAbsolute(pathValue, cwd) == Join(cwd, pathValue)
  {
    TrimUnchanged(pathValue);
    ResolveIsJoin(cwd, pathValue);
  }

  /** The prefix that makes a common pattern match at any depth below a tracked root. */
  const AnyDepth: string := "*/**"

  /**
   * `getCommonIgnorePatterns`: each rule of the bundled common-ignore file,
   * joined onto `AnyDepth`. None of them is absolute.
   */
  function GetCommonIgnorePatterns(fileContent: string): (r: seq<string>)
    ensures |r| == |ParseIgnoreFileContent(fileContent)|
    ensures forall k :: 0 <= k < |r| ==> !IsAbsolute(r[k])
  {
    JoinAll(AnyDepth, ParseIgnoreFileContent(fileContent))
  }

  /** `AnyDepth` is a clean relative path: the names `*` and `**`. */
  lemma AnyDepthClean()
    ensures IsCleanRelative(AnyDepth)
  {
    SplitNoSep("**", '/');
    SplitPrefix("*", "**", '/');
    assert AnyDepth == "*" + ['/'] + "**";
  }

  /** A rule that is a clean relative path becomes `AnyDepth`, a separator and the rule. */
  lemma CommonPatternShape(fileContent: string, k: nat)
    requires k < |ParseIgnoreFileContent(fileContent)|
    requires IsCleanRelative(ParseIgnoreFileContent(fileContent)[k])
    ensures GetCommonIgnorePatterns(fileContent)[k] == AnyDepth + "/" + ParseIgnoreFileContent(fileContent)[k]
  {
    var line := ParseIgnoreFileContent(fileContent)[k];
    AnyDepthClean();
    JoinClean(AnyDepth, line);
  }
}
