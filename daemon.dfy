/**
 * src/daemon.ts: naming objects after source paths, deciding whether an
 * object is still current, archiving a source file into the object store,
 * removing an object when its source goes away, and routing watcher events to
 * those two workers. The object store is a map from object file name to the
 * stored object; the source tree is a map from path to what `stat` and a read
 * of that path return (a path missing from it cannot be stat'ed). SHA-1 is the
 * parameter `hash`.
 */
module Daemon {
  import opened Wrappers
  import opened Text
  import opened Gzip

  /** A source file as `stat` and a read see it: size in bytes, modification time in milliseconds, contents. */
  datatype SourceFile = SourceFile(size: int, mtime: int, data: Bytes)

  /** What an object file holds: a gzipped tarball of entries, or bytes that do not decompress into one. */
  datatype Payload = Tarball(entries: seq<ArchivedFile>) | Corrupt

  /** An object file: its payload and its own modification time in milliseconds. */
  datatype StoredObject = StoredObject(payload: Payload, mtime: int)

  /** The callback a completed `persistFile` fires, with the object name and the source path. */
  datatype Report = Skipped(objectName: string, filePath: string) | Persisted(objectName: string, filePath: string)

  function Lookup<K, V>(m: map<K, V>, k: K): Option<V> {
    if k in m then Some(m[k]) else None
  }

  // ---------------------------------------------------------------------------
  // getObjectFilename, isObjectRelevant
  // ---------------------------------------------------------------------------

  /** `getObjectFilename`: the hash of the path followed by `.gz`; it depends on the path alone. */
  function ObjectFilename(hash: string -> string, filePath: string): (name: string)
    ensures EndsWith(name, ".gz")
    ensures |name| == |hash(filePath)| + 3 && name[..|hash(filePath)|] == hash(filePath)
  {
    hash(filePath) + ".gz"
  }

  /** Two paths share an object exactly when their hashes coincide. */
  lemma SharedObjectIffSameHash(hash: string -> string, p: string, q: string)
    ensures ObjectFilename(hash, p) == ObjectFilename(hash, q) <==> hash(p) == hash(q)
  {
    if ObjectFilename(hash, p) == ObjectFilename(hash, q) {
      assert hash(p) == ObjectFilename(hash, p)[..|hash(p)|];
    }
  }

  /** `String(date)` shows whole seconds: the time in seconds, rounded down, is all the comparison sees. */
  function RenderedSecond(ms: int): int {
    ms / 1000
  }

  /**
   * `isObjectRelevant`: the object can be stat'ed and its modification time
   * renders like the source's. Equal times are always relevant; times a second
   * or more apart never are; an object that cannot be stat'ed never is.
   */
  function IsObjectRelevant(source: SourceFile, obj: Option<StoredObject>): (relevant: bool)
    ensures obj.None? ==> !relevant
    ensures obj.Some? && obj.value.mtime == source.mtime ==> relevant
    ensures relevant ==> -1000 < obj.value.mtime - source.mtime < 1000
  {
    obj.Some? && RenderedSecond(obj.value.mtime) == RenderedSecond(source.mtime)
  }

  /**
   * The whole-second rendering cannot tell apart two modifications in the same
   * second: a source changed 999 ms after the stamped time still counts as
   * archived.
   */
  lemma SameSecondChangeLooksCurrent(second: int, payload: Payload, size: int, data: Bytes)
    ensures IsObjectRelevant(SourceFile(size, second * 1000 + 999, data), Some(StoredObject(payload, second * 1000)))
  {
    assert (second * 1000 + 999) / 1000 == second;
    assert (second * 1000) / 1000 == second;
  }

  // ---------------------------------------------------------------------------
  // persistFile and the unlink worker
  // ---------------------------------------------------------------------------

  /** The gzip filter without ignore patterns consults no matcher; this one matches nothing. */
  function NoMatch(path: string, pattern: string): bool {
    false
  }

  /** The object `persistFile` writes for a source: its single-file archive, stamped with the source's time. */
  function ArchiveOf(filePath: string, source: SourceFile, maxFileSize: int): StoredObject {
    StoredObject(Tarball(GzipFile(filePath, source.size, source.mtime, source.data,
                                  GzipOptions(None, maxFileSize, ""), NoMatch)), source.mtime)
  }

  /** The store after a `persistFile` call on `filePath`, and the callback it fires, if any. */
  datatype PersistOutcome = PersistOutcome(objects: map<string, StoredObject>, report: Option<Report>)

  /**
   * The effect of `persistFile`: a source that cannot be stat'ed makes the call
   * throw (the worker swallows it: nothing changes, nothing is reported); a
   * current object is skipped; otherwise the object is rewritten and stamped.
   */
  function PersistSpec(objects: map<string, StoredObject>, filePath: string, source: Option<SourceFile>,
                       hash: string -> string, maxFileSize: int): PersistOutcome
  {
    var name := ObjectFilename(hash, filePath);
    if source.None? then PersistOutcome(objects, None)
    else if IsObjectRelevant(source.value, Lookup(objects, name)) then PersistOutcome(objects, Some(Skipped(name, filePath)))
    else PersistOutcome(objects[name := ArchiveOf(filePath, source.value, maxFileSize)], Some(Persisted(name, filePath)))
  }

  /**
   * `persistFile` as written: the `gzip` call hands the destination string
   * over as the options argument, so `options.destination` is undefined and
   * creating the write stream throws. Every call that is not a skip rejects
   * before anything is written, stamped or reported.
   */
  function PersistSpecAsWritten(objects: map<string, StoredObject>, filePath: string, source: Option<SourceFile>,
                                hash: string -> string): PersistOutcome
  {
    var name := ObjectFilename(hash, filePath);
    if source.Some? && IsObjectRelevant(source.value, Lookup(objects, name)) then PersistOutcome(objects, Some(Skipped(name, filePath)))
    else PersistOutcome(objects, None)
  }

  /**
   * As written, persisting never changes the store and reports only skips;
   * where the intended call writes and reports a new object, the call as
   * written reports nothing.
   */
  lemma PersistAsWrittenNeverWrites(objects: map<string, StoredObject>, filePath: string, source: Option<SourceFile>,
                                    hash: string -> string, maxFileSize: int)
    ensures var written := PersistSpecAsWritten(objects, filePath, source, hash);
      var intended := PersistSpec(objects, filePath, source, hash, maxFileSize);
      && written.objects == objects
      && (intended.report.Some? && intended.report.value.Skipped? ==> written == intended)
      && (intended.report.Some? && intended.report.value.Persisted? ==> written.report.None? && intended.objects != objects)
  {
    var name := ObjectFilename(hash, filePath);
    var intended := PersistSpec(objects, filePath, source, hash, maxFileSize);
    if intended.report.Some? && intended.report.value.Persisted? {
      assert intended.objects[name].mtime == source.value.mtime;
      assert name !in objects || objects[name].mtime != source.value.mtime;
    }
  }

  /** The object store of one backup directory. */
  class ObjectStore {
    var objects: map<string, StoredObject>

    constructor(initial: map<string, StoredObject>)
      ensures objects == initial
    {
      objects := initial;
    }

    /**
     * `persistFile`: names the object, stats the source, skips a current
     * object, otherwise writes the archive (the write gets the time `now`)
     * and then sets its modification time to the source's.
     */
    method PersistFile(filePath: string, source: Option<SourceFile>, hash: string -> string, maxFileSize: int, now: int)
      returns (report: Option<Report>)
      modifies this
      ensures PersistOutcome(objects, report) == PersistSpec(old(objects), filePath, source, hash, maxFileSize)
    {
      var name := ObjectFilename(hash, filePath);
      if source.None? {
        return None;
      }
      var origStat := source.value;
      var existing := if name in objects then Some(objects[name]) else None;
      if IsObjectRelevant(origStat, existing) {
        return Some(Skipped(name, filePath));
      }
      var archive := GzipFile(filePath, origStat.size, origStat.mtime, origStat.data,
                              GzipOptions(None, maxFileSize, ""), NoMatch);
      objects := objects[name := StoredObject(Tarball(archive), now)];
      objects := objects[name := objects[name].(mtime := origStat.mtime)];
      report := Some(Persisted(name, filePath));
    }

    /** `fs.rm` on an object file: removes it, and fails when there is no such object. */
    method RemoveObject(name: string) returns (removed: bool)
      modifies this
      ensures removed <==> name in old(objects)
      ensures objects == old(objects) - {name}
    {
      removed := name in objects;
      if removed {
        objects := objects - {name};
      }
    }

    /** The unlink worker: removes the object named after the path; a missing object is no error. */
    method Unlink(filePath: string, hash: string -> string)
      modifies this
      ensures objects == old(objects) - {ObjectFilename(hash, filePath)}
    {
      var _ := RemoveObject(ObjectFilename(hash, filePath));
    }
  }

  /** A call reports exactly when the source can be stat'ed, and always under the source's own object name. */
  lemma PersistReports(objects: map<string, StoredObject>, filePath: string, source: Option<SourceFile>,
                       hash: string -> string, maxFileSize: int)
    ensures var out := PersistSpec(objects, filePath, source, hash, maxFileSize);
      && (out.report.Some? <==> source.Some?)
      && (out.report.Some? ==> out.report.value.objectName == ObjectFilename(hash, filePath)
                               && out.report.value.filePath == filePath)
      && (out.report.Some? && out.report.value.Skipped? ==> out.objects == objects)
  {
  }

  /** Persisting touches no object but the source's own. */
  lemma PersistOnlyOwnObject(objects: map<string, StoredObject>, filePath: string, source: Option<SourceFile>,
                             hash: string -> string, maxFileSize: int, other: string)
    requires other != ObjectFilename(hash, filePath)
    ensures var out := PersistSpec(objects, filePath, source, hash, maxFileSize).objects;
      (other in out <==> other in objects) && (other in objects ==> out[other] == objects[other])
  {
  }

  /** Once persisted, the object carries the source's time, so persisting the unchanged source again is a skip. */
  lemma PersistThenSkip(objects: map<string, StoredObject>, filePath: string, source: SourceFile,
                        hash: string -> string, maxFileSize: int)
    ensures var once := PersistSpec(objects, filePath, Some(source), hash, maxFileSize);
      var twice := PersistSpec(once.objects, filePath, Some(source), hash, maxFileSize);
      twice.objects == once.objects && twice.report == Some(Skipped(ObjectFilename(hash, filePath), filePath))
  {
    var name := ObjectFilename(hash, filePath);
    var once := PersistSpec(objects, filePath, Some(source), hash, maxFileSize);
    assert IsObjectRelevant(source, Lookup(once.objects, name)) by {
      if !IsObjectRelevant(source, Lookup(objects, name)) {
        assert Lookup(once.objects, name) == Some(ArchiveOf(filePath, source, maxFileSize));
      }
    }
  }

  /** A persisted object holds the source's contents under its root-less path, unless the source is over the cap. */
  lemma PersistedArchive(objects: map<string, StoredObject>, filePath: string, source: SourceFile,
                         hash: string -> string, maxFileSize: int)
    requires !IsObjectRelevant(source, Lookup(objects, ObjectFilename(hash, filePath)))
    ensures var obj := PersistSpec(objects, filePath, Some(source), hash, maxFileSize).objects[ObjectFilename(hash, filePath)];
      && obj.mtime == source.mtime
      && obj.payload.Tarball?
      && (source.size <= maxFileSize ==> obj.payload.entries == [ArchivedFile(ArchivePath(filePath), source.mtime, source.data)])
      && (source.size > maxFileSize ==> obj.payload.entries == [])
  {
  }

  // ---------------------------------------------------------------------------
  // Event routing in startDaemonOn
  // ---------------------------------------------------------------------------

  /** What the watcher reports about a path. */
  datatype WatchEvent = Add(path: string) | Change(path: string) | Remove(path: string)

  /** Where an event goes: the persist queue with a priority, or the unlink queue. */
  datatype Task = PersistTask(path: string, priority: int) | UnlinkTask(path: string)

  /** `add` is queued for persisting with priority 1, `change` with priority 0, `unlink` goes to the unlink queue. */
  function Route(e: WatchEvent): (t: Task)
    ensures t.path == e.path
    ensures t.PersistTask? <==> !e.Remove?
    ensures t.PersistTask? ==> (t.priority == 1 <==> e.Add?) && (t.priority == 0 <==> e.Change?)
  {
    match e
    case Add(p) => PersistTask(p, 1)
    case Change(p) => PersistTask(p, 0)
    case Remove(p) => UnlinkTask(p)
  }

  /** The store and the callbacks after a run of the daemon over a sequence of events. */
  datatype DaemonRun = DaemonRun(objects: map<string, StoredObject>, reports: seq<Report>)

  /** One routed task carried out on the store. */
  function TaskEffect(run: DaemonRun, t: Task, sources: map<string, SourceFile>, hash: string -> string,
                      maxFileSize: int): DaemonRun
  {
    match t
    case PersistTask(p, _) =>
      var out := PersistSpec(run.objects, p, Lookup(sources, p), hash, maxFileSize);
      DaemonRun(out.objects, run.reports + (if out.report.Some? then [out.report.value] else []))
    case UnlinkTask(p) =>
      DaemonRun(run.objects - {ObjectFilename(hash, p)}, run.reports)
  }

  /** The events, each routed and carried out in the order they arrive. */
  function DaemonSpec(objects: map<string, StoredObject>, events: seq<WatchEvent>, sources: map<string, SourceFile>,
                      hash: string -> string, maxFileSize: int): DaemonRun
  {
    if events == [] then DaemonRun(objects, [])
    else TaskEffect(DaemonSpec(objects, events[..|events| - 1], sources, hash, maxFileSize),
                    Route(events[|events| - 1]), sources, hash, maxFileSize)
  }

  /** The number of `unlink` events among the events. */
  function UnlinkCount(events: seq<WatchEvent>): (n: nat)
    ensures n <= |events|
  {
    if events == [] then 0
    else UnlinkCount(events[..|events| - 1]) + (if events[|events| - 1].Remove? then 1 else 0)
  }

  /** How many tasks the unlink queue runs at once. */
  const UnlinkConcurrency := 10

  /**
   * The daemon as written. The unlink worker neither takes the queue's
   * completion callback nor is an `async` function, so the queue never sees
   * a task finish: the first `UnlinkConcurrency` unlink tasks of a run are
   * carried out and every later one waits for ever.
   */
  function DaemonSpecAsWritten(objects: map<string, StoredObject>, events: seq<WatchEvent>, sources: map<string, SourceFile>,
                               hash: string -> string, maxFileSize: int): DaemonRun
  {
    if events == [] then DaemonRun(objects, [])
    else
      var prefix := events[..|events| - 1];
      var before := DaemonSpecAsWritten(objects, prefix, sources, hash, maxFileSize);
      if events[|events| - 1].Remove? && UnlinkCount(prefix) >= UnlinkConcurrency then before
      else TaskEffect(before, Route(events[|events| - 1]), sources, hash, maxFileSize)
  }

  /** With at most `UnlinkConcurrency` unlink events the daemon as written does what is intended. */
  lemma {:induction false} AsWrittenAgreesWithinConcurrency(objects: map<string, StoredObject>, events: seq<WatchEvent>,
                                                           sources: map<string, SourceFile>, hash: string -> string, maxFileSize: int)
    requires UnlinkCount(events) <= UnlinkConcurrency
    ensures DaemonSpecAsWritten(objects, events, sources, hash, maxFileSize) == DaemonSpec(objects, events, sources, hash, maxFileSize)
  {
    if events != [] {
      AsWrittenAgreesWithinConcurrency(objects, events[..|events| - 1], sources, hash, maxFileSize);
    }
  }

  /** As written, an unlink event after the first `UnlinkConcurrency` of a run leaves the object in the store. */
  lemma UnlinkQueueStalls(objects: map<string, StoredObject>, events: seq<WatchEvent>, p: string,
                          sources: map<string, SourceFile>, hash: string -> string, maxFileSize: int)
    requires UnlinkCount(events) >= UnlinkConcurrency
    ensures DaemonSpecAsWritten(objects, events + [Remove(p)], sources, hash, maxFileSize)
         == DaemonSpecAsWritten(objects, events, sources, hash, maxFileSize)
  {
    assert (events + [Remove(p)])[..|events|] == events;
  }

  /** As intended, every unlink event removes the object of its path, whatever came before. */
  lemma UnlinkRemovesObject(objects: map<string, StoredObject>, events: seq<WatchEvent>, p: string,
                            sources: map<string, SourceFile>, hash: string -> string, maxFileSize: int)
    ensures var before := DaemonSpec(objects, events, sources, hash, maxFileSize);
      DaemonSpec(objects, events + [Remove(p)], sources, hash, maxFileSize)
      == DaemonRun(before.objects - {ObjectFilename(hash, p)}, before.reports)
  {
    assert (events + [Remove(p)])[..|events|] == events;
  }

  /**
   * `startDaemonOn` with its two queues collapsed: every event is routed and
   * its task is run to completion before the next event.
   */
  method RunDaemon(store: ObjectStore, events: seq<WatchEvent>, sources: map<string, SourceFile>,
                   hash: string -> string, maxFileSize: int, now: int) returns (reports: seq<Report>)
    modifies store
    ensures DaemonRun(store.objects, reports) == DaemonSpec(old(store.objects), events, sources, hash, maxFileSize)
  {
    reports := [];
    for i := 0 to |events|
      invariant DaemonRun(store.objects, reports) == DaemonSpec(old(store.objects), events[..i], sources, hash, maxFileSize)
    {
      assert events[..i + 1][..i] == events[..i];
      match Route(events[i]) {
        case PersistTask(p, _) =>
          var source := if p in sources then Some(sources[p]) else None;
          var report := store.PersistFile(p, source, hash, maxFileSize, now);
          if report.Some? {
            reports := reports + [report.value];
          }
        case UnlinkTask(p) =>
          store.Unlink(p, hash);
      }
    }
    assert events[..|events|] == events;
  }

  /** A report names the object of a path that is present among the sources and that some `add` or `change` event carried. */
  ghost predicate SoundReport(r: Report, events: seq<WatchEvent>, sources: map<string, SourceFile>, hash: string -> string) {
    && r.objectName == ObjectFilename(hash, r.filePath)
    && r.filePath in sources
    && exists j :: 0 <= j < |events| && !events[j].Remove? && events[j].path == r.filePath
  }

  /** Every report of a run is sound: only present sources that were added or changed are reported, under their own object. */
  lemma {:induction false} DaemonReportsSound(objects: map<string, StoredObject>, events: seq<WatchEvent>,
                                             sources: map<string, SourceFile>, hash: string -> string, maxFileSize: int)
    ensures forall r <- DaemonSpec(objects, events, sources, hash, maxFileSize).reports :: SoundReport(r, events, sources, hash)
  {
    if events != [] {
      var prefix := events[..|events| - 1];
      var before := DaemonSpec(objects, prefix, sources, hash, maxFileSize);
      DaemonReportsSound(objects, prefix, sources, hash, maxFileSize);
      assert forall r <- before.reports :: SoundReport(r, prefix, sources, hash);
      var run := DaemonSpec(objects, events, sources, hash, maxFileSize);
      var last := events[|events| - 1];
      assert run == TaskEffect(before, Route(last), sources, hash, maxFileSize);
      forall r <- run.reports
        ensures SoundReport(r, events, sources, hash)
      {
        if r in before.reports {
          assert SoundReport(r, prefix, sources, hash);
          var j :| 0 <= j < |prefix| && !prefix[j].Remove? && prefix[j].path == r.filePath;
          assert events[j] == prefix[j];
        } else {
          PersistReports(before.objects, last.path, Lookup(sources, last.path), hash, maxFileSize);
          assert run.reports == before.reports + [r];
          assert !last.Remove? && r.filePath == last.path;
          assert events[|events| - 1] == last;
        }
      }
    }
  }

  /** The number of reports is the number of `add` and `change` events whose source could be stat'ed. */
  function PersistableCount(events: seq<WatchEvent>, sources: map<string, SourceFile>): nat {
    if events == [] then 0
    else PersistableCount(events[..|events| - 1], sources)
         + (if !events[|events| - 1].Remove? && events[|events| - 1].path in sources then 1 else 0)
  }

  lemma {:induction false} DaemonReportCount(objects: map<string, StoredObject>, events: seq<WatchEvent>,
                                            sources: map<string, SourceFile>, hash: string -> string, maxFileSize: int)
    ensures |DaemonSpec(objects, events, sources, hash, maxFileSize).reports| == PersistableCount(events, sources)
  {
    if events != [] {
      DaemonReportCount(objects, events[..|events| - 1], sources, hash, maxFileSize);
    }
  }

  /**
   * A run whose events are all `add` or `change` of present sources whose
   * objects are current leaves the store as it was and only skips.
   */
  lemma {:induction false} QuietRunChangesNothing(objects: map<string, StoredObject>, events: seq<WatchEvent>,
                                                 sources: map<string, SourceFile>, hash: string -> string, maxFileSize: int)
    requires forall j :: 0 <= j < |events| ==>
      && !events[j].Remove?
      && events[j].path in sources
      && IsObjectRelevant(sources[events[j].path], Lookup(objects, ObjectFilename(hash, events[j].path)))
    ensures var run := DaemonSpec(objects, events, sources, hash, maxFileSize);
      run.objects == objects && |run.reports| == |events| && forall k :: 0 <= k < |run.reports| ==> run.reports[k].Skipped?
  {
    if events != [] {
      var prefix := events[..|events| - 1];
      assert forall j :: 0 <= j < |prefix| ==> prefix[j] == events[j];
      QuietRunChangesNothing(objects, prefix, sources, hash, maxFileSize);
      var last := events[|events| - 1];
      assert !last.Remove? && last.path in sources;
    }
  }
}
