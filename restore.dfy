/**
 * src/restore.ts: restoring a backup. The object files listed in the
 * `objects` directory of the backup are taken in listing order; those whose
 * path does not end in `.gz` are passed over; each of the others is extracted
 * into the output directory, and an object that fails to extract is passed
 * over as well. Extraction places each archived entry unless the file already
 * there is newer.
 */
module Restore {
  import opened Wrappers
  import opened Text
  import opened Paths
  import opened Utils
  import opened Gzip
  import opened Daemon

  /** A file in the output directory: its contents and modification time in milliseconds. */
  datatype RestoredFile = RestoredFile(data: Bytes, mtime: int)

  function Max(a: int, b: int): int {
    if a < b then b else a
  }

  /**
   * One archived entry extracted with `newer: true`: a file already at the
   * entry's path that is strictly newer than the entry is kept; otherwise the
   * entry replaces it. The file there ends up with the later of the two times.
   */
  function PlaceEntry(files: map<string, RestoredFile>, e: ArchivedFile): (r: map<string, RestoredFile>)
    ensures r.Keys == files.Keys + {e.path}
    ensures forall q <- files :: q != e.path ==> r[q] == files[q]
    ensures e.path in files ==> r[e.path].mtime == Max(files[e.path].mtime, e.mtime)
    ensures r[e.path] == RestoredFile(e.data, e.mtime) || (e.path in files && r[e.path] == files[e.path])
    ensures e.path in files && files[e.path].mtime > e.mtime ==> r == files
  {
    if e.path in files && files[e.path].mtime > e.mtime then files
    else files[e.path := RestoredFile(e.data, e.mtime)]
  }

  /** The entries of an archive extracted one after another. */
  function PlaceAll(files: map<string, RestoredFile>, entries: seq<ArchivedFile>): map<string, RestoredFile> {
    if entries == [] then files else PlaceEntry(PlaceAll(files, entries[..|entries| - 1]), entries[|entries| - 1])
  }

  /** The output directory after an extraction, and whether the extraction succeeded. */
  datatype Extraction = Extraction(files: map<string, RestoredFile>, ok: bool)

  /**
   * `extractObject`: an object that is gone or does not decompress into a
   * tarball rejects and changes nothing; a tarball has its entries placed.
   */
  function ExtractSpec(files: map<string, RestoredFile>, obj: Option<StoredObject>): Extraction {
    if obj.None? || obj.value.payload.Corrupt? then Extraction(files, false)
    else Extraction(PlaceAll(files, obj.value.payload.entries), true)
  }

  /** The directory of a backup that holds the object files. */
  function ObjectsDir(backupDir: string): string {
    Join(backupDir, "objects")
  }

  /** Whether `restoreFromBackup` attempts a listed object: its path under the objects directory ends in `.gz`. */
  predicate IsObjectPath(objectsDir: string, name: string) {
    EndsWith(Join(objectsDir, name), ".gz")
  }

  /** The listed objects in order, each selected one extracted and a failure passed over. */
  function RestoreSpec(files: map<string, RestoredFile>, objectsDir: string, listing: seq<string>,
                       objects: map<string, StoredObject>): map<string, RestoredFile>
  {
    if listing == [] then files
    else
      var before := RestoreSpec(files, objectsDir, listing[..|listing| - 1], objects);
      var name := listing[|listing| - 1];
      if !IsObjectPath(objectsDir, name) then before else ExtractSpec(before, Lookup(objects, name)).files
  }

  /** The directory a backup is restored into. */
  class OutputDir {
    var files: map<string, RestoredFile>

    constructor(initial: map<string, RestoredFile>)
      ensures files == initial
    {
      files := initial;
    }

    /** `extractObject`: places every entry of the object's archive in turn, or rejects without placing any. */
    method ExtractObject(obj: Option<StoredObject>) returns (ok: bool)
      modifies this
      ensures Extraction(files, ok) == ExtractSpec(old(files), obj)
    {
      if obj.None? || obj.value.payload.Corrupt? {
        return false;
      }
      var entries := obj.value.payload.entries;
      for k := 0 to |entries|
        invariant files == PlaceAll(old(files), entries[..k])
      {
        assert entries[..k + 1][..k] == entries[..k];
        files := PlaceEntry(files, entries[k]);
      }
      assert entries[..|entries|] == entries;
      ok := true;
    }
  }

  /** One more listed object: the restore so far, then that object's extraction if it is selected. */
  lemma RestoreSnoc(files: map<string, RestoredFile>, objectsDir: string, listing: seq<string>, k: nat,
                    objects: map<string, StoredObject>)
    requires k < |listing|
    ensures var before := RestoreSpec(files, objectsDir, listing[..k], objects);
      RestoreSpec(files, objectsDir, listing[..k + 1], objects)
      == if IsObjectPath(objectsDir, listing[k]) then ExtractSpec(before, Lookup(objects, listing[k])).files else before
    ensures Select(listing[..k + 1], name => IsObjectPath(objectsDir, name))
         == Select(listing[..k], name => IsObjectPath(objectsDir, name)) + if IsObjectPath(objectsDir, listing[k]) then [listing[k]] else []
  {
    assert listing[..k + 1][..k] == listing[..k];
  }

  /**
   * `restoreFromBackup`: every listed object whose path ends in `.gz` is
   * extracted once, in listing order, and a failed extraction is swallowed.
   * The objects attempted are returned.
   */
  method RestoreFromBackup(backupDir: string, store: ObjectStore, listing: seq<string>, out: OutputDir)
    returns (attempted: seq<string>)
    modifies out
    ensures attempted == Select(listing, name => IsObjectPath(ObjectsDir(backupDir), name))
    ensures out.files == RestoreSpec(old(out.files), ObjectsDir(backupDir), listing, store.objects)
  {
    var objectsDir := ObjectsDir(backupDir);
    attempted := [];
    for k := 0 to |listing|
      invariant attempted == Select(listing[..k], name => IsObjectPath(objectsDir, name))
      invariant out.files == RestoreSpec(old(out.files), objectsDir, listing[..k], store.objects)
    {
      RestoreSnoc(old(out.files), objectsDir, listing, k, store.objects);
      var filePath := Join(objectsDir, listing[k]);
      if !EndsWith(filePath, ".gz") {
        continue;
      }
      var obj := if listing[k] in store.objects then Some(store.objects[listing[k]]) else None;
      var _ := out.ExtractObject(obj);
      attempted := attempted + [listing[k]];
    }
    assert listing[..|listing|] == listing;
  }

  // ---------------------------------------------------------------------------
  // Properties
  // ---------------------------------------------------------------------------

  /** A listed name is attempted exactly when it ends in `.gz`. */
  lemma SelectedByName(objectsDir: string, name: string)
    requires IsPlainName(name)
    ensures IsObjectPath(objectsDir, name) <==> EndsWith(name, ".gz")
  {
    JoinEndsWithName(objectsDir, name);
    EndsWithAfter(Join(objectsDir, name), name, '/', ".gz");
  }

  /** Restoring a listing in two parts is restoring the first and then the second. */
  lemma {:induction false} RestoreConcat(files: map<string, RestoredFile>, objectsDir: string, a: seq<string>, b: seq<string>,
                                        objects: map<string, StoredObject>)
    ensures RestoreSpec(files, objectsDir, a + b, objects)
         == RestoreSpec(RestoreSpec(files, objectsDir, a, objects), objectsDir, b, objects)
  {
    if b == [] {
      assert a + b == a;
    } else {
      var front := b[..|b| - 1];
      RestoreConcat(files, objectsDir, a, front, objects);
      assert (a + b)[..|a + b| - 1] == a + front;
      assert (a + b)[|a + b| - 1] == b[|b| - 1];
    }
  }

  /**
   * An object that is passed over, because its name is not selected, it has
   * gone, or it fails to extract, affects nothing: the restore is the same as
   * without it in the listing.
   */
  lemma FailedObjectSkipped(files: map<string, RestoredFile>, objectsDir: string, a: seq<string>, name: string,
                            b: seq<string>, objects: map<string, StoredObject>)
    requires !IsObjectPath(objectsDir, name) || name !in objects || objects[name].payload.Corrupt?
    ensures RestoreSpec(files, objectsDir, a + [name] + b, objects) == RestoreSpec(files, objectsDir, a + b, objects)
  {
    RestoreConcat(files, objectsDir, a + [name], b, objects);
    RestoreConcat(files, objectsDir, a, b, objects);
    assert (a + [name])[..|a + [name]| - 1] == a;
  }

  /** An archive of one entry extracts into that entry placed. */
  lemma PlaceSingle(files: map<string, RestoredFile>, e: ArchivedFile)
    ensures PlaceAll(files, [e]) == PlaceEntry(files, e)
  {
    assert [e][..0] == [];
  }

  /**
   * Persisting a source file below the size cap and restoring its object
   * into a directory without that file gives back the source's contents and
   * modification time, at the source's path without its root.
   */
  lemma PersistRestoreRoundTrip(objects: map<string, StoredObject>, filePath: string, source: SourceFile,
                                hash: string -> string, maxFileSize: int, files: map<string, RestoredFile>)
    requires source.size <= maxFileSize
    requires ArchivePath(filePath) !in files
    requires !IsObjectRelevant(source, Lookup(objects, ObjectFilename(hash, filePath)))
    ensures var obj := PersistSpec(objects, filePath, Some(source), hash, maxFileSize).objects[ObjectFilename(hash, filePath)];
      ExtractSpec(files, Some(obj)) == Extraction(files[ArchivePath(filePath) := RestoredFile(source.data, source.mtime)], true)
  {
    PersistedArchive(objects, filePath, source, hash, maxFileSize);
    PlaceSingle(files, ArchivedFile(ArchivePath(filePath), source.mtime, source.data));
  }

  /** An entry never replaces a strictly newer file, and a file the archive does not hold is never touched. */
  lemma {:induction false} PlaceAllKeepsNewer(files: map<string, RestoredFile>, entries: seq<ArchivedFile>, q: string)
    requires q in files
    requires forall k :: 0 <= k < |entries| && entries[k].path == q ==> entries[k].mtime < files[q].mtime
    ensures q in PlaceAll(files, entries) && PlaceAll(files, entries)[q] == files[q]
  {
    if entries != [] {
      PlaceAllKeepsNewer(files, entries[..|entries| - 1], q);
    }
  }
}
