/**
 * src/gzip.ts: the entry filter handed to the archiver and the archive it
 * produces for a single file. Glob matching belongs to an outside library and
 * is the parameter `matches(path, pattern)`; the archive is the list of entries
 * that pass the filter, each carrying its path, modification time and bytes.
 */
module Gzip {
  import opened Wrappers
  import opened Utils

  type Bytes = seq<bv8>

  /** The options `gzip` takes: ignore patterns (possibly absent), a size cap in bytes and the destination. */
  datatype GzipOptions = GzipOptions(ignorePatterns: Option<seq<string>>, maxFileSize: int, destination: string)

  /** The entry an archive holds for one file: the path as stored, the modification time and the contents. */
  datatype ArchivedFile = ArchivedFile(path: string, mtime: int, data: Bytes)

  /** `match.some(path, patterns)`: at least one pattern matches the path. */
  function MatchesSome(path: string, patterns: seq<string>, matches: (string, string) -> bool): (b: bool)
    ensures b <==> exists k :: 0 <= k < |patterns| && matches(path, patterns[k])
  {
    if patterns == [] then false
    else matches(path, patterns[0]) || MatchesSome(path, patterns[1..], matches)
  }

  /** The patterns the filter consults: none when they are absent or empty. */
  function ActivePatterns(options: GzipOptions): seq<string> {
    if options.ignorePatterns.Some? then options.ignorePatterns.value else []
  }

  /**
   * `filterEntity`: an entry strictly larger than the cap is left out; so is
   * one whose path matches at least one normalised ignore pattern; every other
   * entry is kept.
   */
  function FilterEntity(path: string, size: int, options: GzipOptions, matches: (string, string) -> bool): (keep: bool)
    ensures keep <==> (size <= options.maxFileSize && !MatchesAnyNormalized(path, ActivePatterns(options), matches))
  {
    MatchesNormalized(path, ActivePatterns(options), matches);
    if size > options.maxFileSize then false
    else if options.ignorePatterns.Some? && |options.ignorePatterns.value| > 0
         && MatchesSome(path, NormalizeAll(options.ignorePatterns.value), matches) then false
    else true
  }

  /** Some pattern, once normalised, matches the path. */
  ghost predicate MatchesAnyNormalized(path: string, patterns: seq<string>, matches: (string, string) -> bool) {
    exists k :: 0 <= k < |patterns| && matches(path, NormalizePattern(patterns[k]))
  }

  lemma MatchesNormalized(path: string, patterns: seq<string>, matches: (string, string) -> bool)
    ensures MatchesSome(path, NormalizeAll(patterns), matches) <==> MatchesAnyNormalized(path, patterns, matches)
  {
    var ns := NormalizeAll(patterns);
    if MatchesAnyNormalized(path, patterns, matches) {
      var k :| 0 <= k < |patterns| && matches(path, NormalizePattern(patterns[k]));
      assert matches(path, ns[k]);
    }
  }

  /**
   * The path under which the archiver stores an entry: without its leading
   * `/` characters, so that extraction lands under the extraction directory.
   */
  function ArchivePath(path: string): (r: string)
    ensures r == [] || r[0] != '/'
    ensures |r| <= |path| && path[|path| - |r|..] == r
  {
    if path != [] && path[0] == '/' then ArchivePath(path[1..]) else path
  }

  /** The archive `gzip` writes for a single regular file: its one entry, or no entry when the filter rejects it. */
  function GzipFile(path: string, size: int, mtime: int, data: Bytes, options: GzipOptions,
                    matches: (string, string) -> bool): (archive: seq<ArchivedFile>)
    ensures |archive| <= 1
    ensures archive != [] <==> FilterEntity(path, size, options, matches)
    ensures archive != [] ==> archive[0] == ArchivedFile(ArchivePath(path), mtime, data)
  {
    if FilterEntity(path, size, options, matches) then [ArchivedFile(ArchivePath(path), mtime, data)] else []
  }

  // ---------------------------------------------------------------------------
  // Properties of the filter
  // ---------------------------------------------------------------------------

  /** An entry exactly at the cap is kept unless a pattern excludes it; one byte more excludes it whatever the patterns. */
  lemma SizeCapBoundary(path: string, options: GzipOptions, matches: (string, string) -> bool)
    requires options.ignorePatterns.None?
    ensures FilterEntity(path, options.maxFileSize, options, matches)
    ensures !FilterEntity(path, options.maxFileSize + 1, options, matches)
  {
  }

  /** More ignore patterns never let more entries through. */
  lemma MorePatternsKeepLess(path: string, size: int, max: int, ps: seq<string>, qs: seq<string>,
                             matches: (string, string) -> bool)
    ensures FilterEntity(path, size, GzipOptions(Some(ps + qs), max, ""), matches)
        ==> FilterEntity(path, size, GzipOptions(Some(ps), max, ""), matches)
  {
    var both := GzipOptions(Some(ps + qs), max, "");
    assert forall k :: 0 <= k < |ps| ==> ActivePatterns(both)[k] == ps[k];
  }

  /** A larger cap never leaves out more entries. */
  lemma LargerCapKeepsMore(path: string, size: int, options: GzipOptions, bigger: int,
                           matches: (string, string) -> bool)
    requires options.maxFileSize <= bigger
    ensures FilterEntity(path, size, options, matches)
        ==> FilterEntity(path, size, options.(maxFileSize := bigger), matches)
  {
  }

  /** Normalising the patterns before handing them over changes nothing: the filter normalises them itself. */
  lemma PreNormalizedPatterns(path: string, size: int, max: int, ps: seq<string>, matches: (string, string) -> bool)
    ensures FilterEntity(path, size, GzipOptions(Some(NormalizeAll(ps)), max, ""), matches)
        == FilterEntity(path, size, GzipOptions(Some(ps), max, ""), matches)
  {
    NormalizedMatchesSame(path, ps, matches);
  }

  lemma NormalizedMatchesSame(path: string, ps: seq<string>, matches: (string, string) -> bool)
    ensures MatchesAnyNormalized(path, NormalizeAll(ps), matches) == MatchesAnyNormalized(path, ps, matches)
  {
    var ns := NormalizeAll(ps);
    forall k | 0 <= k < |ps| ensures NormalizePattern(ns[k]) == NormalizePattern(ps[k]) {
      NormalizeIdempotent(ps[k]);
    }
  }

  /** Stripping the root is idempotent and keeps relative paths as they are. */
  lemma ArchivePathRelative(path: string)
    ensures ArchivePath(ArchivePath(path)) == ArchivePath(path)
    ensures path == [] || path[0] != '/' ==> ArchivePath(path) == path
  {
  }
}
