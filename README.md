# last-hope, modelled in Dafny

last-hope is a command-line backup tool. `start` reads a configuration, then works through each tracked root directory:

- It collects ignore patterns from the rule files (`.gitignore`-style) found in the root's directory tree.
- It runs a watcher daemon on the root. Every file added or changed is persisted into the backup's `objects` directory. Each object is a gzipped tarball named after the SHA-1 of the file's path. Its modification time is set to the source's, so an unchanged file is skipped later.
- It counts the files it keeps track of.

At the end, `start` deletes every object that no file of this session accounted for. `restore` extracts every `.gz` object of a backup into an output directory. An extraction never replaces a file that is newer than the archived one.

The model has one Dafny module per source file, plus three supporting modules:

| module | file | models |
|---|---|---|
| `Wrappers` | wrappers.dfy | `Option` and `Result` |
| `Text` | text.dfy | the JavaScript string operations the code relies on: `\s`, `\d`, `trim`, `toLowerCase`, `split`, `join`, `endsWith`, decimal digits |
| `Paths` | paths.dfy | the POSIX `path` functions the code calls: `join`, `normalize`, `basename`, `dirname`, `resolve` and `isAbsolute` |
| `Utils` | utils.dfy | src/utils.ts |
| `Ignore` | ignore.dfy | src/ignore.ts |
| `Gzip` | gzip.dfy | src/gzip.ts |
| `Daemon` | daemon.dfy | src/daemon.ts |
| `Cli` | cli.dfy | `start`, `ensureAbsolute` and `getCommonIgnorePatterns` of src/cli.ts |
| `Restore` | restore.dfy | src/restore.ts |

How the model is built:

- **File system.** The file system is a value. A directory holds three things: the text of its readable rule files, whether it can be listed, and its entries as `lstat` classifies them.
- **Object store.** The object store of a backup is the class `Daemon.ObjectStore`. Its `objects` map is updated in place by `PersistFile`, `RemoveObject` and `Unlink`. The restore output directory is the class `Restore.OutputDir`.
- **Loops.** The loops of `start`, of `restoreFromBackup`, of the daemon's event handling and of `partitionBy` and `objectFilter` are methods with `while`/`for` loops. Each is proved against a specification function. These are `SessionOf`/`StartSpec`, `RestoreSpec`, `DaemonSpec`, `Select`/`Reject`, and the key-by-key postcondition of `ObjectFilter`.
- **Outside code as parameters.** Code outside the repository becomes parameters:
  - the SHA-1 hash is `hash: string -> string`;
  - micromatch is `matches(path, pattern)`;
  - the watcher is a function `watch(root, ignorePatterns)` that gives the events of a root in the order they are handled;
  - the source files are a map from path to size, time and bytes;
  - the directory tree is `tree: string -> Dir`.

## Model

| member | source | states |
|---|---|---|
| Utils.ObjectFilter | src/utils.ts:5-15 | the new record has exactly the keys whose entry satisfies the predicate, each with the source's value |
| Utils.ExcludeNilRecord | src/utils.ts:22-27 | on a record: exactly the keys whose value is neither `null` nor `undefined`, with their values |
| Utils.ExcludeNil | src/utils.ts:22-27 | on an array: only defined values remain, and never more than were given |
| Utils.ExcludeNilConcat | src/utils.ts:25 | filtering distributes over concatenation; a `null` or `undefined` singleton vanishes; a defined singleton stays |
| Utils.ExcludeNilIdentity | src/utils.ts:25 | an array is returned unchanged if and only if it holds no nil value |
| Utils.IsNil | src/utils.ts:29-31 | true exactly for `null` and `undefined` |
| Utils.TrimChar | src/utils.ts:33-42 | the intended trimming: the result is the input with a maximal prefix of left-set characters and a maximal suffix of right-set characters cut off |
| Utils.TrimmedUnique | src/utils.ts:33-42 | at most one string meets the trimming promise, so `TrimChar` is determined by it |
| Utils.TrimCharAsWritten | src/utils.ts:36-40 | the global replace as written never lengthens the string |
| Utils.WrittenStart | src/utils.ts:36-40 | where the written code starts its result lies within the string |
| Utils.WrittenEnd | src/utils.ts:36-40 | where the written code ends its result lies between its start and the string's end |
| Utils.TrimCharAsWrittenKeepsFirst | src/utils.ts:36-40 | with sides `["x", "/"]` the code as written turns `//` into `/` |
| Utils.TrimCharStripsAll | src/utils.ts:33-42 | the intended trimming turns the same `//` into the empty string |
| Utils.TrimCharAsWrittenAgrees | src/utils.ts:33-42 | outside the quirk's shape (left side off, empty string, a left-set first character, or a character outside the right set), the written and intended trimming agree |
| Utils.NormalizePattern | src/utils.ts:44-46 | the result is a prefix of the pattern, the rest is only `/` and `*`, and the result does not end in either |
| Utils.NormalizationUnique | src/utils.ts:44-46 | that description determines the normalised pattern |
| Utils.NormalizeIdempotent | src/utils.ts:44-46 | normalising twice is normalising once |
| Utils.NormalizeDropsGlobTail | src/utils.ts:44-46 | any run of `/` and `*` appended to a pattern not ending in one is removed again |
| Utils.NormalizeAll | src/ignore.ts:22 | normalises every pattern of a list, position by position |
| Utils.NormalizeAllAppend | src/ignore.ts:22 | normalising a list distributes over concatenation |
| Utils.NormalizeAllIdempotent | src/gzip.ts:20 | normalising a list twice is normalising it once |
| Utils.PartitionBy | src/utils.ts:48-56 | the left list is the items satisfying the predicate and the right list the others, both in order; together they are a permutation of the items |
| Utils.SelectRejectSplit | src/utils.ts:48-56 | the two sides of any partition have lengths summing to the input's length and together hold the input's elements exactly once |
| Utils.SelectAppend | src/utils.ts:53 | filtering distributes over concatenation |
| Utils.SelectAll | src/ignore.ts:21 | filtering keeps a list whose elements all pass unchanged |
| Utils.SelectSatisfies | src/utils.ts:53 | every kept element satisfies the predicate |
| Utils.RejectFails | src/utils.ts:53 | every element of the right list fails the predicate |
| Utils.SelectMembers | src/ignore.ts:21 | every kept element is an element of the input |
| Utils.SelectShorter | src/ignore.ts:21 | filtering never lengthens a list |
| Utils.ToBytes | src/utils.ts:77-79 | the intended `toBytes`: every failure carries the message "Invalid size string"; only the five units of the table are accepted (the inherited `constructor` that the code as written also finds is a row of "## Findings") |
| Utils.ParseSize | src/utils.ts:75-81 | the intended matching step: every failure carries the message "Invalid size string"; only the five units of the table are accepted |
| Utils.ToBytesSucceeds | src/utils.ts:75-79 | as intended, `toBytes` succeeds if and only if the lower-cased string splits into digits, optional whitespace and one of the five units of the table; the inherited `constructor` is under "## Findings" |
| Utils.ParseSizeMeaning | src/utils.ts:75-81 | as intended, success if and only if a split into digits, whitespace and one of the five units exists; for any split the value is the decimal amount times the unit's size |
| Utils.SizeSplitUnique | src/utils.ts:75 | the regular expression's split is forced: digits end at the first non-digit and the unit starts after the whitespace |
| Utils.SplitPoints | src/utils.ts:75 | in a split the amount is digits only, a non-digit follows it, and the unit does not start with whitespace |
| Utils.ToBytesValue | src/utils.ts:81 | given a split, the result is the amount times the unit's size |
| Utils.SizeStringRoundTrip | src/utils.ts:66-82 | a decimal amount written out, any whitespace and a unit read back as amount × unit size |
| Utils.BareNumberRejected | src/utils.ts:75-79 | a bare number is rejected with "Invalid size string" |
| Utils.ToBytesIgnoresCase | src/utils.ts:75 | a lower-cased size string reads the same as the original |
| Utils.ToBytesAsWritten | src/utils.ts:75-81 | `toBytes` as written, with the unit looked up on a plain object so that the inherited `constructor` is found besides the five units and yields `NaN`; every failure carries "Invalid size string" |
| Utils.ConstructorUnitAsWritten | src/utils.ts:77-81 | digits followed by `constructor` are `NaN` as written, while the intended reading rejects them with "Invalid size string" |
| Utils.ToBytesAsWrittenAgrees | src/utils.ts:75-81 | everywhere else the two readings agree: a size accepted as intended has the same value as written; one rejected as intended is rejected or `NaN` as written; `NaN` only comes from a size the intended reading rejects |
| Utils.Pick | src/utils.ts:84-97 | failure exactly when both the value and the fallback are `undefined`, with "missing key <key>"; otherwise the value if defined (`null` included), else the fallback |
| Ignore.ParseIgnoreFileContent | src/ignore.ts:18-23 | no more patterns than lines, each one line long and not ending in `/` or `*` |
| Ignore.ParseLine | src/ignore.ts:18-23 | a single line yields its normal form if it carries a rule and nothing otherwise |
| Ignore.ParseConcat | src/ignore.ts:18-23 | parsing two texts joined by a newline concatenates their patterns |
| Ignore.ParseRoundTrip | src/ignore.ts:18-23 | normal-form patterns written one per line parse back to the same list |
| Ignore.ParsedPatternLine | src/ignore.ts:18-23 | a line already in normal form parses to itself |
| Ignore.NormalizeAllFixed | src/ignore.ts:22 | normalisation leaves a list of normal-form patterns unchanged |
| Ignore.ParsedPatternFixed | src/ignore.ts:22 | normalisation leaves a normal-form pattern unchanged |
| Ignore.ParsedLinesSingle | src/ignore.ts:20-22 | lines without a newline give patterns that are single lines not ending in `/` or `*` |
| Ignore.GetIgnoreFilePatterns | src/ignore.ts:25-28 | an unreadable file gives no patterns; one pattern per parsed line; under an absolute rule-file path every pattern is absolute |
| Ignore.RuleFilePatterns | src/ignore.ts:31 | one pattern list per rule-file name |
| Ignore.FlattenConcat | src/ignore.ts:32 | flattening distributes over concatenation |
| Ignore.FlattenMember | src/ignore.ts:32 | a pattern of any rule file is among the flattened patterns |
| Ignore.CollectIgnoreFilePatterns | src/ignore.ts:34 | a directory that cannot be listed rejects the call |
| Ignore.CollectStartsWithOwn | src/ignore.ts:49 | a successful collection starts with the directory's own patterns |
| Ignore.CollectWithoutRuleFiles | src/ignore.ts:30-50 | without rule-file names nothing is collected, whatever the tree |
| Ignore.SubdirsWithoutRuleFiles | src/ignore.ts:43-47 | without rule-file names the subdirectories contribute nothing |
| Ignore.CollectAbsolute | src/ignore.ts:30-50 | under an absolute root every collected pattern is absolute |
| Ignore.SubdirsAbsolute | src/ignore.ts:43-47 | under an absolute root every pattern from the subdirectories is absolute |
| Ignore.OwnPatternsAbsolute | src/ignore.ts:31 | under an absolute root every own pattern is absolute |
| Ignore.FlattenAbsolute | src/ignore.ts:32 | lists of absolute patterns flatten to absolute patterns |
| Ignore.AbsoluteRootNeverSkips | src/ignore.ts:45 | under an absolute root, every subdirectory is descended, because a basename can never equal an absolute pattern |
| Ignore.DotRulePattern | src/ignore.ts:25-28 | under `.`, a rule file holding one plain name yields that bare name |
| Ignore.DotRootSkipsListedDir | src/ignore.ts:45 | under `.`, a subdirectory named in a rule file is not descended |
| Ignore.SubdirFailureRejects | src/ignore.ts:43-47 | a failing descended subdirectory rejects every entry range that contains it |
| Ignore.CollectFailure | src/ignore.ts:34-47 | an entry that cannot be `lstat`ed, or a descended subdirectory that fails, rejects the whole collection |
| Ignore.CollectNoneCause | src/ignore.ts:34-47 | a collection is rejected if and only if the directory cannot be listed, an entry cannot be `lstat`ed, or the collection of a descended subdirectory is rejected |
| Ignore.CollectIncludesDescended | src/ignore.ts:43-49 | a collection that succeeds has collected every descended subdirectory successfully and holds each of that subdirectory's patterns |
| Ignore.CollectSubdirs | src/ignore.ts:43-47 | definition: from an index on, the collections of the descended entries in listing order, concatenated; rejected as soon as one of them is rejected; other entries add nothing |
| Ignore.Descends | src/ignore.ts:38-45 | definition: an entry is descended exactly when `lstat` calls it a directory and the basename of its joined path is not one of the directory's own patterns |
| Ignore.HasUnstattable | src/ignore.ts:38 | definition: some entry of the listing cannot be `lstat`ed |
| Ignore.SubdirsIgnoreUndescended | src/ignore.ts:43-47 | replacing an entry that is not descended by another that is not descended changes nothing from any index |
| Ignore.CollectIgnoresUndescended | src/ignore.ts:39-47 | files, symbolic links and skipped directories do not influence the result |
| Ignore.UnstattableReplaced | src/ignore.ts:38 | replacing a stattable entry by another keeps whether some `lstat` fails |
| Ignore.OwnPatternsSameFiles | src/ignore.ts:31 | the own patterns depend on the rule files only, not on the entries |
| Gzip.MatchesSome | src/gzip.ts:20 | true exactly when some pattern matches the path |
| Gzip.FilterEntity | src/gzip.ts:14-26 | an entry is kept if and only if it is within the size cap and no normalised ignore pattern matches it |
| Gzip.MatchesNormalized | src/gzip.ts:20 | matching the normalised list is matching some pattern once normalised |
| Gzip.GzipFile | src/gzip.ts:13-35 | the archive of one file holds one entry, with its root-less path, time and bytes, exactly when the filter keeps it |
| Gzip.ArchivePath | src/gzip.ts:34 | the stored path is a suffix of the path and does not start with `/` |
| Gzip.ArchivePathRelative | src/gzip.ts:34 | stripping the root is idempotent and keeps a relative path as it is |
| Gzip.SizeCapBoundary | src/gzip.ts:15 | a file exactly at the cap is kept; one byte more is left out |
| Gzip.MorePatternsKeepLess | src/gzip.ts:20 | more ignore patterns never keep more entries |
| Gzip.LargerCapKeepsMore | src/gzip.ts:15 | a larger cap never leaves out more entries |
| Gzip.PreNormalizedPatterns | src/gzip.ts:20 | handing over already normalised patterns changes no decision |
| Gzip.NormalizedMatchesSame | src/gzip.ts:20 | matching normalised patterns after normalising them again is the same as matching them once |
| Daemon.ObjectFilename | src/daemon.ts:61-63 | the name is the path's hash followed by `.gz` |
| Daemon.SharedObjectIffSameHash | src/daemon.ts:61-63 | two paths share an object if and only if their hashes coincide |
| Daemon.IsObjectRelevant | src/daemon.ts:65-71 | a missing object is never current; an object stamped with the source's time is; one that is current lies within a second of it |
| Daemon.SameSecondChangeLooksCurrent | src/daemon.ts:69 | a change within the same whole second looks current and is skipped |
| Daemon.ObjectStore.PersistFile | src/daemon.ts:38-59 | the store and the callback after the call are those of the persist specification |
| Daemon.ObjectStore.RemoveObject | src/cli.ts:75 | the name is removed; the call fails exactly when there was no such object |
| Daemon.ObjectStore.Unlink | src/daemon.ts:23-25 | removes the path's object; a missing object is no error |
| Daemon.PersistSpec | src/daemon.ts:38-59 | definition: a source that cannot be stat'ed changes nothing and fires no callback; a current object is skipped with the skip callback; otherwise the object becomes the archive of the source stamped with its time and the persisted callback fires |
| Daemon.PersistSpecAsWritten | src/daemon.ts:43-51 | definition of the code as written: a current object is skipped as intended; every other call rejects at the `gzip` call, so nothing is written, stamped or reported |
| Daemon.PersistAsWrittenNeverWrites | src/daemon.ts:51 | as written the store never changes; a skip is the intended skip; wherever the intended persist writes an object, the written one fires no callback and leaves the store different from the intended one |
| Daemon.TaskEffect | src/daemon.ts:19-25 | definition: a persist task applies the persist specification and appends its callback if any; an unlink task removes the path's object, a missing one being no error |
| Daemon.DaemonSpec | src/daemon.ts:19-33 | definition of the intended daemon: every event routed and its task carried out, one at a time in arrival order, unlinks included |
| Daemon.UnlinkCount | src/daemon.ts:32 | the number of `unlink` events, never more than the events |
| Daemon.DaemonSpecAsWritten | src/daemon.ts:23-25 | definition of the daemon as written: as intended, except that an `unlink` event after the first ten of a run changes nothing, because the unlink queue never sees a task finish |
| Daemon.AsWrittenAgreesWithinConcurrency | src/daemon.ts:23-25 | with at most ten `unlink` events the daemon as written does what is intended |
| Daemon.UnlinkQueueStalls | src/daemon.ts:23-25 | as written, an `unlink` event once ten have been queued leaves the store and the callbacks as they were |
| Daemon.UnlinkRemovesObject | src/daemon.ts:32 | as intended, every `unlink` event removes its path's object whatever came before, and fires no callback |
| Daemon.PersistReports | src/daemon.ts:43-57 | a callback fires exactly when the source can be stat'ed, under its own object name and path; a skip changes nothing |
| Daemon.PersistOnlyOwnObject | src/daemon.ts:41-55 | no object other than the source's own is touched |
| Daemon.PersistThenSkip | src/daemon.ts:45-55 | persisting the unchanged source a second time is a skip that changes nothing |
| Daemon.PersistedArchive | src/daemon.ts:51-55 | a written object carries the source's time and holds the source's bytes under its root-less path, or nothing when over the cap |
| Daemon.Route | src/daemon.ts:30-32 | `add` gets priority 1, `change` priority 0, `unlink` goes to the unlink queue, and the path is kept |
| Daemon.RunDaemon | src/daemon.ts:18-36 | the store and the callbacks after the events are those of the intended daemon specification, in which every `unlink` is carried out |
| Daemon.DaemonReportsSound | src/daemon.ts:30-31 | every callback names the object of a present source that some `add` or `change` event carried |
| Daemon.DaemonReportCount | src/daemon.ts:19-21 | there is exactly one callback per `add` or `change` event of a present source |
| Daemon.QuietRunChangesNothing | src/daemon.ts:45-48 | events for current objects only leave the store unchanged and only skip |
| Cli.OnProcessed | src/cli.ts:51-54 | each callback strikes its name off and adds one to the count |
| Cli.ReportedNamesConcat | src/cli.ts:53 | the names reported by two runs are the union of each run's names |
| Cli.RootPatterns | src/cli.ts:60 | definition: the configured patterns followed by the collected ones; none when the walk of the root is rejected |
| Cli.RootStep | src/cli.ts:59-68 | definition: one root: a rejected walk marks the session failed; otherwise the daemon runs with the root's patterns, each callback strikes its object name off the unhandled names, and the count grows by the number of callbacks |
| Cli.RunRoots | src/cli.ts:59-69 | definition: the roots one at a time in order; nothing runs after a failed walk |
| Cli.SessionOf | src/cli.ts:44-69 | definition: the roots run from the store as listed, with every listed name unhandled and the count at 0 |
| Cli.StartSpec | src/cli.ts:43-77 | definition: a failed walk rejects with nothing deleted; otherwise every unhandled name is removed, and the call rejects if one of them was already gone, else reports the number removed and the count |
| Cli.RootPatternsWithoutRuleFiles | src/cli.ts:60 | without rule-file names a root is watched with exactly the configured patterns |
| Cli.ScanRoot | src/cli.ts:60-68 | one root: collect, run the daemon with the configured then collected patterns, count the callbacks; the result is the specified root step |
| Cli.ScanRoots | src/cli.ts:59-69 | the loop over the tracked roots ends in the session specification |
| Cli.RemoveOrphans | src/cli.ts:74-75 | every leftover name is removed; the result tells whether some was already gone |
| Cli.Start | src/cli.ts:43-77 | the store and the outcome are those of the `start` specification |
| Cli.RootStepBookkept | src/cli.ts:51-54 | one root keeps the books: the unhandled names are the listing minus the reported names, the count is the number of reports, and every report comes from a source |
| Cli.RunRootsBookkept | src/cli.ts:59-69 | every sequence of roots keeps the books |
| Cli.SessionBookkeeping | src/cli.ts:44-69 | the session over all roots keeps its books against the starting listing |
| Cli.DeletesExactlyOrphans | src/cli.ts:74-76 | after a failed walk nothing is deleted; otherwise exactly the listed names nobody reported are deleted, and the logged count is the number of callbacks |
| Cli.FailedPersistOrphaned | src/cli.ts:74-75 | an object whose source no longer exists is deleted at the end of a complete session |
| Cli.EnsureAbsolute | src/cli.ts:142-144 | the trimmed result is absolute; an absolute value is returned untouched and any other is resolved from the working directory after trimming |
| Cli.EnsureAbsoluteJoins | src/cli.ts:143 | a clean relative value resolves to the working directory joined with it |
| Cli.GetCommonIgnorePatterns | src/cli.ts:146-150 | one pattern per parsed line, none of them absolute |
| Cli.CommonPatternShape | src/cli.ts:149 | a clean relative rule becomes `*/**/` followed by the rule |
| Restore.PlaceEntry | src/restore.ts:26 | an entry replaces the file at its path unless that file is strictly newer; nothing else changes; the file ends with the later time |
| Restore.PlaceAll | src/restore.ts:26 | definition: the entries of an archive placed one after another, in archive order |
| Restore.ExtractSpec | src/restore.ts:22-39 | definition: an object that is gone or is not a tarball fails and changes nothing; a tarball has all its entries placed |
| Restore.IsObjectPath | src/restore.ts:11-14 | definition: a listed name is attempted when its path joined under the objects directory ends in `.gz` |
| Restore.RestoreSpec | src/restore.ts:13-19 | definition: the listed objects in order, each selected one extracted, and a failed extraction passed over |
| Restore.PlaceAllKeepsNewer | src/restore.ts:26 | a file newer than every entry for its path is kept as it was |
| Restore.PlaceSingle | src/restore.ts:22-39 | a one-entry archive extracts to that entry placed |
| Restore.OutputDir.ExtractObject | src/restore.ts:22-39 | either places every entry in turn and succeeds, or changes nothing and fails when the object is gone or not a tarball |
| Restore.RestoreFromBackup | src/restore.ts:9-20 | the attempted objects are exactly the listed names ending in `.gz`, in order; the output is the restore specification |
| Restore.RestoreSnoc | src/restore.ts:13-19 | one more listed object extends the restore by its extraction exactly when it is selected |
| Restore.RestoreConcat | src/restore.ts:13-19 | restoring a listing in two parts is restoring the first part and then the second |
| Restore.FailedObjectSkipped | src/restore.ts:17 | an object that is not selected, is gone or fails to extract has no effect on the restore |
| Restore.SelectedByName | src/restore.ts:11-16 | a listed name is attempted if and only if the name itself ends in `.gz` |
| Restore.PersistRestoreRoundTrip | src/restore.ts:22-39 | persisting a source within the cap and extracting its object gives back its bytes and time at its root-less path |
| Paths.Join | src/ignore.ts:27 | the joined path is never empty and is absolute exactly when its first non-empty part is |
| Paths.Normalize | src/ignore.ts:37 | a normalised path is never empty and is absolute exactly when the input is |
| Paths.Step | src/ignore.ts:37 | definition of one step of Node's `normalizeString`: an empty or `.` segment vanishes; `..` drops the last kept segment unless that is `..`, and with nothing to drop it is kept only in a relative path; any other segment is kept |
| Paths.Replay | src/ignore.ts:37 | applying the segments from left to right keeps only proper segments: none is empty, `.` or holds a `/` |
| Paths.NormalizeString | src/ignore.ts:37 | definition: the kept segments of the path joined by `/`, with no leading or trailing separator |
| Paths.Basename | src/ignore.ts:45 | the last segment, without `/` |
| Paths.LastSegmentSlashFree | src/ignore.ts:45 | the last segment contains no `/` |
| Paths.Dirname | src/ignore.ts:27 | the directory part is never empty and is absolute exactly when the path is |
| Paths.Resolve | src/cli.ts:143 | the resolved path is absolute |
| Paths.ResolveIsJoin | src/cli.ts:143 | resolving a relative path from an absolute directory is joining them |
| Paths.JoinClean | src/ignore.ts:37 | two clean relative paths join with a single `/` between them |
| Paths.JoinDot | src/ignore.ts:31 | joining a plain name onto `.` gives the bare name |
| Paths.JoinBasename | src/ignore.ts:45 | the basename of a directory joined with a plain name is that name |
| Paths.JoinEndsWithName | src/restore.ts:11 | a path joined with a plain name ends with that name, after a `/` when it is longer |
| Paths.DirnamePlain | src/ignore.ts:27 | a name without `/` lies in the directory `.` |
| Text.Trim | src/cli.ts:143 | the result is the input with whitespace runs cut from both ends, and neither of its ends is JavaScript whitespace |
| Text.TrimUnchanged | src/cli.ts:143 | a string without whitespace at its ends is its own trim |
| Text.Split | src/ignore.ts:20 | there is at least one piece and no piece contains the separator |
| Text.SplitJoin | src/ignore.ts:20 | splitting pieces joined with the separator gives the pieces back |
| Text.JoinSplit | src/ignore.ts:20 | joining the pieces of a split gives the string back |
| Text.SplitConcat | src/ignore.ts:20 | splitting two texts joined by a separator concatenates their pieces |
| Text.LowerCase | src/utils.ts:75 | same length, each character lower-cased in place |
| Text.EndsWithAfter | src/restore.ts:14 | when a string ends with `t` after a separator that the suffix does not contain, it ends with the suffix exactly when `t` does |
| Text.DecimalRoundTrip | src/utils.ts:81 | a number written in decimal reads back as that number |

## Left out

- The priority and unlink queues are not modelled as queues. Routed tasks are carried out one at a time in event order, so interleavings and the order in which the queues finish are not captured. The one effect of the concurrency of 10 that the model keeps is the unlink queue's stall, in Daemon.DaemonSpecAsWritten.
- Daemon.RunDaemon: carries out every `unlink` event, as intended. The code as written carries out only the first ten unlink tasks of a daemon, because the unlink worker never signals completion; Daemon.DaemonSpecAsWritten models that, and it is a row of "## Findings".
- Watcher filtering with `ignored` is left to the `watch` parameter. The model does not decide which paths chokidar reports.
- SHA-1 (`createHash`) is the parameter `hash`, and micromatch is the parameter `matches`.
- Tar and gzip streams, compression and the byte format are not modelled. An archive is its list of entries.
- Daemon.PersistSpec: the `gzip` call at src/daemon.ts:51 passes three arguments to a two-parameter function, so the destination string becomes the options and `fs.createWriteStream(undefined)` throws. As written, every persist that is not a skip rejects with nothing written, stamped or reported, and `start` then deletes every listed object that was not current. Daemon.PersistSpecAsWritten models that, and it is a row of "## Findings". The rest of the model uses the evident intent: the file, the destination and the size cap, with no ignore patterns.
- `tar.create` is not awaited in src/gzip.ts:34, so `utimes` at src/daemon.ts:55 can race with the write. The model treats the write as finished first.
- Daemon.IsObjectRelevant: the whole-second comparison of `String(date)` is modelled as rounding down to seconds. The date's rendering and time zone are not modelled.
- Restore.PlaceEntry: times are compared as whole numbers. The whole-second mtime that a tar header stores is not modelled.
- Restore.OutputDir.ExtractObject: an extraction is all or nothing. An archive that fails part-way through, after placing some entries, is not modelled.
- `restore` in src/cli.ts:88 passes an `onExtracted` callback that `restoreFromBackup` never takes, so the count it logs is always 0. The model follows src/restore.ts.
- The object-store listing is the key set of the store's map. A session sees the source files as one snapshot taken for the whole run.
- Cli.Start assumes every daemon's persist queue drains. A root with no events never drains, and then `start` never resolves; that case is not modelled.
- `tryCatch` is not defined in the source files shown. It is modelled as swallowing a rejection and yielding the fallback value.
- `parseIgnoreFileContent` is not exported from src/ignore.ts, though src/cli.ts:148 calls it. The model treats it as shared.
- Configuration loading (src/config.ts), src/index.ts, src/logger.ts, `init` and the prompts, `readFileSafe`, `getFilenames`, `ensureDir` and `consoleLoading` are file-system and user-interface plumbing. They are not part of this model.
- Utils.ToBytes: `parseInt` on long digit strings loses precision in floating point. The model computes with unbounded integers. Lower-casing covers A–Z and the Kelvin sign, the one other character that folds into the ASCII units.
- Utils.ToBytes: accepts only the five units of the table, as intended. As written, the lookup on a plain object also finds the inherited `constructor`, so digits followed by `constructor` give `NaN` instead of the error; Utils.ToBytesAsWritten models that, and it is a row of "## Findings". Other inherited names (`valueOf`, `toString` and the like) are not runs of lower-case letters, so the pattern never lets them through.
- Text.Split models `split("\n")` only on characters, without Unicode surrogate pairs.

## Findings

| source | as written | input that shows it | evidently intended | confidence | as-written member | corrected member |
|---|---|---|---|---|---|---|
| src/utils.ts:36-40 | With both sides active, the global replace of the left alternative `^[L]*` or the right alternative `[R]*$` first matches the empty string at index 0 when the string does not start with a left-set character. The search then resumes at index 1, so the right-hand run can never start at index 0. | `trimChar("//", ["x", "/"])` gives `"/"` | every trailing right-set character is removed, giving `""` | not executed | Utils.TrimCharAsWrittenKeepsFirst | Utils.TrimCharStripsAll |
| src/utils.ts:77-81 | The unit is looked up on a plain object literal, and `!units[unit]` only rejects falsy values. The inherited `constructor` matches `[a-z]+` and is the truthy `Object` function, so it passes the check, and the amount times a function is `NaN`. | `toBytes("1constructor")` gives `NaN` instead of throwing "Invalid size string"; as a `maxFileSize`, `stat.size > NaN` is always false at src/gzip.ts:15, so the size cap is off | only the five units of the table are accepted; any other unit throws | high (not executed) | Utils.ConstructorUnitAsWritten | Utils.ToBytesSucceeds |
| src/daemon.ts:23-25 | The unlink worker is neither `async` nor takes the `done` callback, so the `async` queue never counts one of its tasks as finished. Once ten unlink tasks have started, every later one waits for ever. | eleven files deleted while the daemon watches: the object of the eleventh stays in the store | every `unlink` event removes its path's object | high (not executed) | Daemon.UnlinkQueueStalls | Daemon.UnlinkRemovesObject |
| src/daemon.ts:51 | `gzip` takes the target path and one options object, but is called with the destination string as the options. `options.destination` is then `undefined`, `fs.createWriteStream(undefined)` throws, and the persist rejects before `utimes` and `onPersisted`. The call does not type-check either. | any new or changed file: no object is written or reported, and `start` deletes every listed object that was not current | the file is archived at the destination under the size cap and stamped with the source's time | high (not executed) | Daemon.PersistAsWrittenNeverWrites | Daemon.PersistedArchive |
