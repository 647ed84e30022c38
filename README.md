# devcat snapshot engine in Dafny

A verified model of the snapshot engine of devcat, a local, file-level
version-control tool. The engine builds a manifest (relative path to content
digest) from the working tree, stores file contents and serialised manifests in
a content-addressed object store under `.devcat/objects`, and appends snapshot
records to a line-per-record history log. On top of that sit the commands that
consume them: save, diff, revert and prune, the watch loop that saves after a
quiet period, and the trace and log listings.

The file system is abstract. The working tree is a map from path (a sequence of
components) to bytes. The object store is a map from digest to bytes. The
history log file is its sequence of lines, or `None` when it does not exist.
The directory walk is an input sequence of walk items in walk order. Hashing,
serde_json, UTF-8 decoding, glob matching and the line differ are function-typed
fields of the `Codec`, `GlobSet` and `Differ` parameters. Where a proof needs a
property of them (a collision-free digest, a manifest that parses back to what
was serialised, a content-addressed store), the lemma takes it as a hypothesis.

Files:

- `types.dfy`: paths, digests, manifests, snapshot records, the error enum, the
  external codec and a UTF-8 encoder.
- `output.dfy`: the output marker and report routing.
- `paths.dfy`: Rust's `Path` order, and the unique ascending key order of a
  `BTreeMap`.
- `manifest.dfy`: the manifest builder.
- `history.dfy`: the history log, as a class plus pure load/lookup functions.
- `store.dfy`: the object store and `perform_save`.
- `prune.dfy`, `diff.dfy`, `revert.dfy`, `watch.dfy`, `trace.dfy`,
  `logcmd.dfy`: the commands.

## Where the code and its stated intent differ

The model follows the code in each of these cases.

- Diff reads the new side of every changed path from the working tree, even
  when both endpoints are snapshots (`src/diff.rs:50-53`). The argument
  documentation of `diff` (`src/diff.rs:13-14`) says a second id compares the
  first snapshot with that snapshot, not with the working directory.
  `Diff.NewSideFromWorkingTree` proves that the report never depends on the
  objects of the new manifest.
- Prune removes a dropped snapshot's manifest object (`src/prune.rs:41-43`)
  before it reads that manifest back (`src/prune.rs:44`). The blob loop
  (`src/prune.rs:44-50`) shows that unreachable blobs are expected to be
  removed. When the removal succeeds, though, the read fails and the blob loop
  never runs. `Prune.DroppedBlobsSurvive` proves the consequence: when no
  dropped manifest digest is kept and every removal of a dropped manifest
  succeeds, only dropped manifest objects are removed, and no blob of a dropped
  snapshot is deleted. A removal that fails is ignored; that manifest is then
  read back and its unkept blobs are deleted. Safety still holds:
  `Prune.DropKeepsKept` and `Prune.PruneKeepsResolvable`.
- Ids are expected never to be reused. After `prune --keep 0` the history is
  empty, so the next save gets id 1 again (`Prune.PruneNextId`).
- A walk error is fatal in revert (`src/revert.rs:41`). In the manifest builder
  the same error is only collected and skipped.

## Model

| member | source | states |
|---|---|---|
| Output.SignatureIsEncodedText | src/utils.rs:43 | the marker bytes are the UTF-8 encoding of `// DEVCAT-OUTPUT-FILE` |
| Output.SignatureIsPrefix | src/utils.rs:38-49 | the marker check accepts a file iff it can be opened and begins with the marker bytes; an unopenable or short file reads as unmarked |
| Output.HandleOutput | src/utils.rs:26-36 | without an output path the report is printed unchanged; with one, the marker bytes followed by the UTF-8 of a newline and the report are written to that path, and the written bytes pass the marker check |
| History.Insert | src/history.rs:39 | inserting into an id-sorted vector gives an id-sorted vector with the same records plus the new one |
| History.InsertLargest | src/history.rs:39 | a record whose id is not below any present id lands at the end |
| History.InsertKeepsOrder | src/history.rs:39 | inserting a record puts it after every record with the same id and keeps their order |
| History.SortByIdStable | src/history.rs:39 | the sort is stable: for every id the records carrying it keep their input order, so the first record with an id is the one first in the file |
| History.SortById | src/history.rs:39 | the result is sorted by id and is a permutation of the input |
| History.SortSortedIsIdentity | src/history.rs:39 | sorting an already sorted vector changes nothing |
| History.Load | src/history.rs:24-41 | a missing file gives an empty history; blank lines are skipped; one malformed line fails the whole load with a JSON error; the result is sorted by id and holds exactly the parsed records |
| History.ParseFailureSticks | src/history.rs:32-37 | once a prefix of the file holds a malformed line, the whole file fails to load |
| History.RecordLines | src/history.rs:45-48 | save writes exactly one line per record |
| History.LoadAfterSave | src/history.rs:24-50 | loading what save wrote gives back the same sorted vector, when records read back and none serialises to a blank line |
| History.LinesParseBack | src/history.rs:43-50 | the saved lines parse back to the records in vector order |
| History.GetSnapshot | src/history.rs:62-64 | an Ok result is the first record with the requested id; `SnapshotIdNotFound(id)` exactly when no record has it |
| History.GetLatest | src/history.rs:66-68 | the last record, or `NoSnapshots` exactly when the vector is empty |
| History.NextIdIsFresh | src/history.rs:53 | in a sorted vector the next id is larger than every present id |
| History.History.AddSnapshot | src/history.rs:52-60 | appends exactly one record, with id last id + 1 (or 1), keeps the earlier records, and preserves sortedness and strictly increasing ids |
| History.History.Save | src/history.rs:43-50 | the written file is the serialised records, one per line, in vector order |
| Paths.PathLessIsStrictTotal | src/diff.rs:37 | Rust's component-wise path order is a strict total order |
| Paths.AscendingUnique | src/diff.rs:37-39 | two ascending enumerations of the same set of paths are equal, so `BTreeMap` key order is determined by the keys |
| Paths.AscendingOrder | src/diff.rs:37-39 | the key order of a `BTreeMap` lists each key once, in strictly ascending path order |
| Paths.SortPaths | src/diff.rs:37-39 | produces exactly that key order |
| ManifestBuilder.WalkerTextExample | src/utils.rs:125 | an unreadable file `a/b` is reported as `./a/b` |
| ManifestBuilder.BuildAt | src/utils.rs:103-136 | a path is in the manifest iff the walk yields it as a file, every directory above it passes the filter, it is readable, unmarked and not the root; its digest is the hash of its content |
| ManifestBuilder.BuildContents | src/utils.rs:103-136 | the same for every path at once |
| ManifestBuilder.ManifestExclusions | src/utils.rs:89-134 | the manifest holds nothing under `.devcat`, nothing in or under a glob-excluded directory, no marked report and not the empty path |
| ManifestBuilder.ReportsAreNeverCaptured | src/utils.rs:117-121 | a report written by `handle_output` is never captured |
| ManifestBuilder.SameContentSameDigest | src/utils.rs:129-132 | two captured files with the same content carry the same digest |
| ManifestBuilder.GetCurrentManifest | src/utils.rs:75-146 | fails with a glob error iff a pattern does not compile; otherwise returns the built manifest, and collects the walk errors and the unreadable files (as `./a/b`) as skipped, in walk order |
| Store.GetManifestFromHash | src/utils.rs:148-156 | `ObjectNotFound(hash)` iff no object is stored under the digest; Ok iff the object parses; a JSON error otherwise |
| Store.SavedThenUnchanged | src/utils.rs:169-173 | after a save of a manifest, saving the same manifest short-circuits |
| Store.ObjectsHoldContent | src/utils.rs:175-181 | with a collision-free digest and a content-addressed store, the object under a file's digest is the file's content |
| Store.SaveKeepsContentAddressed | src/utils.rs:175-183 | a save keeps every object stored under the digest of its own bytes |
| Store.SaveKeepsResolvable | src/utils.rs:175-185 | a save keeps every record resolvable, including the new one |
| Store.StoreBlobs | src/utils.rs:175-181 | every manifest digest ends up stored; existing objects are never rewritten; each new object is the content of a file with that digest |
| Store.Commit | src/utils.rs:175-192 | stores every blob and the manifest under its digest, appends one record with the next id, rewrites no other object, and keeps the store content-addressed and every record resolvable |
| Store.PerformSave | src/utils.rs:158-193 | a glob error iff a pattern fails to compile; `NoChanges` iff the latest record already has this manifest's digest, and then nothing changes; otherwise blobs and manifest are stored and exactly one record is appended with the next id and the message; content addressing and resolvability are preserved |
| Store.SaveTwice | src/utils.rs:169-173 | saving twice with no change in between: the second save reports no changes |
| Prune.KeptHashesMembers | src/prune.rs:28-36 | the kept set holds exactly the kept manifest digests and every digest inside a kept manifest that loads |
| Prune.DropKeepsKept | src/prune.rs:40-51 | the deletion loop only removes objects, never changes one, and never removes a kept digest or one whose removal fails |
| Prune.DropRemovesOnlyDropped | src/prune.rs:40-51 | every removed object is a dropped record's manifest, or a digest inside such a manifest as stored before the prune |
| Prune.DroppedBlobsSurvive | src/prune.rs:41-48 | when no dropped manifest digest is kept or stuck (every removal of a dropped manifest succeeds), only dropped manifest objects are removed, and no blob is |
| Prune.PruneKeepsResolvable | src/prune.rs:28-51 | if every record resolved before the prune, every kept record resolves after it |
| Prune.PruneNextId | src/prune.rs:24-26 | keeping at least one record preserves the next id and sortedness; keeping none restarts ids at 1 |
| Prune.CollectKeptHashes | src/prune.rs:28-36 | the kept-hash loop computes the kept set |
| Prune.DeleteDropped | src/prune.rs:41-50 | one pass removes the manifest first and then the blobs found by re-reading it |
| Prune.Run | src/prune.rs:15-60 | no-op when the history has at most `keep` records; otherwise the history becomes exactly the last `keep` records (dropped + kept = old history) and the store is the result of the deletion loop |
| Diff.GenerateDiff | src/diff.rs:74-86 | the block is the `--- a/p` / `+++ b/p` header followed by every change with its `-`, `+` or space sign |
| Diff.ReadText | src/diff.rs:46 | reading fails with an I/O error iff the file is missing or not UTF-8 |
| Diff.GetManifest | src/diff.rs:67-72 | `SnapshotIdNotFound(id)` iff no record has the id; otherwise, for the first record with the id, an I/O error iff its manifest object is missing, a JSON error iff the object does not parse, and the parsed manifest otherwise |
| Diff.Endpoints | src/diff.rs:26-34 | two ids compare the two snapshots' manifests; one id compares its manifest with the working tree's; no id compares the latest snapshot's manifest with the working tree's (`NoSnapshots` on an empty history); a second id without a first is a format error; the old side's error comes first, then the new side's |
| Diff.EmptyIffSameDigests | src/diff.rs:39-56 | the report is empty iff every path of the union has the same digest on both sides |
| Diff.SameSnapshotNoChanges | src/diff.rs:43-59 | comparing a snapshot with itself reports no changes whenever its manifest loads |
| Diff.NewSideFromWorkingTree | src/diff.rs:45-53 | the report depends only on the objects of the old manifest; the new side is never read from the store |
| Diff.DiffPath | src/diff.rs:40-55 | one iteration of the path loop computes that path's block |
| Diff.DiffAll | src/diff.rs:37-56 | the path loop computes the concatenated blocks, stopping at the first failed read |
| Diff.Run | src/diff.rs:21-65 | the command yields the whole specified outcome: load, endpoints, blocks in path order, then no report or the routed report |
| Revert.RevertManifest | src/revert.rs:18-23 | a history load error is passed on; an unknown id is `SnapshotIdNotFound(id)`; for the first record with the id, an I/O error iff its manifest object is missing, a JSON error iff it does not parse, and otherwise the parsed manifest |
| Revert.RestoreAt | src/revert.rs:25-33 | the write loop fails exactly when an object is missing, with an I/O error; otherwise every manifest path holds its object's content and no other file changes |
| Revert.SweepAt | src/revert.rs:35-50 | the deletion walk fails exactly on a walk error; it removes exactly the yielded files outside `.devcat` that the manifest does not name, and changes no content |
| Revert.ApplyAt | src/revert.rs:25-50 | after both phases, manifest paths hold their recorded content, and other files survive only under `.devcat` or when not yielded by the walk |
| Revert.RevertRestoresManifest | src/revert.rs:16-54 | a revert succeeds iff the manifest loads, all its objects are present and the walk reports no error; then each manifest path holds its recorded content, hashing to its digest in a content-addressed store, and every other yielded file outside `.devcat` is removed |
| Revert.ApplySucceeds | src/revert.rs:25-50 | the write and sweep phases succeed iff every manifest object is present and the walk is clean |
| Revert.FailureBeforeWriteKeepsTree | src/revert.rs:18-23 | a load, lookup or manifest failure leaves the working tree untouched |
| Revert.RestoreFiles | src/revert.rs:25-33 | the write loop computes the write phase |
| Revert.SweepFiles | src/revert.rs:40-50 | the deletion loop computes the sweep phase |
| Revert.Run | src/revert.rs:16-54 | the command's result and final working tree are the specified ones |
| Watch.Step | src/watch.rs:47-71 | a save clears the timer; a running timer is less than two seconds old; any forwarded event restarts the timer at the current time and prevents a save in that turn |
| Watch.OwnWritesIgnored | src/watch.rs:24-34 | events whose first path is inside `./.devcat` never restart the timer |
| Watch.BurstNeverSaves | src/watch.rs:48-54 | no save happens while changes keep arriving on every turn |
| Watch.QuietPeriodSavesOnce | src/watch.rs:53-69 | in a quiet period, exactly the first turn at least two seconds after the last change saves |
| Watch.IdleNeverSaves | src/watch.rs:53-69 | with no timer and no changes, nothing is saved |
| Watch.Watcher.Turn | src/watch.rs:47-71 | one turn updates the timer as specified and saves exactly when due, with message `Auto-snapshot @ <time>`; a due save has `perform_save`'s outcome: a glob error iff a pattern does not compile, `NoChanges` iff the latest record has the same manifest digest, the repository untouched unless saved, and on a save the record appended, the manifest and every blob stored, no other object rewritten and every new object the manifest or a captured file's content; with a collision-free digest each captured path's digest holds its content; content addressing and resolvability are preserved |
| Trace.Window | src/trace.rs:43-53 | the window holds the lines from `max(0, line-1-context)` to `min(line+context, #lines)`, numbered in ascending order, each with its text, and only the referenced line is marked |
| Trace.WindowMarksReferencedLine | src/trace.rs:44-53 | the referenced line is shown and marked iff the file has that many lines; at most `2*context+1` lines are shown |
| Trace.BlockShape | src/trace.rs:40-59 | a file's block starts with its start line and holds no other start line |
| Trace.StartsComeFromFirstReferences | src/trace.rs:30-40 | every reported file exists, and is reported with the first reference to it that has a nonzero line |
| Trace.EachFileOnce | src/trace.rs:37 | no file is reported twice |
| Trace.EveryReferencedFileReported | src/trace.rs:30-40 | every existing file referenced with a nonzero line is reported |
| Trace.EmitBlock | src/trace.rs:40-59 | one reported reference yields its start line, its numbered window or the unreadable note, and its end line |
| Trace.Run | src/trace.rs:21-64 | the loop produces the specified report lines |
| LogCmd.Truncate | src/log_cmd.rs:31 | the shown message is a prefix of the message, at most 50 characters, and the whole message when it fits |
| LogCmd.Rows | src/log_cmd.rs:24-33 | row k shows the k-th record counted from the end |
| LogCmd.ListingShape | src/log_cmd.rs:18-34 | an empty history gives only the hint; otherwise a header, a separator and one row per record, newest first, with non-increasing ids for a sorted history |
| LogCmd.Listing | src/log_cmd.rs:18-34 | the loop computes the listing |
| LogCmd.Run | src/log_cmd.rs:13-37 | a load error is passed on; otherwise the listing of the loaded, id-sorted history |

## Left out

- File-system failures other than those named above are not modelled. This
  covers `create_dir_all`, `fs::write`, the `objects_dir.exists()` guard, the
  revert's `remove_file` failure, and the final `history.save()`. Revert's
  parent-directory creation is left out too, because directories are not
  modelled.
- `Store.PerformSave` and `Prune.Run` work on the already loaded history in
  `Repo.history`. The log file round trip is modelled separately by
  `History.Load`, `History.History.Save` and `History.LoadAfterSave`. Prune's
  reload of the log before rewriting it is the same vector in the model.
- Store.StoreBlobs: the working tree is taken to be unchanged during a save.
  The source reads each new blob a second time when it stores it
  (`src/utils.rs:178`). A file edited between the walk and that read would be
  stored under a digest that is not its hash. The model stores the contents
  the manifest was hashed from, so `Store.PerformSave` keeping the store
  content-addressed holds only for an unchanged tree. A failed second read (an
  I/O error) is not modelled either.
- Walker rules are not modelled: gitignore, hidden files, symlinks and
  `is_file` on special files. The walk is an input. Its `Failed` items are the
  errors the filtered walker reports, so `Skipped` lists them all; the walker
  never descends into an excluded directory, so no error comes from inside
  one, while `Found` items still pass through `Admitted`. Revert's `is_file` check is
  membership in the tree.
- SHA-256, serde_json, chrono formatting, the `similar` differ, `globset` and
  the trace regex are parameters, not implementations. Their properties appear
  only as hypotheses of the lemmas that need them.
- Printing is not modelled: stdout, stderr, and the skipped-items warning.
  `Skipped` computes the list without printing it.
- Trace and log produce structured lines: `Trace.TraceLine` and
  `LogCmd.LogLine`. The text formatting of those lines is not modelled: field
  widths, number rendering and timestamp format. The final `handle_output` call
  of trace and log is not applied, but `Output.HandleOutput` models that step.
- Trace: splitting file content with `lines()` is an input (the file's lines).
- Trace: the `seen` set compares paths as strings. Rust compares `Path`
  components.
- Trace: reference line numbers are naturals. A number too large for `usize`
  is skipped by the source; that case is not represented.
- History.History.AddSnapshot: requires the last id to be below 2^32 - 1. The
  source's `u32` increment would overflow there.
- Store.PerformSave and Watch.Watcher.Turn: carry the same requirement on the
  last id, also for the calls that add no record (a glob error, `NoChanges`, a
  turn that does not save), which the source allows at any id. `Store.Commit`
  always appends a record, so for it the requirement is the overflow bound.
- History.RecordLines: the history file is modelled as its sequence of lines,
  so a serialised record is taken to hold no newline (serde_json's compact
  output never does).
- Watch: the `notify` thread, the channel, `sleep`, `Instant` and the endless
  loop are left out. One turn of the loop is `Watch.Watcher.Turn`, and runs of
  turns are `Watch.Saves`. Loading the configuration is left out too.
- `clean`, `config`, `save` (the CLI wrapper), `inspect` and the argument
  structs are not part of this model. The error enum's variants are reused as
  `Types.Error`.
