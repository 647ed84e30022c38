/** The revert command: rewrites every file of a snapshot's manifest into the
    working tree, then walks the tree and deletes every file the manifest does
    not name, leaving the metadata directory alone. */
module Revert {
  import opened Types
  import H = History
  import MB = ManifestBuilder
  import Paths

  /** The working tree, as the regular files it holds. */
  class WorkTree {
    var files: map<Path, Bytes>

    constructor (files: map<Path, Bytes>)
      ensures this.files == files
    {
      this.files := files;
    }
  }

  /** The files after a phase, and the error that ended it, if any. */
  datatype Outcome = Outcome(files: map<Path, Bytes>, error: Option<Error>)

  /** The manifest `revert` restores: the first record with this id, its manifest
      object read (a missing object is an I/O error) and parsed. */
  function RevertManifest(log: Option<seq<string>>, id: u32, objects: map<Digest, Bytes>, c: Codec): (r: Result<Manifest>)
    ensures r.Ok? ==>
      && H.LoadFile(log, c).Ok?
      && H.GetSnapshot(H.LoadFile(log, c).value, id).Ok?
      && H.GetSnapshot(H.LoadFile(log, c).value, id).value.manifestHash in objects
      && c.parseManifest(objects[H.GetSnapshot(H.LoadFile(log, c).value, id).value.manifestHash]) == Some(r.value)
    ensures H.LoadFile(log, c).Ok? && H.GetSnapshot(H.LoadFile(log, c).value, id).Err? ==> r == Err(SnapshotIdNotFound(id))
    ensures H.LoadFile(log, c).Err? ==> r == Err(H.LoadFile(log, c).error)
    // Once the record is found: a missing object is an I/O error, an object that
    // does not parse a JSON error, and otherwise its manifest is returned.
    ensures H.LoadFile(log, c).Ok? && H.GetSnapshot(H.LoadFile(log, c).value, id).Ok? ==>
      var h := H.GetSnapshot(H.LoadFile(log, c).value, id).value.manifestHash;
      && (h !in objects <==> r == Err(Io))
      && (h in objects ==> (r.Ok? <==> c.parseManifest(objects[h]).Some?))
      && (h in objects && r.Err? ==> r == Err(Json))
  {
    var history :- H.LoadFile(log, c);
    var snapshot :- H.GetSnapshot(history, id);
    if snapshot.manifestHash !in objects then Err(Io)
    else match c.parseManifest(objects[snapshot.manifestHash])
      case None => Err(Json)
      case Some(m) => Ok(m)
  }

  /** The write loop over the manifest's paths in `order`: each file gets the
      content of its object; the first missing object stops the loop. */
  function Restore(order: seq<Path>, m: Manifest, objects: map<Digest, Bytes>, files: map<Path, Bytes>): Outcome
    requires forall i :: 0 <= i < |order| ==> order[i] in m
  {
    if order == [] then Outcome(files, None)
    else
      var o := Restore(order[..|order| - 1], m, objects, files);
      var p := order[|order| - 1];
      if o.error.Some? then o
      else if m[p] !in objects then Outcome(o.files, Some(Io))
      else Outcome(o.files[p := objects[m[p]]], None)
  }

  /** Whether the walk yields an entry for `p`. */
  predicate Yielded(walk: seq<MB.WalkItem>, p: Path)
  {
    exists i :: 0 <= i < |walk| && walk[i].Found? && walk[i].path == p
  }

  /** The deletion walk: every yielded path outside `.devcat` that is a file and
      is not in the manifest is removed; the first walk error stops the loop. */
  function Sweep(walk: seq<MB.WalkItem>, m: Manifest, files: map<Path, Bytes>): Outcome
  {
    if walk == [] then Outcome(files, None)
    else
      var o := Sweep(walk[..|walk| - 1], m, files);
      if o.error.Some? then o
      else match walk[|walk| - 1]
        case Failed(_, _) => Outcome(o.files, Some(Walk))
        case Found(p, _) =>
          if p in o.files && !UnderDevcat(p) && p !in m then Outcome(o.files - {p}, None) else o
  }

  /** The whole command: its result and the working tree it leaves. */
  ghost function RevertCommand(log: Option<seq<string>>, id: u32, objects: map<Digest, Bytes>, files: map<Path, Bytes>,
                               walk: seq<MB.WalkItem>, c: Codec): (Result<()>, map<Path, Bytes>)
  {
    match RevertManifest(log, id, objects, c)
    case Err(e) => (Err(e), files)
    case Ok(m) => Apply(m, objects, files, walk)
  }

  /** The two phases for a loaded manifest: write in path order, then sweep. */
  ghost function Apply(m: Manifest, objects: map<Digest, Bytes>, files: map<Path, Bytes>, walk: seq<MB.WalkItem>): (Result<()>, map<Path, Bytes>)
  {
    var written := Restore(Paths.AscendingOrder(m.Keys), m, objects, files);
    if written.error.Some? then (Err(written.error.value), written.files)
    else
      var swept := Sweep(walk, m, written.files);
      (if swept.error.Some? then Err(swept.error.value) else Ok(()), swept.files)
  }

  /** What the write loop leaves: every listed path holds its object's content,
      every other file is untouched, and it fails exactly when an object is missing. */
  lemma {:induction false} RestoreAt(order: seq<Path>, m: Manifest, objects: map<Digest, Bytes>, files: map<Path, Bytes>, p: Path)
    requires forall i :: 0 <= i < |order| ==> order[i] in m
    ensures Restore(order, m, objects, files).error.None? <==> forall i :: 0 <= i < |order| ==> m[order[i]] in objects
    ensures Restore(order, m, objects, files).error.Some? ==> Restore(order, m, objects, files).error == Some(Io)
    ensures Restore(order, m, objects, files).error.None? && p in order ==>
      p in Restore(order, m, objects, files).files && Restore(order, m, objects, files).files[p] == objects[m[p]]
    ensures p !in order ==>
      (p in Restore(order, m, objects, files).files <==> p in files)
      && (p in files ==> Restore(order, m, objects, files).files[p] == files[p])
  {
    if order != [] {
      var init := order[..|order| - 1];
      RestoreAt(init, m, objects, files, p);
      assert forall i :: 0 <= i < |init| ==> init[i] == order[i];
      assert order == init + [order[|order| - 1]];
    }
  }

  /** What the deletion walk leaves: it fails exactly on a walk error, removes
      only yielded files outside `.devcat` that the manifest does not name, and
      changes no content. */
  lemma {:induction false} SweepAt(walk: seq<MB.WalkItem>, m: Manifest, files: map<Path, Bytes>, p: Path)
    ensures Sweep(walk, m, files).error.None? <==> forall i :: 0 <= i < |walk| ==> walk[i].Found?
    ensures Sweep(walk, m, files).error.Some? ==> Sweep(walk, m, files).error == Some(Walk)
    ensures Sweep(walk, m, files).error.None? ==>
      (p in Sweep(walk, m, files).files <==> p in files && (UnderDevcat(p) || p in m || !Yielded(walk, p)))
    ensures p in Sweep(walk, m, files).files ==> p in files && Sweep(walk, m, files).files[p] == files[p]
  {
    if walk != [] {
      var init := walk[..|walk| - 1];
      SweepAt(init, m, files, p);
      assert forall i :: 0 <= i < |init| ==> init[i] == walk[i];
      if Yielded(walk, p) && !Yielded(init, p) {
        assert walk[|walk| - 1].Found? && walk[|walk| - 1].path == p;
      }
      if Yielded(init, p) {
        var i :| 0 <= i < |init| && init[i].Found? && init[i].path == p;
        assert walk[i] == init[i];
      }
    }
  }

  /** Every manifest digest has its object in the store. */
  predicate ObjectsPresent(m: Manifest, objects: map<Digest, Bytes>)
  {
    forall q :: q in m ==> m[q] in objects
  }

  /** The walk reports no error. */
  predicate WalkClean(walk: seq<MB.WalkItem>)
  {
    forall i :: 0 <= i < |walk| ==> walk[i].Found?
  }

  /** A revert succeeds exactly when the manifest loads, all its objects are
      present and the walk reports no error. A revert that succeeds leaves every
      manifest file with its recorded content and keeps another file only when it
      lives under `.devcat` or the walk did not yield it; with a content-addressed
      store every restored file hashes to its recorded digest. */
  lemma RevertRestoresManifest(log: Option<seq<string>>, id: u32, objects: map<Digest, Bytes>, files: map<Path, Bytes>,
                               walk: seq<MB.WalkItem>, c: Codec, p: Path)
    ensures RevertCommand(log, id, objects, files, walk, c).0.Ok? <==>
      && RevertManifest(log, id, objects, c).Ok?
      && ObjectsPresent(RevertManifest(log, id, objects, c).value, objects)
      && WalkClean(walk)
    ensures RevertCommand(log, id, objects, files, walk, c).0.Ok? ==>
      var m := RevertManifest(log, id, objects, c).value;
      var final := RevertCommand(log, id, objects, files, walk, c).1;
      && (p in m ==> p in final && final[p] == objects[m[p]])
      && (p in m && ContentAddressed(objects, c) ==> c.hash(final[p]) == m[p])
      && (p !in m ==> (p in final <==> p in files && (UnderDevcat(p) || !Yielded(walk, p))))
      && (p !in m && p in final ==> final[p] == files[p])
  {
    var loaded := RevertManifest(log, id, objects, c);
    if loaded.Ok? {
      var m := loaded.value;
      assert RevertCommand(log, id, objects, files, walk, c) == Apply(m, objects, files, walk);
      ApplySucceeds(m, objects, files, walk);
      if Apply(m, objects, files, walk).0.Ok? {
        ApplyAt(m, objects, files, walk, c, p);
      }
    }
  }

  /** The two phases succeed exactly when every object is present and the walk is clean. */
  lemma ApplySucceeds(m: Manifest, objects: map<Digest, Bytes>, files: map<Path, Bytes>, walk: seq<MB.WalkItem>)
    ensures Apply(m, objects, files, walk).0.Ok? <==> ObjectsPresent(m, objects) && WalkClean(walk)
  {
    var order := Paths.AscendingOrder(m.Keys);
    var written := Restore(order, m, objects, files);
    RestoreAt(order, m, objects, files, []);
    SweepAt(walk, m, written.files, []);
    if ObjectsPresent(m, objects) {
      assert forall i :: 0 <= i < |order| ==> m[order[i]] in objects;
    }
    if forall i :: 0 <= i < |order| ==> m[order[i]] in objects {
      forall q | q in m ensures m[q] in objects {
        assert q in order;
        var i :| 0 <= i < |order| && order[i] == q;
      }
    }
  }

  lemma ApplyAt(m: Manifest, objects: map<Digest, Bytes>, files: map<Path, Bytes>, walk: seq<MB.WalkItem>, c: Codec, p: Path)
    requires Apply(m, objects, files, walk).0.Ok?
    ensures
      var final := Apply(m, objects, files, walk).1;
      && (p in m ==> m[p] in objects && p in final && final[p] == objects[m[p]])
      && (p in m && ContentAddressed(objects, c) ==> c.hash(final[p]) == m[p])
      && (p !in m ==> (p in final <==> p in files && (UnderDevcat(p) || !Yielded(walk, p))))
      && (p !in m && p in final ==> final[p] == files[p])
  {
    var order := Paths.AscendingOrder(m.Keys);
    var written := Restore(order, m, objects, files);
    RestoreAt(order, m, objects, files, p);
    SweepAt(walk, m, written.files, p);
    if p in m {
      assert p in order;
      var i :| 0 <= i < |order| && order[i] == p;
    }
  }

  /** A failure to find the record or to load its manifest happens before any write. */
  lemma FailureBeforeWriteKeepsTree(log: Option<seq<string>>, id: u32, objects: map<Digest, Bytes>, files: map<Path, Bytes>,
                                    walk: seq<MB.WalkItem>, c: Codec)
    requires RevertManifest(log, id, objects, c).Err?
    ensures RevertCommand(log, id, objects, files, walk, c) == (Err(RevertManifest(log, id, objects, c).error), files)
  {
  }

  /** The write loop of `revert::run`. */
  method RestoreFiles(tree: WorkTree, order: seq<Path>, m: Manifest, objects: map<Digest, Bytes>) returns (error: Option<Error>)
    requires forall i :: 0 <= i < |order| ==> order[i] in m
    modifies tree
    ensures Outcome(tree.files, error) == Restore(order, m, objects, old(tree.files))
  {
    for i := 0 to |order|
      invariant Restore(order[..i], m, objects, old(tree.files)) == Outcome(tree.files, None)
    {
      assert order[..i + 1][..i] == order[..i];
      var hash := m[order[i]];
      if hash !in objects {
        RestoreFailureSticks(order, i + 1, m, objects, old(tree.files));
        return Some(Io);
      }
      tree.files := tree.files[order[i] := objects[hash]];
    }
    assert order[..|order|] == order;
    return None;
  }

  lemma {:induction false} RestoreFailureSticks(order: seq<Path>, n: nat, m: Manifest, objects: map<Digest, Bytes>, files: map<Path, Bytes>)
    requires n <= |order|
    requires forall i :: 0 <= i < |order| ==> order[i] in m
    requires Restore(order[..n], m, objects, files).error.Some?
    ensures Restore(order, m, objects, files) == Restore(order[..n], m, objects, files)
    decreases |order| - n
  {
    if n < |order| {
      assert order[..n + 1][..n] == order[..n];
      RestoreFailureSticks(order, n + 1, m, objects, files);
    } else {
      assert order[..n] == order;
    }
  }

  lemma {:induction false} SweepFailureSticks(walk: seq<MB.WalkItem>, n: nat, m: Manifest, files: map<Path, Bytes>)
    requires n <= |walk|
    requires Sweep(walk[..n], m, files).error.Some?
    ensures Sweep(walk, m, files) == Sweep(walk[..n], m, files)
    decreases |walk| - n
  {
    if n < |walk| {
      assert walk[..n + 1][..n] == walk[..n];
      SweepFailureSticks(walk, n + 1, m, files);
    } else {
      assert walk[..n] == walk;
    }
  }

  /** The deletion walk of `revert::run`; `path.is_file()` is checked against the tree as it is now. */
  method SweepFiles(tree: WorkTree, walk: seq<MB.WalkItem>, m: Manifest) returns (error: Option<Error>)
    modifies tree
    ensures Outcome(tree.files, error) == Sweep(walk, m, old(tree.files))
  {
    for i := 0 to |walk|
      invariant Sweep(walk[..i], m, old(tree.files)) == Outcome(tree.files, None)
    {
      assert walk[..i + 1][..i] == walk[..i];
      match walk[i]
      case Failed(_, _) =>
        SweepFailureSticks(walk, i + 1, m, old(tree.files));
        return Some(Walk);
      case Found(p, _) =>
        if p in tree.files && !UnderDevcat(p) && p !in m {
          tree.files := tree.files - {p};
        }
    }
    assert walk[..|walk|] == walk;
    return None;
  }

  /** `revert::run`. */
  method Run(log: Option<seq<string>>, id: u32, objects: map<Digest, Bytes>, tree: WorkTree, walk: seq<MB.WalkItem>, c: Codec)
    returns (r: Result<()>)
    modifies tree
    ensures (r, tree.files) == RevertCommand(log, id, objects, old(tree.files), walk, c)
  {
    var history :- H.Load(log, c);
    var snapshot :- H.GetSnapshot(history, id);
    if snapshot.manifestHash !in objects {
      return Err(Io);
    }
    var parsed := c.parseManifest(objects[snapshot.manifestHash]);
    if parsed.None? {
      return Err(Json);
    }
    var m := parsed.value;
    var order := Paths.SortPaths(m.Keys);
    var error := RestoreFiles(tree, order, m, objects);
    if error.Some? {
      return Err(error.value);
    }
    error := SweepFiles(tree, walk, m);
    if error.Some? {
      return Err(error.value);
    }
    return Ok(());
  }
}
