/** The diff command: compares two snapshots, or a snapshot and the working
    tree, path by path in path order, and renders a unified-style line diff
    for every path whose digest differs. */
module Diff {
  import opened Types
  import H = History
  import MB = ManifestBuilder
  import Paths
  import Output

  datatype ChangeTag = Delete | Insert | Equal

  /** One change of a line diff; `value` is the change as rendered. */
  datatype Change = Change(tag: ChangeTag, value: string)

  /** `TextDiff::from_lines(old, new).iter_all_changes()` of the `similar` crate. */
  type Differ = (string, string) -> seq<Change>

  function Sign(tag: ChangeTag): string
  {
    match tag
    case Delete => "-"
    case Insert => "+"
    case Equal => " "
  }

  /** The two header lines of a file's diff. */
  function Header(p: Path): string
  {
    "--- a/" + Paths.Display(p) + "\n+++ b/" + Paths.Display(p) + "\n"
  }

  /** Each change rendered as its sign followed by the line. */
  function ChangeLines(changes: seq<Change>): string
  {
    if changes == [] then ""
    else ChangeLines(changes[..|changes| - 1]) + Sign(changes[|changes| - 1].tag) + changes[|changes| - 1].value
  }

  /** The rendered diff of a file. */
  function DiffText(p: Path, oldText: string, newText: string, differ: Differ): string
  {
    Header(p) + ChangeLines(differ(oldText, newText))
  }

  /** `generate_diff`. */
  method GenerateDiff(p: Path, oldText: string, newText: string, differ: Differ) returns (text: string)
    ensures text == DiffText(p, oldText, newText, differ)
    ensures |text| >= |Header(p)| && text[..|Header(p)|] == Header(p)
  {
    text := "--- a/" + Paths.Display(p) + "\n+++ b/" + Paths.Display(p) + "\n";
    var changes := differ(oldText, newText);
    for i := 0 to |changes|
      invariant text == Header(p) + ChangeLines(changes[..i])
    {
      assert changes[..i + 1][..i] == changes[..i];
      text := text + Sign(changes[i].tag) + changes[i].value;
    }
    assert changes[..|changes|] == changes;
  }

  /** `manifest.get(path)`. */
  function Get(m: Manifest, p: Path): Option<Digest>
  {
    if p in m then Some(m[p]) else None
  }

  /** `fs::read_to_string`: a missing file and content that is not UTF-8 are both I/O errors. */
  function ReadText<K>(store: map<K, Bytes>, key: K, c: Codec): (r: Result<string>)
    ensures r.Err? <==> key !in store || c.decodeText(store[key]).None?
    ensures r.Err? ==> r.error == Io
    ensures r.Ok? ==> c.decodeText(store[key]) == Some(r.value)
  {
    if key !in store then Err(Io)
    else match c.decodeText(store[key])
      case None => Err(Io)
      case Some(t) => Ok(t)
  }

  /** `diff::get_manifest`: the manifest of the first record with this id. A
      missing manifest object is an I/O error here, a malformed one a JSON error. */
  function GetManifest(id: u32, history: seq<Snapshot>, objects: map<Digest, Bytes>, c: Codec): (r: Result<Manifest>)
    ensures r == Err(SnapshotIdNotFound(id)) <==> forall i :: 0 <= i < |history| ==> history[i].id != id
    ensures r.Ok? ==>
      exists i :: 0 <= i < |history| && history[i].id == id && history[i].manifestHash in objects
        && c.parseManifest(objects[history[i].manifestHash]) == Some(r.value)
    ensures r.Err? ==> r.error in {SnapshotIdNotFound(id), Io, Json}
    // The first record with the id decides: its object missing is an I/O error,
    // its object not parsing a JSON error, and otherwise its manifest is returned.
    ensures H.GetSnapshot(history, id).Ok? ==>
      var h := H.GetSnapshot(history, id).value.manifestHash;
      && (h !in objects <==> r == Err(Io))
      && (h in objects && c.parseManifest(objects[h]).None? ==> r == Err(Json))
      && (h in objects && c.parseManifest(objects[h]).Some? ==> r == Ok(c.parseManifest(objects[h]).value))
  {
    var s :- H.GetSnapshot(history, id);
    if s.manifestHash !in objects then Err(Io)
    else match c.parseManifest(objects[s.manifestHash])
      case None => Err(Json)
      case Some(m) => Ok(m)
  }

  /** What `get_current_manifest` returns for the working tree. */
  function Current(walk: seq<MB.WalkItem>, files: map<Path, Bytes>, globs: MB.GlobSet, excludes: seq<string>, c: Codec): Result<Manifest>
  {
    if MB.AllCompile(globs, excludes) then Ok(MB.Build(walk, files, globs, excludes, c)) else Err(Glob)
  }

  /** The pair of manifests compared for the given ids: both snapshots; a
      snapshot and the working tree; the latest snapshot and the working tree;
      a second id without a first is a format error. */
  function Endpoints(id1: Option<u32>, id2: Option<u32>, history: seq<Snapshot>, objects: map<Digest, Bytes>,
                     current: Result<Manifest>, c: Codec): (r: Result<(Manifest, Manifest)>)
    ensures id1.None? && id2.Some? ==> r == Err(Format)
    ensures id1.None? && id2.None? && history == [] ==> r == Err(NoSnapshots)
    ensures id2.None? && r.Ok? ==> current == Ok(r.value.1)
    // With a first id, the old side is that snapshot's manifest, resolved first.
    ensures id1.Some? ==>
      var g := GetManifest(id1.value, history, objects, c);
      (g.Err? ==> r == Err(g.error)) && (r.Ok? ==> g == Ok(r.value.0))
    // With two ids, the new side is the second snapshot's manifest.
    ensures id1.Some? && id2.Some? && GetManifest(id1.value, history, objects, c).Ok? ==>
      var g := GetManifest(id2.value, history, objects, c);
      (g.Err? ==> r == Err(g.error))
      && (g.Ok? ==> r == Ok((GetManifest(id1.value, history, objects, c).value, g.value)))
    // With one id, the new side is the working tree.
    ensures id1.Some? && id2.None? && GetManifest(id1.value, history, objects, c).Ok? ==>
      (current.Err? ==> r == Err(current.error))
      && (current.Ok? ==> r == Ok((GetManifest(id1.value, history, objects, c).value, current.value)))
    // With no id, the latest snapshot is compared with the working tree.
    ensures id1.None? && id2.None? && history != [] ==>
      var g := GetManifest(history[|history| - 1].id, history, objects, c);
      && (g.Err? ==> r == Err(g.error))
      && (g.Ok? && current.Err? ==> r == Err(current.error))
      && (g.Ok? && current.Ok? ==> r == Ok((g.value, current.value)))
  {
    match (id1, id2)
    case (Some(a), Some(b)) =>
      var oldM :- GetManifest(a, history, objects, c);
      var newM :- GetManifest(b, history, objects, c);
      Ok((oldM, newM))
    case (Some(a), None) =>
      var oldM :- GetManifest(a, history, objects, c);
      var newM :- current;
      Ok((oldM, newM))
    case (None, None) =>
      var latest :- H.GetLatest(history);
      var oldM :- GetManifest(latest.id, history, objects, c);
      var newM :- current;
      Ok((oldM, newM))
    case (None, Some(_)) => Err(Format)
  }

  /** The diff block of one path: nothing when both sides carry the same digest;
      otherwise the old text comes from the object store and the new text from
      the working tree, whichever snapshot the new side names. */
  function Block(p: Path, oldM: Manifest, newM: Manifest, objects: map<Digest, Bytes>, files: map<Path, Bytes>,
                 c: Codec, differ: Differ): Result<string>
  {
    if Get(oldM, p) == Get(newM, p) then Ok("")
    else
      var oldText :- if p in oldM then ReadText(objects, oldM[p], c) else Ok("");
      var newText :- if p in newM then ReadText(files, p, c) else Ok("");
      Ok(DiffText(p, oldText, newText, differ))
  }

  /** The blocks of the paths in `order`, concatenated; the first failing read ends the command. */
  function Blocks(order: seq<Path>, oldM: Manifest, newM: Manifest, objects: map<Digest, Bytes>, files: map<Path, Bytes>,
                  c: Codec, differ: Differ): Result<string>
  {
    if order == [] then Ok("")
    else
      var init :- Blocks(order[..|order| - 1], oldM, newM, objects, files, c, differ);
      var block :- Block(order[|order| - 1], oldM, newM, objects, files, c, differ);
      Ok(init + block)
  }

  /** The whole command: the printed report, `None` when there is nothing to
      report (the "no changes" message), or where the report went. */
  ghost function DiffCommand(log: Option<seq<string>>, id1: Option<u32>, id2: Option<u32>, objects: map<Digest, Bytes>,
                             walk: seq<MB.WalkItem>, files: map<Path, Bytes>, globs: MB.GlobSet, excludes: seq<string>,
                             output: Option<Path>, c: Codec, differ: Differ): Result<Option<Output.Emitted>>
  {
    var history :- H.LoadFile(log, c);
    var pair :- Endpoints(id1, id2, history, objects, Current(walk, files, globs, excludes, c), c);
    var text :- Blocks(Paths.AscendingOrder(pair.0.Keys + pair.1.Keys), pair.0, pair.1, objects, files, c, differ);
    Ok(if text == "" then None else Some(Output.HandleOutput(text, output)))
  }

  /** The report is empty exactly when every listed path has the same digest on
      both sides; then no file is read at all. */
  lemma {:induction false} EmptyIffSameDigests(order: seq<Path>, oldM: Manifest, newM: Manifest, objects: map<Digest, Bytes>,
                                               files: map<Path, Bytes>, c: Codec, differ: Differ)
    ensures (forall i :: 0 <= i < |order| ==> Get(oldM, order[i]) == Get(newM, order[i])) ==>
      Blocks(order, oldM, newM, objects, files, c, differ) == Ok("")
    ensures Blocks(order, oldM, newM, objects, files, c, differ) == Ok("") ==>
      forall i :: 0 <= i < |order| ==> Get(oldM, order[i]) == Get(newM, order[i])
  {
    if order != [] {
      var init := order[..|order| - 1];
      EmptyIffSameDigests(init, oldM, newM, objects, files, c, differ);
      assert forall i :: 0 <= i < |init| ==> init[i] == order[i];
      if forall i :: 0 <= i < |order| ==> Get(oldM, order[i]) == Get(newM, order[i]) {
        assert forall i :: 0 <= i < |init| ==> Get(oldM, init[i]) == Get(newM, init[i]);
        assert Get(oldM, order[|order| - 1]) == Get(newM, order[|order| - 1]);
        assert Block(order[|order| - 1], oldM, newM, objects, files, c, differ) == Ok("");
        assert "" + "" == "";  // the fold joins the two empty texts
      }
    }
  }

  /** Comparing a snapshot with itself reports no changes, unless a manifest
      cannot be loaded. */
  lemma SameSnapshotNoChanges(log: Option<seq<string>>, id: u32, objects: map<Digest, Bytes>,
                              walk: seq<MB.WalkItem>, files: map<Path, Bytes>, globs: MB.GlobSet, excludes: seq<string>,
                              output: Option<Path>, c: Codec, differ: Differ)
    ensures DiffCommand(log, Some(id), Some(id), objects, walk, files, globs, excludes, output, c, differ).Ok? ==>
      DiffCommand(log, Some(id), Some(id), objects, walk, files, globs, excludes, output, c, differ) == Ok(None)
    ensures H.LoadFile(log, c).Ok? && GetManifest(id, H.LoadFile(log, c).value, objects, c).Ok? ==>
      DiffCommand(log, Some(id), Some(id), objects, walk, files, globs, excludes, output, c, differ) == Ok(None)
  {
    if H.LoadFile(log, c).Ok? {
      var history := H.LoadFile(log, c).value;
      var m := GetManifest(id, history, objects, c);
      if m.Ok? {
        var order := Paths.AscendingOrder(m.value.Keys + m.value.Keys);
        EmptyIffSameDigests(order, m.value, m.value, objects, files, c, differ);
      }
    }
  }

  /** The new side is never read from the object store: two stores that agree on
      the old manifest's objects give the same report, whatever the new manifest's
      objects hold. */
  lemma {:induction false} NewSideFromWorkingTree(order: seq<Path>, oldM: Manifest, newM: Manifest,
                                                  objects1: map<Digest, Bytes>, objects2: map<Digest, Bytes>,
                                                  files: map<Path, Bytes>, c: Codec, differ: Differ)
    requires forall p :: p in oldM ==> (oldM[p] in objects1 <==> oldM[p] in objects2)
    requires forall p :: p in oldM && oldM[p] in objects1 ==> objects1[oldM[p]] == objects2[oldM[p]]
    ensures Blocks(order, oldM, newM, objects1, files, c, differ) == Blocks(order, oldM, newM, objects2, files, c, differ)
  {
    if order != [] {
      NewSideFromWorkingTree(order[..|order| - 1], oldM, newM, objects1, objects2, files, c, differ);
    }
  }

  /** Once a prefix of the paths fails, the whole loop fails with that error. */
  lemma {:induction false} BlocksFailureSticks(order: seq<Path>, n: nat, oldM: Manifest, newM: Manifest,
                                               objects: map<Digest, Bytes>, files: map<Path, Bytes>, c: Codec, differ: Differ)
    requires n <= |order|
    requires Blocks(order[..n], oldM, newM, objects, files, c, differ).Err?
    ensures Blocks(order, oldM, newM, objects, files, c, differ) == Blocks(order[..n], oldM, newM, objects, files, c, differ)
    decreases |order| - n
  {
    if n < |order| {
      assert order[..n + 1][..n] == order[..n];
      BlocksFailureSticks(order, n + 1, oldM, newM, objects, files, c, differ);
    } else {
      assert order[..n] == order;
    }
  }

  /** One iteration of the loop of `diff::run`. */
  method DiffPath(p: Path, oldM: Manifest, newM: Manifest, objects: map<Digest, Bytes>, files: map<Path, Bytes>,
                  c: Codec, differ: Differ) returns (r: Result<string>)
    ensures r == Block(p, oldM, newM, objects, files, c, differ)
  {
    var oldHash := Get(oldM, p);
    var newHash := Get(newM, p);
    if oldHash == newHash {
      return Ok("");
    }
    var oldText := "";
    if oldHash.Some? {
      oldText :- ReadText(objects, oldHash.value, c);
    }
    var newText := "";
    if newHash.Some? {
      newText :- ReadText(files, p, c);
    }
    var block := GenerateDiff(p, oldText, newText, differ);
    return Ok(block);
  }

  /** The loop of `diff::run` over the union of both manifests' paths. */
  method DiffAll(order: seq<Path>, oldM: Manifest, newM: Manifest, objects: map<Digest, Bytes>, files: map<Path, Bytes>,
                 c: Codec, differ: Differ) returns (r: Result<string>)
    ensures r == Blocks(order, oldM, newM, objects, files, c, differ)
  {
    var text := "";
    for i := 0 to |order|
      invariant Blocks(order[..i], oldM, newM, objects, files, c, differ) == Ok(text)
    {
      assert order[..i + 1][..i] == order[..i];
      var block := DiffPath(order[i], oldM, newM, objects, files, c, differ);
      if block.Err? {
        BlocksFailureSticks(order, i + 1, oldM, newM, objects, files, c, differ);
        return Err(block.error);
      }
      text := text + block.value;
    }
    assert order[..|order|] == order;
    return Ok(text);
  }

  /** `diff::run`. */
  method Run(log: Option<seq<string>>, id1: Option<u32>, id2: Option<u32>, objects: map<Digest, Bytes>,
             walk: seq<MB.WalkItem>, files: map<Path, Bytes>, globs: MB.GlobSet, excludes: seq<string>,
             output: Option<Path>, c: Codec, differ: Differ) returns (r: Result<Option<Output.Emitted>>)
    ensures r == DiffCommand(log, id1, id2, objects, walk, files, globs, excludes, output, c, differ)
  {
    var history :- H.Load(log, c);
    var current, skipped := MB.GetCurrentManifest(walk, files, globs, excludes, c);
    var pair :- Endpoints(id1, id2, history, objects, current, c);
    var order := Paths.SortPaths(pair.0.Keys + pair.1.Keys);
    var text :- DiffAll(order, pair.0, pair.1, objects, files, c, differ);
    if text == "" {
      return Ok(None);
    }
    return Ok(Some(Output.HandleOutput(text, output)));
  }
}
