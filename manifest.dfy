/** The manifest builder: walks the working tree, leaves out the metadata
    directory, glob-excluded subtrees, report files and unreadable entries,
    and maps every remaining file's root-relative path to its content digest. */
module ManifestBuilder {
  import opened Types
  import Output
  import Paths

  /** One result of the directory walk, in walk order: an entry (with whether it
      is a regular file) or an error, reported with its path when it has one. */
  datatype WalkItem = Found(path: Path, isFile: bool) | Failed(where: string, message: string)

  /** The `globset` crate: whether a pattern compiles, and whether a compiled
      pattern matches a walker path (`./` followed by the components). */
  datatype GlobSet = GlobSet(compiles: string -> bool, matches: (string, seq<string>) -> bool)

  /** Each user pattern applies at any depth. */
  function AnyDepth(pattern: string): string
  {
    "**/" + pattern
  }

  /** The path the walker hands to the filter: `./a/b`. */
  function WalkerPath(p: Path): seq<string>
  {
    ["."] + p
  }

  /** `exclude_set.is_match(entry.path())`. */
  predicate GlobExcluded(globs: GlobSet, excludes: seq<string>, p: Path)
  {
    exists i :: 0 <= i < |excludes| && globs.matches(AnyDepth(excludes[i]), WalkerPath(p))
  }

  /** The `filter_entry` closure of `get_current_manifest`. */
  predicate KeepEntry(globs: GlobSet, excludes: seq<string>, p: Path)
  {
    !UnderDevcat(p) && !GlobExcluded(globs, excludes, p)
  }

  /** The walker yields an entry only when the filter kept it and every directory above it. */
  predicate Admitted(globs: GlobSet, excludes: seq<string>, p: Path)
  {
    forall k :: 1 <= k <= |p| ==> KeepEntry(globs, excludes, p[..k])
  }

  predicate AllCompile(globs: GlobSet, excludes: seq<string>)
  {
    forall i :: 0 <= i < |excludes| ==> globs.compiles(AnyDepth(excludes[i]))
  }

  /** Whether the builder records a walk item: an admitted regular file that is
      readable, is not a report file and is not the root itself. A file that
      cannot be opened reads as unmarked and then fails `fs::read`. */
  predicate Records(item: WalkItem, files: map<Path, Bytes>, globs: GlobSet, excludes: seq<string>)
  {
    && item.Found?
    && item.isFile
    && Admitted(globs, excludes, item.path)
    && item.path in files
    && !Output.CheckFileSignature(Some(files[item.path]))
    && item.path != []
  }

  /** The manifest after the walk items `walk`, in walk order. */
  function Build(walk: seq<WalkItem>, files: map<Path, Bytes>, globs: GlobSet, excludes: seq<string>, c: Codec): Manifest
  {
    if walk == [] then map[]
    else
      var m := Build(walk[..|walk| - 1], files, globs, excludes, c);
      var item := walk[|walk| - 1];
      if Records(item, files, globs, excludes) then m[item.path := c.hash(files[item.path])] else m
  }

  /** The diagnostics gathered on the way: walk errors, and admitted files that
      could not be read. */
  function Skipped(walk: seq<WalkItem>, files: map<Path, Bytes>, globs: GlobSet, excludes: seq<string>): seq<string>
  {
    if walk == [] then []
    else
      var s := Skipped(walk[..|walk| - 1], files, globs, excludes);
      match walk[|walk| - 1]
      case Failed(where, _) => s + [where]
      case Found(p, isFile) =>
        if isFile && Admitted(globs, excludes, p) && p !in files then s + [WalkerText(p)] else s
  }

  /** `to_string_lossy` of the walker path `./a/b`: the root itself is `.`. */
  function WalkerText(p: Path): (r: string)
    ensures p == [] <==> r == "."
    ensures p != [] ==> |r| >= 2 && r[..2] == "./" && r[2..] == Paths.Display(p)
  {
    if p == [] then "." else "./" + Paths.Display(p)
  }

  /** The walker path of `a/b` reads `./a/b`. */
  lemma WalkerTextExample()
    ensures WalkerText(["a", "b"]) == "./a/b"
  {
    assert Paths.Display(["a", "b"]) == "a/b" by {
      assert ["a", "b"][1..] == ["b"];
    }
  }

  /** A path is in the manifest exactly when some walk item for it is recorded. */
  ghost predicate Captured(walk: seq<WalkItem>, files: map<Path, Bytes>, globs: GlobSet, excludes: seq<string>, p: Path)
  {
    && Found(p, true) in walk
    && Admitted(globs, excludes, p)
    && p in files
    && !Output.CheckFileSignature(Some(files[p]))
    && p != []
  }

  /** What the builder's manifest holds: exactly the captured paths, each under
      the digest of its current content. */
  lemma {:induction false} BuildAt(walk: seq<WalkItem>, files: map<Path, Bytes>, globs: GlobSet, excludes: seq<string>, c: Codec, p: Path)
    ensures p in Build(walk, files, globs, excludes, c) <==> Captured(walk, files, globs, excludes, p)
    ensures p in Build(walk, files, globs, excludes, c) ==> p in files && Build(walk, files, globs, excludes, c)[p] == c.hash(files[p])
  {
    if walk != [] {
      var init := walk[..|walk| - 1];
      var last := walk[|walk| - 1];
      BuildAt(init, files, globs, excludes, c, p);
      assert walk == init + [last];
      assert Found(p, true) in walk <==> Found(p, true) in init || last == Found(p, true);
    }
  }

  lemma BuildContents(walk: seq<WalkItem>, files: map<Path, Bytes>, globs: GlobSet, excludes: seq<string>, c: Codec)
    ensures forall p :: p in Build(walk, files, globs, excludes, c) <==> Captured(walk, files, globs, excludes, p)
    ensures forall p :: p in Build(walk, files, globs, excludes, c) ==> p in files && Build(walk, files, globs, excludes, c)[p] == c.hash(files[p])
  {
    forall p ensures (p in Build(walk, files, globs, excludes, c) <==> Captured(walk, files, globs, excludes, p))
      && (p in Build(walk, files, globs, excludes, c) ==> p in files && Build(walk, files, globs, excludes, c)[p] == c.hash(files[p]))
    {
      BuildAt(walk, files, globs, excludes, c, p);
    }
  }

  /** The exclusions the manifest respects: nothing under `.devcat`, nothing in or
      under a glob-excluded directory, no report file, not the empty path, and
      every digest is the digest of the file's content. */
  lemma ManifestExclusions(walk: seq<WalkItem>, files: map<Path, Bytes>, globs: GlobSet, excludes: seq<string>, c: Codec, p: Path)
    requires p in Build(walk, files, globs, excludes, c)
    ensures !UnderDevcat(p)
    ensures forall k :: 1 <= k <= |p| ==> !GlobExcluded(globs, excludes, p[..k])
    ensures !GlobExcluded(globs, excludes, p)
    ensures p != []
    ensures p in files && !Output.CheckFileSignature(Some(files[p]))
    ensures Build(walk, files, globs, excludes, c)[p] == c.hash(files[p])
  {
    BuildAt(walk, files, globs, excludes, c, p);
    assert KeepEntry(globs, excludes, p[..1]);
    assert p[..1][0] == p[0];
    assert KeepEntry(globs, excludes, p[..|p|]);
    assert p[..|p|] == p;
  }

  /** A report written by `handle_output` is never captured into a snapshot. */
  lemma ReportsAreNeverCaptured(walk: seq<WalkItem>, files: map<Path, Bytes>, globs: GlobSet, excludes: seq<string>,
                                c: Codec, p: Path, report: string)
    requires p in files && Output.HandleOutput(report, Some(p)) == Output.Written(p, files[p])
    ensures p !in Build(walk, files, globs, excludes, c)
  {
    BuildAt(walk, files, globs, excludes, c, p);
  }

  /** Dedup: two captured files with the same content carry the same digest,
      so the store holds one object for both. */
  lemma SameContentSameDigest(walk: seq<WalkItem>, files: map<Path, Bytes>, globs: GlobSet, excludes: seq<string>,
                              c: Codec, p: Path, q: Path)
    requires p in Build(walk, files, globs, excludes, c) && q in Build(walk, files, globs, excludes, c)
    requires p in files && q in files && files[p] == files[q]
    ensures Build(walk, files, globs, excludes, c)[p] == Build(walk, files, globs, excludes, c)[q]
  {
    BuildAt(walk, files, globs, excludes, c, p);
    BuildAt(walk, files, globs, excludes, c, q);
  }

  /** `get_current_manifest`: fails only when an exclude pattern does not compile;
      walk errors and unreadable files are collected in `skipped` and omitted. */
  method GetCurrentManifest(walk: seq<WalkItem>, files: map<Path, Bytes>, globs: GlobSet, excludes: seq<string>, c: Codec)
    returns (r: Result<Manifest>, skipped: seq<string>)
    ensures !AllCompile(globs, excludes) <==> r == Err(Glob)
    ensures AllCompile(globs, excludes) ==> r == Ok(Build(walk, files, globs, excludes, c))
    ensures AllCompile(globs, excludes) ==> skipped == Skipped(walk, files, globs, excludes)
  {
    skipped := [];
    for i := 0 to |excludes|
      invariant forall j :: 0 <= j < i ==> globs.compiles(AnyDepth(excludes[j]))
    {
      if !globs.compiles(AnyDepth(excludes[i])) {
        return Err(Glob), skipped;
      }
    }
    var manifest: Manifest := map[];
    for i := 0 to |walk|
      invariant manifest == Build(walk[..i], files, globs, excludes, c)
      invariant skipped == Skipped(walk[..i], files, globs, excludes)
    {
      assert walk[..i + 1][..i] == walk[..i];
      match walk[i]
      case Failed(where, _) =>
        skipped := skipped + [where];
      case Found(path, isFile) =>
        if isFile && Admitted(globs, excludes, path) {
          var marked := Output.CheckFileSignature(if path in files then Some(files[path]) else None);
          if !marked {
            if path !in files {
              skipped := skipped + [WalkerText(path)];
            } else if path != [] {
              manifest := manifest[path := c.hash(files[path])];
            }
          }
        }
    }
    assert walk[..|walk|] == walk;
    r := Ok(manifest);
  }
}
