/** The object store and the save operation: blobs and serialised manifests
    live under their digest; a save stores what is new, then the manifest, then
    appends a snapshot record. */
module Store {
  import opened Types
  import H = History
  import opened ManifestBuilder

  /** `get_manifest_from_hash`. */
  function GetManifestFromHash(objects: map<Digest, Bytes>, hash: Digest, c: Codec): (r: Result<Manifest>)
    ensures r == Err(ObjectNotFound(hash)) <==> hash !in objects
    ensures r.Ok? <==> hash in objects && c.parseManifest(objects[hash]).Some?
    ensures r.Ok? ==> r.value == c.parseManifest(objects[hash]).value
    ensures r.Err? && hash in objects ==> r.error == Json
  {
    if hash !in objects then Err(ObjectNotFound(hash))
    else match c.parseManifest(objects[hash])
      case None => Err(Json)
      case Some(m) => Ok(m)
  }

  /** No dangling references: every record's manifest object is present, and a
      manifest object that parses names only present blobs. */
  ghost predicate Resolvable(objects: map<Digest, Bytes>, snapshots: seq<Snapshot>, c: Codec)
  {
    forall s :: s in snapshots ==> ManifestResolves(objects, s.manifestHash, c)
  }

  ghost predicate ManifestResolves(objects: map<Digest, Bytes>, hash: Digest, c: Codec)
  {
    && hash in objects
    && match c.parseManifest(objects[hash])
       case None => true
       case Some(m) => forall p :: p in m ==> m[p] in objects
  }

  /** The outcome of `perform_save`. */
  datatype SaveStatus = Saved(id: u32, message: string) | NoChanges

  /** Whether `perform_save` short-circuits: the latest record already points at
      the digest of this manifest's serialisation. */
  predicate Unchanged(history: seq<Snapshot>, m: Manifest, c: Codec)
  {
    H.GetLatest(history).Ok? && H.GetLatest(history).value.manifestHash == c.hash(c.serManifest(m))
  }

  /** After a save that stored `m`, saving the same manifest again short-circuits. */
  lemma SavedThenUnchanged(history: seq<Snapshot>, m: Manifest, c: Codec, record: Snapshot)
    requires record.manifestHash == c.hash(c.serManifest(m))
    ensures Unchanged(history + [record], m, c)
  {
  }

  /** The project's metadata: the object store and the persisted history. */
  class Repo {
    var objects: map<Digest, Bytes>
    var history: seq<Snapshot>

    constructor (objects: map<Digest, Bytes>, history: seq<Snapshot>)
      ensures this.objects == objects && this.history == history
    {
      this.objects := objects;
      this.history := history;
    }
  }

  /** A save keeps the store content-addressed: new blobs are file contents
      stored under their digest, and the manifest sits under the digest of its
      serialisation. */
  lemma SaveKeepsContentAddressed(before: map<Digest, Bytes>, after: map<Digest, Bytes>, m: Manifest,
                                  files: map<Path, Bytes>, c: Codec)
    requires ContentAddressed(before, c)
    requires forall p :: p in m ==> p in files && m[p] == c.hash(files[p])
    requires c.hash(c.serManifest(m)) in after && after[c.hash(c.serManifest(m))] == c.serManifest(m)
    requires forall d :: d in after ==>
      (d in before && after[d] == before[d]) || d == c.hash(c.serManifest(m))
      || exists p :: p in m && p in files && m[p] == d && after[d] == files[p]
    ensures ContentAddressed(after, c)
  {
  }

  /** In a content-addressed store with a collision-free digest, the object under
      a captured file's digest is that file's content: one stored copy serves
      every file with the same content. */
  lemma ObjectsHoldContent(objects: map<Digest, Bytes>, m: Manifest, files: map<Path, Bytes>, c: Codec)
    requires HashInjective(c) && ContentAddressed(objects, c)
    requires forall p :: p in m ==> p in files && m[p] == c.hash(files[p]) && m[p] in objects
    ensures forall p :: p in m ==> objects[m[p]] == files[p]
  {
    forall p | p in m ensures objects[m[p]] == files[p] {
      assert c.hash(objects[m[p]]) == c.hash(files[p]);
    }
  }

  /** A save keeps every record resolvable, the new one included, provided
      serde reads back the manifest it wrote. */
  lemma SaveKeepsResolvable(before: map<Digest, Bytes>, after: map<Digest, Bytes>, history: seq<Snapshot>,
                            m: Manifest, record: Snapshot, c: Codec)
    requires Resolvable(before, history, c)
    requires c.parseManifest(c.serManifest(m)) == Some(m)
    requires record.manifestHash == c.hash(c.serManifest(m))
    requires record.manifestHash in after && after[record.manifestHash] == c.serManifest(m)
    requires forall p :: p in m ==> m[p] in after
    requires forall d :: d in before && d != record.manifestHash ==> d in after && after[d] == before[d]
    ensures Resolvable(after, history + [record], c)
  {
    forall s | s in history + [record] ensures ManifestResolves(after, s.manifestHash, c) {
      if s.manifestHash != record.manifestHash {
        assert s in history;
        assert ManifestResolves(before, s.manifestHash, c);
        match c.parseManifest(before[s.manifestHash])
        case None =>
        case Some(sm) =>
          forall p | p in sm ensures sm[p] in after {
            assert sm[p] in before;
          }
      }
    }
  }

  /** The blob loop of `perform_save`: stores the file content for each digest
      not yet present and never rewrites a present object. */
  method StoreBlobs(repo: Repo, manifest: Manifest, files: map<Path, Bytes>)
    requires forall p :: p in manifest ==> p in files
    modifies repo`objects
    ensures forall p :: p in manifest ==> manifest[p] in repo.objects
    ensures forall d :: d in old(repo.objects) ==> d in repo.objects && repo.objects[d] == old(repo.objects)[d]
    ensures forall d :: d in repo.objects ==>
      d in old(repo.objects) || exists p :: p in manifest && p in files && manifest[p] == d && repo.objects[d] == files[p]
  {
    var pending := manifest.Keys;
    while pending != {}
      invariant pending <= manifest.Keys
      invariant forall p :: p in manifest && p !in pending ==> manifest[p] in repo.objects
      invariant forall d :: d in old(repo.objects) ==> d in repo.objects && repo.objects[d] == old(repo.objects)[d]
      invariant forall d :: d in repo.objects ==>
        d in old(repo.objects) || exists p :: p in manifest && p in files && manifest[p] == d && repo.objects[d] == files[p]
      decreases |pending|
    {
      var p :| p in pending;
      var hash := manifest[p];
      if hash !in repo.objects {
        repo.objects := repo.objects[hash := files[p]];
      }
      pending := pending - {p};
    }
  }

  /** The writing half of `perform_save`: stores the new blobs and the manifest
      object, then appends the record with the next id. */
  method Commit(repo: Repo, manifest: Manifest, files: map<Path, Bytes>, message: string, now: Timestamp, c: Codec)
    requires forall p :: p in manifest ==> p in files && manifest[p] == c.hash(files[p])
    requires repo.history != [] ==> repo.history[|repo.history| - 1].id < 0xFFFF_FFFF
    modifies repo
    ensures
      var mh := c.hash(c.serManifest(manifest));
      && repo.history == old(repo.history) + [Snapshot(H.NextId(old(repo.history)), now, message, mh)]
      && mh in repo.objects && repo.objects[mh] == c.serManifest(manifest)
      && (forall p :: p in manifest ==> manifest[p] in repo.objects)
      && (forall d :: d in old(repo.objects) && d != mh ==> d in repo.objects && repo.objects[d] == old(repo.objects)[d])
      && (forall d :: d in repo.objects ==>
            (d in old(repo.objects) && repo.objects[d] == old(repo.objects)[d]) || d == mh
            || exists p :: p in manifest && p in files && manifest[p] == d && repo.objects[d] == files[p])
    ensures ContentAddressed(old(repo.objects), c) ==> ContentAddressed(repo.objects, c)
    ensures HashInjective(c) && ContentAddressed(old(repo.objects), c) ==>
      forall p :: p in manifest ==> repo.objects[manifest[p]] == files[p]
    ensures ManifestRoundTrips(c) && Resolvable(old(repo.objects), old(repo.history), c) ==> Resolvable(repo.objects, repo.history, c)
  {
    var content := c.serManifest(manifest);
    var mh := c.hash(content);
    StoreBlobs(repo, manifest, files);
    repo.objects := repo.objects[mh := content];

    var history := new H.History(repo.history);
    history.AddSnapshot(message, mh, now);
    repo.history := history.snapshots;
    var record := Snapshot(H.NextId(old(repo.history)), now, message, mh);
    assert repo.history == old(repo.history) + [record];
    if ContentAddressed(old(repo.objects), c) {
      SaveKeepsContentAddressed(old(repo.objects), repo.objects, manifest, files, c);
      if HashInjective(c) {
        ObjectsHoldContent(repo.objects, manifest, files, c);
      }
    }
    if ManifestRoundTrips(c) && Resolvable(old(repo.objects), old(repo.history), c) {
      SaveKeepsResolvable(old(repo.objects), repo.objects, old(repo.history), manifest, record, c);
    }
  }

  /** `perform_save` over the working tree `files` walked as `walk`. */
  method PerformSave(repo: Repo, walk: seq<WalkItem>, files: map<Path, Bytes>, globs: GlobSet, excludes: seq<string>,
                     message: string, now: Timestamp, c: Codec) returns (r: Result<SaveStatus>)
    requires repo.history != [] ==> repo.history[|repo.history| - 1].id < 0xFFFF_FFFF
    modifies repo
    ensures !AllCompile(globs, excludes) <==> r == Err(Glob)
    ensures r.Err? ==> r == Err(Glob) && unchanged(repo)
    ensures r == Ok(NoChanges) <==> AllCompile(globs, excludes) && Unchanged(old(repo.history), Build(walk, files, globs, excludes, c), c)
    ensures r == Ok(NoChanges) ==> unchanged(repo)
    ensures r.Ok? && r.value.Saved? ==>
      var m := Build(walk, files, globs, excludes, c);
      var mh := c.hash(c.serManifest(m));
      && r.value == Saved(H.NextId(old(repo.history)), message)
      && repo.history == old(repo.history) + [Snapshot(H.NextId(old(repo.history)), now, message, mh)]
      && mh in repo.objects && repo.objects[mh] == c.serManifest(m)
      && (forall p :: p in m ==> m[p] in repo.objects)
      && (forall d :: d in old(repo.objects) && d != mh ==> d in repo.objects && repo.objects[d] == old(repo.objects)[d])
      && (forall d :: d in repo.objects ==>
            (d in old(repo.objects) && repo.objects[d] == old(repo.objects)[d]) || d == mh
            || exists p :: p in m && p in files && m[p] == d && repo.objects[d] == files[p])
    ensures ContentAddressed(old(repo.objects), c) ==> ContentAddressed(repo.objects, c)
    ensures HashInjective(c) && ContentAddressed(old(repo.objects), c) && r.Ok? && r.value.Saved? ==>
      var m := Build(walk, files, globs, excludes, c);
      forall p :: p in m ==> p in files && m[p] in repo.objects && repo.objects[m[p]] == files[p]
    ensures ManifestRoundTrips(c) && Resolvable(old(repo.objects), old(repo.history), c) ==> Resolvable(repo.objects, repo.history, c)
  {
    var manifestOr, skipped := GetCurrentManifest(walk, files, globs, excludes, c);
    if manifestOr.Err? {
      return Err(manifestOr.error);
    }
    var manifest := manifestOr.value;
    BuildContents(walk, files, globs, excludes, c);
    var mh := c.hash(c.serManifest(manifest));
    var latest := H.GetLatest(repo.history);
    if latest.Ok? && latest.value.manifestHash == mh {
      return Ok(NoChanges);
    }
    var nextId: u32 := H.NextId(repo.history);
    Commit(repo, manifest, files, message, now, c);
    r := Ok(Saved(nextId, message));
  }

  /** Saving twice with no change in between: the second save reports no changes
      and writes nothing. */
  method SaveTwice(repo: Repo, walk: seq<WalkItem>, files: map<Path, Bytes>, globs: GlobSet, excludes: seq<string>,
                   now: Timestamp, later: Timestamp, c: Codec) returns (first: Result<SaveStatus>, second: Result<SaveStatus>)
    requires repo.history != [] ==> repo.history[|repo.history| - 1].id < 0xFFFF_FFFF - 1
    modifies repo
    ensures first.Ok? ==> second == Ok(NoChanges)
  {
    first := PerformSave(repo, walk, files, globs, excludes, "first", now, c);
    if first.Ok? {
      second := PerformSave(repo, walk, files, globs, excludes, "second", later, c);
    } else {
      second := first;
    }
  }
}
