/** Prune: keep the newest snapshots, delete the objects that only dropped
    snapshots reference, and rewrite the history with the kept records. */
module Prune {
  import opened Types
  import H = History
  import opened Store

  /** The `kept_hashes` set built from the kept records: each manifest digest,
      and every digest inside each kept manifest that reads and parses. */
  function KeptHashes(kept: seq<Snapshot>, objects: map<Digest, Bytes>, c: Codec): set<Digest>
  {
    if kept == [] then {}
    else
      var s := kept[|kept| - 1];
      KeptHashes(kept[..|kept| - 1], objects, c) + {s.manifestHash} + ManifestDigests(objects, s.manifestHash, c)
  }

  /** The digests inside the manifest stored under `hash`, or none when it does not load. */
  function ManifestDigests(objects: map<Digest, Bytes>, hash: Digest, c: Codec): set<Digest>
  {
    match GetManifestFromHash(objects, hash, c)
    case Ok(m) => m.Values
    case Err(_) => {}
  }

  /** One pass of the deletion loop for the dropped record `s`: its manifest
      object is removed first (unless kept), and only then re-read to find its
      blobs. `stuck` holds the objects whose removal fails; failures are ignored. */
  function DropOne(objects: map<Digest, Bytes>, s: Snapshot, kept: set<Digest>, stuck: set<Digest>, c: Codec): map<Digest, Bytes>
  {
    var afterManifest := if s.manifestHash !in kept && s.manifestHash !in stuck then objects - {s.manifestHash} else objects;
    afterManifest - (ManifestDigests(afterManifest, s.manifestHash, c) - kept - stuck)
  }

  /** The store after the deletion loop has handled `dropped`, oldest first. */
  function Drop(objects: map<Digest, Bytes>, dropped: seq<Snapshot>, kept: set<Digest>, stuck: set<Digest>, c: Codec): map<Digest, Bytes>
  {
    if dropped == [] then objects
    else DropOne(Drop(objects, dropped[..|dropped| - 1], kept, stuck, c), dropped[|dropped| - 1], kept, stuck, c)
  }

  /** `kept_hashes` holds exactly the kept manifest digests and the digests inside
      the kept manifests that load. */
  lemma {:induction false} KeptHashesMembers(kept: seq<Snapshot>, objects: map<Digest, Bytes>, c: Codec, d: Digest)
    ensures d in KeptHashes(kept, objects, c) <==>
      exists i :: 0 <= i < |kept| && (d == kept[i].manifestHash || d in ManifestDigests(objects, kept[i].manifestHash, c))
  {
    if kept != [] {
      var init := kept[..|kept| - 1];
      KeptHashesMembers(init, objects, c, d);
      if exists i :: 0 <= i < |kept| && (d == kept[i].manifestHash || d in ManifestDigests(objects, kept[i].manifestHash, c)) {
        var i :| 0 <= i < |kept| && (d == kept[i].manifestHash || d in ManifestDigests(objects, kept[i].manifestHash, c));
        if i < |kept| - 1 {
          assert init[i] == kept[i];
        }
      }
      if d in KeptHashes(init, objects, c) {
        var i :| 0 <= i < |init| && (d == init[i].manifestHash || d in ManifestDigests(objects, init[i].manifestHash, c));
        assert kept[i] == init[i];
      }
    }
  }

  /** Safety: the deletion loop only removes objects, never changes one, and never
      removes an object whose digest is in `kept_hashes`. */
  lemma {:induction false} DropKeepsKept(objects: map<Digest, Bytes>, dropped: seq<Snapshot>, kept: set<Digest>, stuck: set<Digest>, c: Codec)
    ensures forall d :: d in Drop(objects, dropped, kept, stuck, c) ==> d in objects && Drop(objects, dropped, kept, stuck, c)[d] == objects[d]
    ensures forall d :: d in objects && d in kept ==> d in Drop(objects, dropped, kept, stuck, c)
    ensures forall d :: d in objects && d in stuck ==> d in Drop(objects, dropped, kept, stuck, c)
  {
    if dropped != [] {
      DropKeepsKept(objects, dropped[..|dropped| - 1], kept, stuck, c);
    }
  }

  /** Only objects referenced by a dropped record are candidates: its manifest
      digest, or a digest inside its manifest as stored before the prune. */
  lemma {:induction false} DropRemovesOnlyDropped(objects: map<Digest, Bytes>, dropped: seq<Snapshot>, kept: set<Digest>, stuck: set<Digest>, c: Codec, d: Digest)
    requires d in objects && d !in Drop(objects, dropped, kept, stuck, c)
    ensures d !in kept && d !in stuck
    ensures exists i :: 0 <= i < |dropped| && (d == dropped[i].manifestHash || d in ManifestDigests(objects, dropped[i].manifestHash, c))
  {
    DropKeepsKept(objects, dropped, kept, stuck, c);
    var init := dropped[..|dropped| - 1];
    var s := dropped[|dropped| - 1];
    var before := Drop(objects, init, kept, stuck, c);
    if d !in before {
      DropRemovesOnlyDropped(objects, init, kept, stuck, c, d);
      var i :| 0 <= i < |init| && (d == init[i].manifestHash || d in ManifestDigests(objects, init[i].manifestHash, c));
      assert dropped[i] == init[i];
    } else if d != s.manifestHash {
      DropKeepsKept(objects, init, kept, stuck, c);
      var afterManifest := if s.manifestHash !in kept && s.manifestHash !in stuck then before - {s.manifestHash} else before;
      assert d in ManifestDigests(afterManifest, s.manifestHash, c);
      assert afterManifest[s.manifestHash] == objects[s.manifestHash];
    }
  }

  /** The deletion loop removes a dropped manifest object before re-reading it,
      so when no dropped manifest digest is kept or stuck, the only objects removed
      are those manifest objects: no blob of a dropped snapshot is deleted. */
  lemma {:induction false} DroppedBlobsSurvive(objects: map<Digest, Bytes>, dropped: seq<Snapshot>, kept: set<Digest>, stuck: set<Digest>, c: Codec)
    requires forall i :: 0 <= i < |dropped| ==> dropped[i].manifestHash !in kept && dropped[i].manifestHash !in stuck
    ensures forall d :: d in objects && d !in Drop(objects, dropped, kept, stuck, c) ==>
      exists i :: 0 <= i < |dropped| && d == dropped[i].manifestHash
  {
    if dropped != [] {
      var init := dropped[..|dropped| - 1];
      var s := dropped[|dropped| - 1];
      DroppedBlobsSurvive(objects, init, kept, stuck, c);
      var before := Drop(objects, init, kept, stuck, c);
      assert ManifestDigests(before - {s.manifestHash}, s.manifestHash, c) == {};
      forall d | d in objects && d !in Drop(objects, dropped, kept, stuck, c)
        ensures exists i :: 0 <= i < |dropped| && d == dropped[i].manifestHash
      {
        if d in before {
          assert d == s.manifestHash;
        } else {
          var i :| 0 <= i < |init| && d == init[i].manifestHash;
          assert dropped[i] == init[i];
        }
      }
    }
  }

  /** Reachability preservation: if every record resolved before the prune, every
      kept record still resolves after it, and its objects are unchanged. */
  lemma PruneKeepsResolvable(objects: map<Digest, Bytes>, history: seq<Snapshot>, keep: nat, stuck: set<Digest>, c: Codec)
    requires Resolvable(objects, history, c)
    requires |history| > keep
    ensures
      var kept := history[|history| - keep..];
      Resolvable(Drop(objects, history[..|history| - keep], KeptHashes(kept, objects, c), stuck, c), kept, c)
  {
    var kept := history[|history| - keep..];
    var keptHashes := KeptHashes(kept, objects, c);
    var after := Drop(objects, history[..|history| - keep], keptHashes, stuck, c);
    DropKeepsKept(objects, history[..|history| - keep], keptHashes, stuck, c);
    forall s | s in kept ensures ManifestResolves(after, s.manifestHash, c) {
      var i :| 0 <= i < |kept| && kept[i] == s;
      KeptHashesMembers(kept, objects, c, s.manifestHash);
      assert s in history;
      assert ManifestResolves(objects, s.manifestHash, c);
      match c.parseManifest(objects[s.manifestHash])
      case None =>
      case Some(m) =>
        forall p | p in m ensures m[p] in after {
          KeptHashesMembers(kept, objects, c, m[p]);
          assert m[p] in ManifestDigests(objects, kept[i].manifestHash, c);
        }
    }
  }

  /** Ids after a prune: keeping at least one record keeps the next id; keeping
      none empties the history, so numbering restarts at 1. */
  lemma PruneNextId(history: seq<Snapshot>, keep: nat)
    requires |history| > keep
    ensures keep > 0 ==> H.NextId(history[|history| - keep..]) == H.NextId(history)
    ensures keep == 0 ==> H.NextId(history[|history| - keep..]) == 1
    ensures H.SortedById(history) ==> H.SortedById(history[|history| - keep..])
  {
    if keep > 0 {
      assert history[|history| - keep..][keep - 1] == history[|history| - 1];
    }
  }

  /** The first loop of `prune::run`: collects `kept_hashes`. */
  method CollectKeptHashes(kept: seq<Snapshot>, objects: map<Digest, Bytes>, c: Codec) returns (keptHashes: set<Digest>)
    ensures keptHashes == KeptHashes(kept, objects, c)
  {
    keptHashes := {};
    for i := 0 to |kept|
      invariant keptHashes == KeptHashes(kept[..i], objects, c)
    {
      assert kept[..i + 1][..i] == kept[..i];
      keptHashes := keptHashes + {kept[i].manifestHash};
      var manifest := GetManifestFromHash(objects, kept[i].manifestHash, c);
      if manifest.Ok? {
        keptHashes := keptHashes + manifest.value.Values;
      }
    }
    assert kept[..|kept|] == kept;
  }

  /** One pass of the deletion loop of `prune::run`. */
  method DeleteDropped(repo: Repo, s: Snapshot, keptHashes: set<Digest>, stuck: set<Digest>, c: Codec)
    modifies repo`objects
    ensures repo.objects == DropOne(old(repo.objects), s, keptHashes, stuck, c)
  {
    if s.manifestHash !in keptHashes && s.manifestHash !in stuck {
      repo.objects := repo.objects - {s.manifestHash};
    }
    ghost var afterManifest := repo.objects;
    var manifest := GetManifestFromHash(repo.objects, s.manifestHash, c);
    if manifest.Ok? {
      var pending := manifest.value.Values;
      while pending != {}
        invariant pending <= manifest.value.Values
        invariant repo.objects == afterManifest - ((manifest.value.Values - pending) - keptHashes - stuck)
        decreases |pending|
      {
        var hash :| hash in pending;
        if hash !in keptHashes && hash !in stuck {
          repo.objects := repo.objects - {hash};
        }
        pending := pending - {hash};
      }
    }
  }

  /** `prune::run`: keeps the newest `keep` records. `stuck` holds the objects
      whose removal fails. */
  method Run(repo: Repo, keep: nat, stuck: set<Digest>, c: Codec)
    modifies repo
    ensures |old(repo.history)| <= keep ==> unchanged(repo)
    ensures |old(repo.history)| > keep ==>
      var cut := |old(repo.history)| - keep;
      && old(repo.history)[..cut] + repo.history == old(repo.history)
      && |repo.history| == keep
      && repo.objects == Drop(old(repo.objects), old(repo.history)[..cut], KeptHashes(repo.history, old(repo.objects), c), stuck, c)
  {
    if |repo.history| <= keep {
      return;
    }
    var cut := |repo.history| - keep;
    var kept := repo.history[cut..];
    var dropped := repo.history[..cut];
    assert dropped + kept == repo.history;

    var keptHashes := CollectKeptHashes(kept, repo.objects, c);

    ghost var start := repo.objects;
    for i := 0 to |dropped|
      invariant repo.objects == Drop(start, dropped[..i], keptHashes, stuck, c)
      invariant repo.history == old(repo.history)
    {
      assert dropped[..i + 1][..i] == dropped[..i];
      DeleteDropped(repo, dropped[i], keptHashes, stuck, c);
    }
    assert dropped[..|dropped|] == dropped;

    repo.history := kept;
  }
}
