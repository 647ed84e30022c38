/** The watch command: file-system notifications restart a quiet-period timer;
    once two seconds pass with no relevant change, one automatic save runs. */
module Watch {
  import opened Types
  import H = History
  import MB = ManifestBuilder
  import Store

  datatype EventKind = Any | Access | Create | Modify | Remove | Other

  /** A notification event; each path is as reported, `./a/b` being `[".", "a", "b"]`. */
  datatype Event = Event(kind: EventKind, paths: seq<seq<string>>)

  /** What the watcher callback receives: an event, or a watcher error. */
  datatype Notification = Delivered(event: Event) | WatchError

  /** The quiet period, `Duration::from_secs(2)`, in milliseconds. */
  const DEBOUNCE_MS: int := 2000

  /** `path.starts_with("./.devcat")`, compared component by component. */
  predicate UnderMetadata(raw: seq<string>)
  {
    |raw| >= 2 && raw[0] == "." && raw[1] == HISTORY_DIR
  }

  /** The callback's filter: a create, modify or remove event whose first path
      is outside the metadata directory is sent on; everything else is dropped. */
  predicate Forwarded(n: Notification)
  {
    && n.Delivered?
    && n.event.kind in {Create, Modify, Remove}
    && |n.event.paths| > 0
    && !UnderMetadata(n.event.paths[0])
  }

  /** Whether a drain of the channel finds anything. */
  predicate AnyForwarded(arrivals: seq<Notification>)
  {
    exists i :: 0 <= i < |arrivals| && Forwarded(arrivals[i])
  }

  /** One turn of the loop, at time `now` (milliseconds), after the callback has
      seen `arrivals` since the previous turn. */
  datatype Tick = Tick(now: int, arrivals: seq<Notification>)

  /** The timer after the drain: restarted at `now` when something arrived. */
  function Restarted(timer: Option<int>, t: Tick): Option<int>
  {
    if AnyForwarded(t.arrivals) then Some(t.now) else timer
  }

  /** Whether the quiet period has run out. */
  predicate SaveDue(timer: Option<int>, now: int)
  {
    timer.Some? && now - timer.value >= DEBOUNCE_MS
  }

  /** One turn: the new timer, and whether it saves. A save clears the timer. */
  function Step(timer: Option<int>, t: Tick): (r: (Option<int>, bool))
    ensures r.1 ==> r.0.None?
    ensures r.0.Some? ==> t.now - r.0.value < DEBOUNCE_MS
    ensures AnyForwarded(t.arrivals) ==> !r.1 && r.0 == Some(t.now)
  {
    var restarted := Restarted(timer, t);
    if SaveDue(restarted, t.now) then (None, true) else (restarted, false)
  }

  /** For each turn of a run, whether it saved. */
  function Saves(timer: Option<int>, ticks: seq<Tick>): (r: seq<bool>)
    ensures |r| == |ticks|
    decreases |ticks|
  {
    if ticks == [] then []
    else
      var s := Step(timer, ticks[0]);
      [s.1] + Saves(s.0, ticks[1..])
  }

  /** Changes inside the metadata directory, such as the engine's own writes,
      never restart the timer. */
  lemma OwnWritesIgnored(timer: Option<int>, t: Tick)
    requires forall i :: 0 <= i < |t.arrivals| ==>
      t.arrivals[i].Delivered? && |t.arrivals[i].event.paths| > 0 && UnderMetadata(t.arrivals[i].event.paths[0])
    ensures Restarted(timer, t) == timer
  {
  }

  /** No save happens while changes keep arriving on every turn. */
  lemma {:induction false} BurstNeverSaves(timer: Option<int>, ticks: seq<Tick>)
    requires forall i :: 0 <= i < |ticks| ==> AnyForwarded(ticks[i].arrivals)
    ensures forall i :: 0 <= i < |ticks| ==> !Saves(timer, ticks)[i]
    decreases |ticks|
  {
    if ticks != [] {
      var s := Step(timer, ticks[0]);
      BurstNeverSaves(s.0, ticks[1..]);
      assert forall i :: 1 <= i < |ticks| ==> Saves(timer, ticks)[i] == Saves(s.0, ticks[1..])[i - 1];
    }
  }

  /** Every turn before the `i`-th came less than two seconds after `start`. */
  predicate QuietUntil(start: int, ticks: seq<Tick>, i: int)
    requires 0 <= i <= |ticks|
  {
    forall j :: 0 <= j < i ==> ticks[j].now - start < DEBOUNCE_MS
  }

  /** After a quiet period begun at `start`, with nothing arriving, exactly the
      first turn at least two seconds after `start` saves. */
  lemma {:induction false} QuietPeriodSavesOnce(start: int, ticks: seq<Tick>)
    requires forall i :: 0 <= i < |ticks| ==> !AnyForwarded(ticks[i].arrivals)
    ensures forall i :: 0 <= i < |ticks| ==>
      (Saves(Some(start), ticks)[i] <==> ticks[i].now - start >= DEBOUNCE_MS && QuietUntil(start, ticks, i))
    decreases |ticks|
  {
    if ticks != [] {
      var s := Step(Some(start), ticks[0]);
      if s.1 {
        IdleNeverSaves(ticks[1..]);
        assert forall i :: 1 <= i < |ticks| ==> Saves(Some(start), ticks)[i] == Saves(None, ticks[1..])[i - 1];
        assert forall i :: 1 <= i < |ticks| ==> !QuietUntil(start, ticks, i);
      } else {
        QuietPeriodSavesOnce(start, ticks[1..]);
        assert forall i :: 1 <= i < |ticks| ==> Saves(Some(start), ticks)[i] == Saves(Some(start), ticks[1..])[i - 1];
        forall i | 1 <= i < |ticks|
          ensures QuietUntil(start, ticks, i) <==> QuietUntil(start, ticks[1..], i - 1)
        {
          if QuietUntil(start, ticks[1..], i - 1) {
            forall j | 0 < j < i ensures ticks[j].now - start < DEBOUNCE_MS {
              assert ticks[j] == ticks[1..][j - 1];
            }
          }
        }
      }
    }
  }

  /** With no timer running and nothing arriving, nothing is saved. */
  lemma {:induction false} IdleNeverSaves(ticks: seq<Tick>)
    requires forall i :: 0 <= i < |ticks| ==> !AnyForwarded(ticks[i].arrivals)
    ensures forall i :: 0 <= i < |ticks| ==> !Saves(None, ticks)[i]
    decreases |ticks|
  {
    if ticks != [] {
      IdleNeverSaves(ticks[1..]);
      assert forall i :: 1 <= i < |ticks| ==> Saves(None, ticks)[i] == Saves(None, ticks[1..])[i - 1];
    }
  }

  /** The watch loop's state: `last_event_time`. */
  class Watcher {
    var lastEventTime: Option<int>

    constructor ()
      ensures lastEventTime.None?
    {
      lastEventTime := None;
    }

    /** One turn of the loop of `watch::run`: drain, restart the timer, and save
        once the quiet period has run out. `stamp` is the formatted local time. The
        save's outcome is only reported, never acted on. */
    method Turn(t: Tick, repo: Store.Repo, walk: seq<MB.WalkItem>, files: map<Path, Bytes>, globs: MB.GlobSet,
                excludes: seq<string>, stamp: string, c: Codec) returns (saved: Option<Result<Store.SaveStatus>>)
      requires repo.history != [] ==> repo.history[|repo.history| - 1].id < 0xFFFF_FFFF
      modifies this, repo
      ensures (lastEventTime, saved.Some?) == Step(old(lastEventTime), t)
      ensures saved.None? ==> unchanged(repo)
      // A due turn has exactly the outcome of `perform_save`.
      ensures saved.Some? ==> (saved.value == Err(Glob) <==> !MB.AllCompile(globs, excludes))
      ensures saved.Some? && saved.value.Err? ==> saved.value == Err(Glob)
      ensures saved.Some? ==>
        (saved.value == Ok(Store.NoChanges) <==>
           MB.AllCompile(globs, excludes) && Store.Unchanged(old(repo.history), MB.Build(walk, files, globs, excludes, c), c))
      ensures saved.Some? && !(saved.value.Ok? && saved.value.value.Saved?) ==> unchanged(repo)
      ensures saved.Some? && saved.value.Ok? && saved.value.value.Saved? ==>
        var m := MB.Build(walk, files, globs, excludes, c);
        var mh := c.hash(c.serManifest(m));
        && saved.value.value == Store.Saved(H.NextId(old(repo.history)), "Auto-snapshot @ " + stamp)
        && repo.history == old(repo.history) + [Snapshot(H.NextId(old(repo.history)), Timestamp(t.now), "Auto-snapshot @ " + stamp, mh)]
        && mh in repo.objects && repo.objects[mh] == c.serManifest(m)
        && (forall p :: p in m ==> m[p] in repo.objects)
        && (forall d :: d in old(repo.objects) && d != mh ==> d in repo.objects && repo.objects[d] == old(repo.objects)[d])
        && (forall d :: d in repo.objects ==>
              (d in old(repo.objects) && repo.objects[d] == old(repo.objects)[d]) || d == mh
              || exists p :: p in m && p in files && m[p] == d && repo.objects[d] == files[p])
      ensures ContentAddressed(old(repo.objects), c) ==> ContentAddressed(repo.objects, c)
      ensures HashInjective(c) && ContentAddressed(old(repo.objects), c) && saved.Some? && saved.value.Ok? && saved.value.value.Saved? ==>
        var m := MB.Build(walk, files, globs, excludes, c);
        forall p :: p in m ==> p in files && m[p] in repo.objects && repo.objects[m[p]] == files[p]
      ensures ManifestRoundTrips(c) && Store.Resolvable(old(repo.objects), old(repo.history), c) ==>
        Store.Resolvable(repo.objects, repo.history, c)
    {
      var drained := false;
      for i := 0 to |t.arrivals|
        invariant drained <==> AnyForwarded(t.arrivals[..i])
      {
        assert forall j :: 0 <= j < i ==> t.arrivals[..i + 1][j] == t.arrivals[..i][j];
        if Forwarded(t.arrivals[i]) {
          drained := true;
        }
      }
      assert t.arrivals[..|t.arrivals|] == t.arrivals;
      if drained {
        lastEventTime := Some(t.now);
      }
      saved := None;
      if lastEventTime.Some? && t.now - lastEventTime.value >= DEBOUNCE_MS {
        var r := Store.PerformSave(repo, walk, files, globs, excludes, "Auto-snapshot @ " + stamp, Timestamp(t.now), c);
        saved := Some(r);
        lastEventTime := None;
      }
    }
  }
}
