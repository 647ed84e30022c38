/** The history log: snapshot records kept sorted by id, persisted as one
    serialised record per line and rewritten whole on every change. */
module History {
  import opened Types

  // ---------------------------------------------------------------------------
  // Ordering

  /** Ids never decrease along the vector (what `sort_by_key` establishes). */
  ghost predicate SortedById(s: seq<Snapshot>)
  {
    forall i, j :: 0 <= i < j < |s| ==> s[i].id <= s[j].id
  }

  /** Ids strictly increase along the vector (what `add_snapshot` maintains). */
  ghost predicate StrictlyIncreasing(s: seq<Snapshot>)
  {
    forall i, j :: 0 <= i < j < |s| ==> s[i].id < s[j].id
  }

  /** Places `x` after every record whose id is not larger, as a stable sort must. */
  function Insert(x: Snapshot, s: seq<Snapshot>): (r: seq<Snapshot>)
    requires SortedById(s)
    ensures SortedById(r)
    ensures multiset(r) == multiset(s) + multiset{x}
  {
    if s == [] then [x]
    else if x.id < s[0].id then
      SortedCons(x, s);
      [x] + s
    else
      var rest := Insert(x, s[1..]);
      InsertStep(x, s, rest);
      [s[0]] + rest
  }

  /** The recursive case of `Insert`: the head stays in front of the insertion into the tail. */
  lemma InsertStep(x: Snapshot, s: seq<Snapshot>, rest: seq<Snapshot>)
    requires SortedById(s) && s != [] && s[0].id <= x.id
    requires SortedById(rest) && multiset(rest) == multiset(s[1..]) + multiset{x}
    ensures SortedById([s[0]] + rest)
    ensures multiset([s[0]] + rest) == multiset(s) + multiset{x}
  {
    assert s == [s[0]] + s[1..];
    forall k | 0 <= k < |rest| ensures s[0].id <= rest[k].id {
      assert rest[k] in multiset(rest);
      if rest[k] != x {
        assert rest[k] in multiset(s[1..]);
        var j :| 0 <= j < |s[1..]| && s[1..][j] == rest[k];
        assert s[j + 1] == rest[k];
      }
    }
    SortedCons(s[0], rest);
  }

  lemma SortedCons(h: Snapshot, t: seq<Snapshot>)
    requires SortedById(t)
    requires forall k :: 0 <= k < |t| ==> h.id <= t[k].id
    ensures SortedById([h] + t)
  {
    var r := [h] + t;
    forall i, j | 0 <= i < j < |r| ensures r[i].id <= r[j].id {
      if i > 0 { assert r[i] == t[i - 1]; }
      assert r[j] == t[j - 1];
    }
  }

  /** A record whose id is at least every id present goes to the end. */
  lemma {:induction false} InsertLargest(x: Snapshot, s: seq<Snapshot>)
    requires SortedById(s)
    requires forall k :: 0 <= k < |s| ==> s[k].id <= x.id
    ensures Insert(x, s) == s + [x]
  {
    if s != [] {
      InsertLargest(x, s[1..]);
      assert s == [s[0]] + s[1..];
    }
  }

  /** `snapshots.sort_by_key(|s| s.id)`: a stable sort by id (`SortByIdStable`). */
  function SortById(s: seq<Snapshot>): (r: seq<Snapshot>)
    ensures SortedById(r)
    ensures multiset(r) == multiset(s)
  {
    if s == [] then []
    else
      assert s == s[..|s| - 1] + [s[|s| - 1]];
      Insert(s[|s| - 1], SortById(s[..|s| - 1]))
  }

  /** Sorting a vector that is already in id order leaves it as it is. */
  lemma {:induction false} SortSortedIsIdentity(s: seq<Snapshot>)
    requires SortedById(s)
    ensures SortById(s) == s
  {
    if s != [] {
      var init := s[..|s| - 1];
      var last := s[|s| - 1];
      assert s == init + [last];
      SortedSplit(init, last);
      SortSortedIsIdentity(init);
      InsertLargest(last, init);
    }
  }

  /** Dropping the last record of a sorted vector keeps it sorted, below the last id. */
  lemma SortedSplit(init: seq<Snapshot>, last: Snapshot)
    requires SortedById(init + [last])
    ensures SortedById(init)
    ensures forall k :: 0 <= k < |init| ==> init[k].id <= last.id
  {
    var s := init + [last];
    forall i, j | 0 <= i < j < |init| ensures init[i].id <= init[j].id {
      assert s[i] == init[i] && s[j] == init[j];
    }
    forall k | 0 <= k < |init| ensures init[k].id <= last.id {
      assert s[k] == init[k] && s[|init|] == last;
    }
  }

  /** The records carrying id `k`, in vector order. */
  function WithId(s: seq<Snapshot>, k: int): seq<Snapshot>
  {
    if s == [] then []
    else WithId(s[..|s| - 1], k) + (if s[|s| - 1].id == k then [s[|s| - 1]] else [])
  }

  lemma {:induction false} WithIdAppend(a: seq<Snapshot>, b: seq<Snapshot>, k: int)
    ensures WithId(a + b, k) == WithId(a, k) + WithId(b, k)
  {
    if b == [] {
      assert a + b == a;
    } else {
      WithIdAppend(a, b[..|b| - 1], k);
      assert (a + b)[..|a + b| - 1] == a + b[..|b| - 1];
      assert (a + b)[|a + b| - 1] == b[|b| - 1];
    }
  }

  lemma {:induction false} WithIdAbsent(s: seq<Snapshot>, k: int)
    requires forall i :: 0 <= i < |s| ==> s[i].id != k
    ensures WithId(s, k) == []
  {
    if s != [] {
      WithIdAbsent(s[..|s| - 1], k);
    }
  }

  /** `Insert` puts `x` after every record with its id. */
  lemma {:induction false} InsertKeepsOrder(x: Snapshot, s: seq<Snapshot>, k: int)
    requires SortedById(s)
    ensures WithId(Insert(x, s), k) == WithId(s, k) + (if x.id == k then [x] else [])
  {
    if s == [] {
      assert Insert(x, s) == [x];
      assert WithId([x], k) == WithId([], k) + (if x.id == k then [x] else []);
    } else if x.id < s[0].id {
      assert Insert(x, s) == [x] + s;
      InsertInFront(x, s, k);
    } else {
      var rest := Insert(x, s[1..]);
      assert Insert(x, s) == [s[0]] + rest;
      InsertKeepsOrder(x, s[1..], k);
      InsertBehind(x, s, rest, k);
    }
  }

  lemma InsertInFront(x: Snapshot, s: seq<Snapshot>, k: int)
    requires SortedById(s) && s != [] && x.id < s[0].id
    ensures WithId([x] + s, k) == WithId(s, k) + (if x.id == k then [x] else [])
  {
    WithIdAppend([x], s, k);
    assert WithId([x], k) == WithId([], k) + (if x.id == k then [x] else []);
    if x.id == k {
      forall i | 0 <= i < |s| ensures s[i].id != k {
        if i > 0 { assert s[0].id <= s[i].id; }
      }
      WithIdAbsent(s, k);
    }
  }

  lemma InsertBehind(x: Snapshot, s: seq<Snapshot>, rest: seq<Snapshot>, k: int)
    requires s != []
    requires WithId(rest, k) == WithId(s[1..], k) + (if x.id == k then [x] else [])
    ensures WithId([s[0]] + rest, k) == WithId(s, k) + (if x.id == k then [x] else [])
  {
    WithIdAppend([s[0]], rest, k);
    WithIdAppend([s[0]], s[1..], k);
    assert s == [s[0]] + s[1..];
  }

  /** `sort_by_key` is stable: for every id, the records carrying it keep their
      input order, so a lookup of the first record with an id finds the one that
      came first in the file. */
  lemma {:induction false} SortByIdStable(s: seq<Snapshot>, k: int)
    ensures WithId(SortById(s), k) == WithId(s, k)
  {
    if s != [] {
      var init := s[..|s| - 1];
      SortByIdStable(init, k);
      InsertKeepsOrder(s[|s| - 1], SortById(init), k);
    }
  }

  // ---------------------------------------------------------------------------
  // The history file

  /** `char::is_whitespace`: the Unicode White_Space property. */
  predicate IsWhitespace(ch: char)
  {
    ch == '\t' || ch == '\n' || ch == '\U{000B}' || ch == '\U{000C}' || ch == '\r' || ch == ' '
    || ch == '\U{0085}' || ch == '\U{00A0}' || ch == '\U{1680}' || ('\U{2000}' <= ch <= '\U{200A}')
    || ch == '\U{2028}' || ch == '\U{2029}' || ch == '\U{202F}' || ch == '\U{205F}' || ch == '\U{3000}'
  }

  /** `line.trim().is_empty()`. */
  predicate IsBlank(line: string)
  {
    forall k :: 0 <= k < |line| ==> IsWhitespace(line[k])
  }

  /** The records of the file's lines in file order, blank lines skipped;
      `None` as soon as one non-blank line does not parse. */
  function ParseLines(lines: seq<string>, c: Codec): Option<seq<Snapshot>>
  {
    if lines == [] then Some([])
    else
      match ParseLines(lines[..|lines| - 1], c)
      case None => None
      case Some(init) =>
        var line := lines[|lines| - 1];
        if IsBlank(line) then Some(init)
        else match c.parseRecord(line)
          case None => None
          case Some(r) => Some(init + [r])
  }

  /** What `History::load` yields for a log file, `None` when the file does not exist. */
  function LoadFile(file: Option<seq<string>>, c: Codec): Result<seq<Snapshot>>
  {
    if file.None? then Ok([])
    else match ParseLines(file.value, c)
      case None => Err(Json)
      case Some(s) => Ok(SortById(s))
  }

  /** `History::load`: `None` stands for a log file that does not exist. Reads
      every line, fails with a JSON error on the first malformed one, then sorts. */
  method Load(file: Option<seq<string>>, c: Codec) returns (r: Result<seq<Snapshot>>)
    ensures r == LoadFile(file, c)
    ensures file.None? ==> r == Ok([])
    ensures file.Some? ==> (r.Ok? <==> ParseLines(file.value, c).Some?)
    ensures r.Err? ==> r.error == Json
    ensures r.Ok? ==> SortedById(r.value)
    ensures r.Ok? && file.Some? ==> multiset(r.value) == multiset(ParseLines(file.value, c).value)
  {
    var snapshots: seq<Snapshot> := [];
    if file.Some? {
      var lines := file.value;
      var i := 0;
      while i < |lines|
        invariant 0 <= i <= |lines|
        invariant ParseLines(lines[..i], c) == Some(snapshots)
      {
        assert lines[..i + 1][..i] == lines[..i];
        var line := lines[i];
        if !IsBlank(line) {
          var rec := c.parseRecord(line);
          if rec.None? {
            ParseFailureSticks(lines, i + 1, c);
            return Err(Json);
          }
          snapshots := snapshots + [rec.value];
        }
        i := i + 1;
      }
      assert lines[..|lines|] == lines;
    }
    r := Ok(SortById(snapshots));
  }

  /** Once a prefix of the file fails to parse, the whole file does. */
  lemma {:induction false} ParseFailureSticks(lines: seq<string>, n: nat, c: Codec)
    requires n <= |lines|
    requires ParseLines(lines[..n], c).None?
    ensures ParseLines(lines, c).None?
    decreases |lines| - n
  {
    if n < |lines| {
      assert lines[..n + 1][..n] == lines[..n];
      ParseFailureSticks(lines, n + 1, c);
    } else {
      assert lines[..n] == lines;
    }
  }

  /** The lines `History::save` writes for a vector of records. */
  function RecordLines(s: seq<Snapshot>, c: Codec): (lines: seq<string>)
    ensures |lines| == |s|
  {
    seq(|s|, i requires 0 <= i < |s| => c.serRecord(s[i]))
  }

  /** Load after save gives back the saved vector, when the vector is sorted,
      every record reads back and no record serialises to a blank line. */
  lemma {:induction false} LoadAfterSave(s: seq<Snapshot>, c: Codec)
    requires SortedById(s)
    requires forall x :: x in s ==> c.parseRecord(c.serRecord(x)) == Some(x)
    requires forall x :: x in s ==> !IsBlank(c.serRecord(x))
    ensures ParseLines(RecordLines(s, c), c) == Some(s)
    ensures SortById(s) == s
  {
    SortSortedIsIdentity(s);
    LinesParseBack(s, c);
  }

  lemma {:induction false} LinesParseBack(s: seq<Snapshot>, c: Codec)
    requires forall x :: x in s ==> c.parseRecord(c.serRecord(x)) == Some(x)
    requires forall x :: x in s ==> !IsBlank(c.serRecord(x))
    ensures ParseLines(RecordLines(s, c), c) == Some(s)
  {
    if s != [] {
      var init := s[..|s| - 1];
      LinesParseBack(init, c);
      assert RecordLines(s, c)[..|s| - 1] == RecordLines(init, c);
      assert s == init + [s[|s| - 1]];
    }
  }

  // ---------------------------------------------------------------------------
  // Lookups

  /** The id `add_snapshot` hands out: one more than the last record's, or 1. */
  function NextId(s: seq<Snapshot>): int
  {
    if s == [] then 1 else s[|s| - 1].id + 1
  }

  /** `get_snapshot`: the first record with this id. */
  function GetSnapshot(s: seq<Snapshot>, id: u32): (r: Result<Snapshot>)
    ensures r.Ok? ==> r.value.id == id && r.value in s
    ensures r.Ok? ==> exists i :: 0 <= i < |s| && s[i] == r.value && forall j :: 0 <= j < i ==> s[j].id != id
    ensures r.Err? <==> forall i :: 0 <= i < |s| ==> s[i].id != id
    ensures r.Err? ==> r.error == SnapshotIdNotFound(id)
  {
    if s == [] then Err(SnapshotIdNotFound(id))
    else if s[0].id == id then Ok(s[0])
    else
      var r := GetSnapshot(s[1..], id);
      if r.Ok? then
        var i :| 0 <= i < |s[1..]| && s[1..][i] == r.value && forall j :: 0 <= j < i ==> s[1..][j].id != id;
        assert s[i + 1] == r.value;
        r
      else
        assert forall i :: 1 <= i < |s| ==> s[i] == s[1..][i - 1];
        r
  }

  /** `get_latest`: the last record of the vector. */
  function GetLatest(s: seq<Snapshot>): (r: Result<Snapshot>)
    ensures r.Ok? <==> s != []
    ensures r.Ok? ==> r.value == s[|s| - 1]
    ensures r.Err? ==> r.error == NoSnapshots
  {
    if s == [] then Err(NoSnapshots) else Ok(s[|s| - 1])
  }

  /** In a sorted vector the next id is larger than every id present. */
  lemma NextIdIsFresh(s: seq<Snapshot>)
    requires SortedById(s)
    ensures forall x :: x in s ==> x.id < NextId(s)
  {
  }

  // ---------------------------------------------------------------------------
  // The in-memory history

  class History {
    var snapshots: seq<Snapshot>

    constructor (loaded: seq<Snapshot>)
      ensures snapshots == loaded
    {
      snapshots := loaded;
    }

    /** `add_snapshot`: appends one record with the next id; the caller persists it.
        Ids are `u32`, so the last id must leave room for one more. */
    method AddSnapshot(message: string, manifestHash: Digest, now: Timestamp)
      requires snapshots != [] ==> snapshots[|snapshots| - 1].id < 0xFFFF_FFFF
      modifies this
      ensures |snapshots| == |old(snapshots)| + 1
      ensures snapshots[..|old(snapshots)|] == old(snapshots)
      ensures snapshots[|snapshots| - 1] == Snapshot(NextId(old(snapshots)), now, message, manifestHash)
      ensures old(SortedById(snapshots)) ==> SortedById(snapshots)
      ensures old(StrictlyIncreasing(snapshots)) ==> StrictlyIncreasing(snapshots)
    {
      var nextId: u32 := if snapshots == [] then 1 else snapshots[|snapshots| - 1].id + 1;
      snapshots := snapshots + [Snapshot(nextId, now, message, manifestHash)];
    }

    /** `History::save`: the new file content, one line per record in vector order,
        replacing whatever the file held before. */
    method Save(c: Codec) returns (file: seq<string>)
      ensures |file| == |snapshots|
      ensures forall i :: 0 <= i < |file| ==> c.parseRecord(file[i]) == c.parseRecord(c.serRecord(snapshots[i]))
      ensures file == RecordLines(snapshots, c)
    {
      file := [];
      for i := 0 to |snapshots|
        invariant file == RecordLines(snapshots[..i], c)
      {
        file := file + [c.serRecord(snapshots[i])];
      }
      assert snapshots[..|snapshots|] == snapshots;
    }
  }
}
