/** The log command: lists the snapshots newest first, one row each, with the
    message cut to its first fifty characters. */
module LogCmd {
  import opened Types
  import H = History

  /** The listing, one entry per written line. */
  datatype LogLine =
    | EmptyHint
    | HeaderLine
    | Separator
    | Row(id: u32, timestamp: Timestamp, message: string)

  /** The longest message shown. */
  const MESSAGE_WIDTH: nat := 50

  /** `message.chars().take(50)`. */
  function Truncate(message: string): (r: string)
    ensures |r| <= MESSAGE_WIDTH
    ensures r <= message
    ensures |message| <= MESSAGE_WIDTH ==> r == message
    ensures |message| > MESSAGE_WIDTH ==> |r| == MESSAGE_WIDTH
  {
    if |message| <= MESSAGE_WIDTH then message else message[..MESSAGE_WIDTH]
  }

  /** The row of a snapshot. */
  function RowOf(s: Snapshot): LogLine
  {
    Row(s.id, s.timestamp, Truncate(s.message))
  }

  /** The rows, newest first: the `k`-th row shows the `k`-th snapshot counted from the end. */
  function Rows(snapshots: seq<Snapshot>): (r: seq<LogLine>)
    ensures |r| == |snapshots|
    ensures forall k :: 0 <= k < |r| ==> r[k] == RowOf(snapshots[|snapshots| - 1 - k])
  {
    if snapshots == [] then []
    else
      var rest := Rows(snapshots[1..]);
      assert forall k :: 0 <= k < |rest| ==> rest[k] == RowOf(snapshots[|snapshots| - 1 - k]);
      rest + [RowOf(snapshots[0])]
  }

  /** The listing of a loaded history. */
  function Listed(snapshots: seq<Snapshot>): seq<LogLine>
  {
    if snapshots == [] then [EmptyHint] else [HeaderLine, Separator] + Rows(snapshots)
  }

  /** A non-empty listing is a header, a separator and one row per snapshot,
      newest first; with ids sorted ascending (as loading leaves them) the row
      ids never increase. */
  lemma ListingShape(snapshots: seq<Snapshot>)
    ensures snapshots == [] ==> Listed(snapshots) == [EmptyHint]
    ensures snapshots != [] ==>
      |Listed(snapshots)| == |snapshots| + 2 && Listed(snapshots)[0] == HeaderLine && Listed(snapshots)[1] == Separator
    ensures forall i :: 2 <= i < |Listed(snapshots)| ==> Listed(snapshots)[i] == RowOf(snapshots[|snapshots| + 1 - i])
    ensures H.SortedById(snapshots) ==>
      forall i, j :: 2 <= i < j < |Listed(snapshots)| ==> Listed(snapshots)[i].id >= Listed(snapshots)[j].id
  {
    if snapshots != [] {
      var out := Listed(snapshots);
      var rows := Rows(snapshots);
      assert forall i :: 2 <= i < |out| ==> out[i] == rows[i - 2];
    }
  }

  /** `log_cmd::run` over the loaded history, up to formatting. */
  method Listing(snapshots: seq<Snapshot>) returns (out: seq<LogLine>)
    ensures out == Listed(snapshots)
  {
    if snapshots == [] {
      return [EmptyHint];
    }
    out := [HeaderLine, Separator];
    var k := |snapshots|;
    while k > 0
      invariant 0 <= k <= |snapshots|
      invariant out == [HeaderLine, Separator] + Rows(snapshots[k..])
    {
      assert snapshots[k - 1..][1..] == snapshots[k..];
      k := k - 1;
      out := out + [RowOf(snapshots[k])];
    }
  }

  /** `log_cmd::run`: the listing of the loaded history; a load error is passed on. */
  method Run(log: Option<seq<string>>, c: Codec) returns (r: Result<seq<LogLine>>)
    ensures H.LoadFile(log, c).Err? ==> r == Err(H.LoadFile(log, c).error)
    ensures H.LoadFile(log, c).Ok? ==> r == Ok(Listed(H.LoadFile(log, c).value))
    ensures H.LoadFile(log, c).Ok? ==> H.SortedById(H.LoadFile(log, c).value)
  {
    var snapshots :- H.Load(log, c);
    var out := Listing(snapshots);
    return Ok(out);
  }
}
