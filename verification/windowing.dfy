/**
 * The arithmetic of the inD parser (InD.py, `_parse`): which tracks are
 * kept, how each track is cut into overlapping windows of 200 frames, and
 * which columns become the positions and the features.
 *
 * Reading the CSV files is not modelled: the tracks table arrives as a
 * sequence of rows and the metadata table as a sequence of records.
 */
module Windowing {
  import opened Wrappers

  /** The number of frames in one window (`moving_window`). */
  const MovingWindow: nat := 200

  /** The track classes that are kept. */
  const Car: string := "car"
  const TruckBus: string := "truck_bus"

  /** One row of the tracks-metadata table. */
  datatype TrackMeta = TrackMeta(trackId: int, kind: string, numFrames: int)

  /**
   * One row of the tracks table: its track id, its frame index within the
   * track (`trackLifetime`) and the whole numeric row, in the table's
   * column order.
   */
  datatype TrackRow = TrackRow(trackId: int, lifetime: int, values: seq<real>)

  /** What the parser's asserts and numpy reject. */
  datatype ParseError =
    | EmptyTrack(id: int)         // no rows carry a selected id: `max` of nothing
    | LifetimeMismatch(id: int)   // the row count is not the last lifetime plus one
    | NoWindows                   // nothing to concatenate
    | MissingColumns              // a row too short for the selected columns

  /** A track is used when it is a car or truck/bus with between 200 and 1000 frames, both exclusive. */
  predicate IsTarget(m: TrackMeta) {
    (m.kind == Car || m.kind == TruckBus) && 200 < m.numFrames < 1000
  }

  /** `target_track_id`: the ids of the used tracks, in metadata order. */
  function TargetIds(meta: seq<TrackMeta>): (ids: seq<int>)
    ensures |ids| <= |meta|
  {
    if |meta| == 0 then []
    else (if IsTarget(meta[0]) then [meta[0].trackId] else []) + TargetIds(meta[1..])
  }

  /** An id is selected exactly when some metadata record with that id passes the filter. */
  lemma {:induction false} TargetIdsExact(meta: seq<TrackMeta>, id: int)
    ensures id in TargetIds(meta) <==> exists i :: 0 <= i < |meta| && IsTarget(meta[i]) && meta[i].trackId == id
  {
    if |meta| > 0 {
      TargetIdsExact(meta[1..], id);
      if exists i :: 1 <= i < |meta| && IsTarget(meta[i]) && meta[i].trackId == id {
        var i :| 1 <= i < |meta| && IsTarget(meta[i]) && meta[i].trackId == id;
        assert meta[1..][i - 1] == meta[i];
      }
      if exists i :: 0 <= i < |meta| - 1 && IsTarget(meta[1..][i]) && meta[1..][i].trackId == id {
        var i :| 0 <= i < |meta| - 1 && IsTarget(meta[1..][i]) && meta[1..][i].trackId == id;
        assert meta[i + 1] == meta[1..][i];
      }
    }
  }

  /** `new_df[new_df['trackId'] == id]`: the rows of one track, in table order. */
  function RowsOf(rows: seq<TrackRow>, id: int): (t: seq<TrackRow>)
    ensures |t| <= |rows|
  {
    if |rows| == 0 then []
    else (if rows[0].trackId == id then [rows[0]] else []) + RowsOf(rows[1..], id)
  }

  /** The rows of a track are exactly the table's rows with that id. */
  lemma {:induction false} RowsOfExact(rows: seq<TrackRow>, id: int)
    ensures forall r :: r in RowsOf(rows, id) <==> r in rows && r.trackId == id
  {
    if |rows| > 0 {
      RowsOfExact(rows[1..], id);
      assert rows == [rows[0]] + rows[1..];
    }
  }

  /** The largest lifetime among a track's rows (Python's `max`). */
  function MaxLifetime(t: seq<TrackRow>): (m: int)
    requires |t| > 0
    ensures forall k :: 0 <= k < |t| ==> t[k].lifetime <= m
    ensures exists k :: 0 <= k < |t| && t[k].lifetime == m
  {
    if |t| == 1 then t[0].lifetime
    else
      var rest := MaxLifetime(t[1..]);
      assert forall k :: 1 <= k < |t| ==> t[k] == t[1..][k - 1];
      if t[0].lifetime >= rest then t[0].lifetime
      else
        assert exists k :: 1 <= k < |t| && t[k].lifetime == rest by {
          var k :| 0 <= k < |t| - 1 && t[1..][k].lifetime == rest;
          assert t[k + 1] == t[1..][k];
        }
        rest
  }

  /** The number of windows of a track of the given length: `range(len - w + 1)`, empty when negative. */
  function WindowCount(len: nat, w: nat): nat {
    if len >= w then len - w + 1 else 0
  }

  /** The windows of a track: every run of w consecutive rows, in order. */
  function Windows<T>(track: seq<T>, w: nat): (r: seq<seq<T>>)
    ensures |r| == WindowCount(|track|, w)
    ensures forall j :: 0 <= j < |r| ==> |r[j]| == w
  {
    seq(WindowCount(|track|, w), j requires 0 <= j < WindowCount(|track|, w) => track[j..j + w])
  }

  /** The loop of `_parse` over one track, appending one window per start frame. */
  method CollectWindows<T>(track: seq<T>, w: nat) returns (r: seq<seq<T>>)
    ensures r == Windows(track, w)
  {
    r := [];
    var n := |track| - w + 1;
    var i := 0;
    while i < n
      invariant 0 <= i && (n <= 0 ==> i == 0) && (n > 0 ==> i <= n)
      invariant |r| == i
      invariant forall j :: 0 <= j < i ==> r[j] == track[j..j + w]
    {
      r := r + [track[i..i + w]];
      i := i + 1;
    }
  }

  /** A window is the track's rows from its start frame on: row k of window j is row j+k of the track. */
  lemma WindowRows<T>(track: seq<T>, w: nat, j: nat, k: nat)
    requires j < |Windows(track, w)| && k < w
    ensures Windows(track, w)[j][k] == track[j + k]
  {
  }

  /** Consecutive windows overlap in all but one row. */
  lemma WindowsOverlap<T>(track: seq<T>, w: nat, j: nat)
    requires j + 1 < |Windows(track, w)| && w > 0
    ensures Windows(track, w)[j][1..] == Windows(track, w)[j + 1][..w - 1]
  {
  }

  /** When the track is at least one window long, every one of its rows lies in some window. */
  lemma WindowsCover<T>(track: seq<T>, w: nat, k: nat)
    requires 0 < w <= |track| && k < |track|
    ensures exists j, i :: 0 <= j < |Windows(track, w)| && 0 <= i < w && Windows(track, w)[j][i] == track[k]
  {
    var count := |track| - w + 1;
    var j := if k < count then k else count - 1;
    var ws := Windows(track, w);
    assert ws[j][k - j] == track[k];
  }

  /**
   * The windows of one selected track, after the parser's consistency
   * check that its rows are frames 0 .. n-1.
   */
  function TrackWindows(rows: seq<TrackRow>, id: int): (r: Result<seq<seq<TrackRow>>, ParseError>)
    ensures r.Success? ==> |RowsOf(rows, id)| > 0 && r.value == Windows(RowsOf(rows, id), MovingWindow)
  {
    var t := RowsOf(rows, id);
    if |t| == 0 then Failure(EmptyTrack(id))
    else if |t| != MaxLifetime(t) + 1 then Failure(LifetimeMismatch(id))
    else Success(Windows(t, MovingWindow))
  }

  /** The windows of every selected track, track after track. */
  function AllWindows(rows: seq<TrackRow>, ids: seq<int>): (r: Result<seq<seq<TrackRow>>, ParseError>)
    ensures r.Success? ==> forall n :: 0 <= n < |r.value| ==> |r.value[n]| == MovingWindow
  {
    if |ids| == 0 then Success([])
    else
      match TrackWindows(rows, ids[0])
      case Failure(e) => Failure(e)
      case Success(first) =>
        match AllWindows(rows, ids[1..])
        case Failure(e) => Failure(e)
        case Success(rest) => Success(first + rest)
  }

  /** Window j of the track with the given id is exactly the rows `win`. */
  predicate WindowOf(rows: seq<TrackRow>, id: int, j: int, win: seq<TrackRow>) {
    0 <= j < WindowCount(|RowsOf(rows, id)|, MovingWindow) && win == RowsOf(rows, id)[j..j + MovingWindow]
  }

  /** Every window produced is 200 consecutive rows of one selected track. */
  lemma {:induction false} AllWindowsFromTracks(rows: seq<TrackRow>, ids: seq<int>, n: nat)
    requires AllWindows(rows, ids).Success? && n < |AllWindows(rows, ids).value|
    ensures exists id, j :: id in ids && WindowOf(rows, id, j, AllWindows(rows, ids).value[n])
  {
    var first := TrackWindows(rows, ids[0]).value;
    var rest := AllWindows(rows, ids[1..]).value;
    if n < |first| {
      assert AllWindows(rows, ids).value[n] == first[n];
      assert WindowOf(rows, ids[0], n, first[n]);
      assert ids[0] in ids;
    } else {
      AllWindowsFromTracks(rows, ids[1..], n - |first|);
      assert AllWindows(rows, ids).value[n] == rest[n - |first|];
      var id, j :| id in ids[1..] && WindowOf(rows, id, j, rest[n - |first|]);
      assert id in ids;
    }
  }

  /** The total number of windows is the sum of every selected track's count. */
  function TotalWindows(rows: seq<TrackRow>, ids: seq<int>): nat {
    if |ids| == 0 then 0 else WindowCount(|RowsOf(rows, ids[0])|, MovingWindow) + TotalWindows(rows, ids[1..])
  }

  /** A successful parse yields exactly `len - 200 + 1` windows per selected track of length len, summed. */
  lemma {:induction false} AllWindowsCount(rows: seq<TrackRow>, ids: seq<int>)
    requires AllWindows(rows, ids).Success?
    ensures |AllWindows(rows, ids).value| == TotalWindows(rows, ids)
  {
    if |ids| > 0 {
      AllWindowsCount(rows, ids[1..]);
    }
  }

  /** The index of the first position column (`xCenter`); columns 4:6 are x and y. */
  const PositionColumn: nat := 4

  /** The feature columns: heading, x/y velocity, x/y acceleration. */
  const FeatureColumns: seq<nat> := [6, 9, 10, 11, 12]

  /** Every row of every window is wide enough for the selected columns. */
  predicate WideEnough(windows: seq<seq<TrackRow>>) {
    forall n, t :: 0 <= n < |windows| && 0 <= t < |windows[n]| ==> |windows[n][t].values| > 12
  }

  /** `data[:, :, 4:6]` and `data[:, :, (6, 9, 10, 11, 12)]`. */
  function SelectColumns(windows: seq<seq<TrackRow>>): (r: Result<(seq<seq<seq<real>>>, seq<seq<seq<real>>>), ParseError>)
    ensures r.Failure? <==> !WideEnough(windows)
    ensures r.Success? ==>
      var (input, features) := r.value;
      && |input| == |windows| == |features|
      && forall n :: 0 <= n < |windows| ==>
           && |input[n]| == |windows[n]| == |features[n]|
           && forall t :: 0 <= t < |windows[n]| ==>
                && |input[n][t]| == 2 && |features[n][t]| == |FeatureColumns|
                && input[n][t][0] == windows[n][t].values[PositionColumn]
                && input[n][t][1] == windows[n][t].values[PositionColumn + 1]
                && forall c :: 0 <= c < |FeatureColumns| ==> features[n][t][c] == windows[n][t].values[FeatureColumns[c]]
  {
    if !WideEnough(windows) then Failure(MissingColumns)
    else
      var input := seq(|windows|, n requires 0 <= n < |windows| =>
        seq(|windows[n]|, t requires 0 <= t < |windows[n]| => windows[n][t].values[PositionColumn..PositionColumn + 2]));
      var features := seq(|windows|, n requires 0 <= n < |windows| =>
        seq(|windows[n]|, t requires 0 <= t < |windows[n]| =>
          seq(|FeatureColumns|, c requires 0 <= c < |FeatureColumns| => windows[n][t].values[FeatureColumns[c]])));
      Success((input, features))
  }

  /** `_parse` without the file reading: filter the tracks, cut them into windows and select the columns. */
  function Parse(meta: seq<TrackMeta>, rows: seq<TrackRow>): (r: Result<(seq<seq<seq<real>>>, seq<seq<seq<real>>>), ParseError>)
    ensures r.Success? ==> |r.value.0| > 0 && |r.value.0| == |r.value.1|
  {
    match AllWindows(rows, TargetIds(meta))
    case Failure(e) => Failure(e)
    case Success(windows) =>
      if |windows| == 0 then Failure(NoWindows) else SelectColumns(windows)
  }

  /** A successful parse gives (N, 200, 2) positions and (N, 200, 5) features. */
  lemma ParseShape(meta: seq<TrackMeta>, rows: seq<TrackRow>)
    requires Parse(meta, rows).Success?
    ensures var (input, features) := Parse(meta, rows).value;
            forall n :: 0 <= n < |input| ==>
              && |input[n]| == MovingWindow == |features[n]|
              && forall t :: 0 <= t < MovingWindow ==> |input[n][t]| == 2 && |features[n][t]| == 5
  {
  }
}
