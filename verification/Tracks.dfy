/** Tracks on a lifeline: every span gets the first track that is free where it
    begins, up to a number of tracks after which the outermost is shared. */
module Tracks {
  import opened Basics
  import M = Matcher

  const TRACK_MAX := 3

  /** The two lifelines: this node's and the peer's. */
  datatype Side = Ours | Theirs

  /** A block of activity, or a message standing by itself. */
  datatype Span = Span(request: nat, replies: seq<M.Tie>, last: nat, rows: set<nat>, side: Side, loose: bool)

  /** Where each track ends so far, and the track of each span. */
  datatype Layout = Layout(ends: seq<nat>, tracks: seq<nat>)

  ghost predicate Forward(spans: seq<Span>) {
    forall i | 0 <= i < |spans| :: spans[i].request <= spans[i].last
  }

  ghost predicate Ordered(spans: seq<Span>) {
    forall i, j | 0 <= i < j < |spans| :: spans[i].request < spans[j].request
  }

  // ----------------------------------------------------------------- laying

  function FirstFree(ends: seq<nat>, row: nat): (k: nat)
    ensures k <= |ends|
    ensures k < |ends| ==> ends[k] < row
    ensures forall j | 0 <= j < k :: ends[j] >= row
  {
    if ends == [] || ends[0] < row then 0 else 1 + FirstFree(ends[1..], row)
  }

  function TrackFor(ends: seq<nat>, row: nat, max: nat): (track: nat)
    requires max > 0 && |ends| <= max
  {
    var free := FirstFree(ends, row);
    if free < |ends| || |ends| < max then free else max - 1
  }

  function Taken(ends: seq<nat>, track: nat, last: nat): seq<nat>
    requires track <= |ends|
  {
    if track < |ends| then ends[track := last] else ends + [last]
  }

  function Laid(spans: seq<Span>, max: nat): (layout: Layout)
    requires max > 0
    ensures |layout.ends| <= max && |layout.tracks| == |spans|
    ensures forall i | 0 <= i < |spans| :: layout.tracks[i] < |layout.ends|
  {
    if spans == [] then Layout([], [])
    else
      var before, span := Laid(spans[..|spans| - 1], max), spans[|spans| - 1];
      var track := TrackFor(before.ends, span.request, max);
      Layout(Taken(before.ends, track, span.last), before.tracks + [track])
  }

  function OnTrack(trackOf: map<nat, nat>, rows: set<nat>, track: nat): map<nat, nat> {
    trackOf + (map row | row in rows :: track)
  }

  /** The row to track map a lifeline ends up with. */
  function Carried(spans: seq<Span>, tracks: seq<nat>): (trackOf: map<nat, nat>)
    requires |tracks| == |spans|
  {
    if spans == [] then map[]
    else
      var n := |spans| - 1;
      OnTrack(Carried(spans[..n], tracks[..n]), spans[n].rows, tracks[n])
  }

  // ---------------------------------------------------------------- overlap

  predicate Overlap(a: Span, b: Span) {
    a.request <= b.last && b.request <= a.last
  }

  /** No two spans of one track have a row in common. */
  ghost predicate Clear(spans: seq<Span>, tracks: seq<nat>, below: nat)
    requires |tracks| == |spans|
  {
    forall i, j | 0 <= i < j < |spans| && tracks[i] == tracks[j] < below :: !Overlap(spans[i], spans[j])
  }

  /** How many spans cover a row. */
  function Depth(spans: seq<Span>, row: nat): nat {
    if spans == [] then 0
    else
      var span := spans[|spans| - 1];
      Depth(spans[..|spans| - 1], row) + (if span.request <= row <= span.last then 1 else 0)
  }

  ghost predicate Shallow(spans: seq<Span>, max: nat) {
    forall row: nat :: Depth(spans, row) <= max
  }

  /** How many tracks end at or after a row. */
  function Busy(ends: seq<nat>, row: nat): (n: nat)
    ensures n <= |ends|
  {
    if ends == [] then 0 else Busy(ends[..|ends| - 1], row) + (if ends[|ends| - 1] >= row then 1 else 0)
  }

  /** A track's end is past every span the track carries, except that the
      outermost track forgets the spans it is shared with. */
  lemma {:induction false} EndsAreLatest(spans: seq<Span>, max: nat, i: nat)
    requires max > 0 && Forward(spans) && i < |spans|
    ensures var layout := Laid(spans, max);
            layout.tracks[i] < max - 1 ==> spans[i].last <= layout.ends[layout.tracks[i]]
  {
    var n := |spans| - 1;
    if i < n {
      assert Forward(spans[..n]);
      EndsAreLatest(spans[..n], max, i);
    }
  }

  /** Spans of a track that is not the outermost never overlap. */
  lemma {:induction false} InnerTracksAreClear(spans: seq<Span>, max: nat)
    requires max > 0 && Forward(spans)
    ensures Clear(spans, Laid(spans, max).tracks, max - 1)
  {
    if spans != [] {
      var n := |spans| - 1;
      var before := Laid(spans[..n], max);
      assert Forward(spans[..n]);
      InnerTracksAreClear(spans[..n], max);
      var tracks := Laid(spans, max).tracks;
      forall i, j | 0 <= i < j < |spans| && tracks[i] == tracks[j] < max - 1 ensures !Overlap(spans[i], spans[j]) {
        if j == n {
          EndsAreLatest(spans[..n], max, i);
        } else {
          assert tracks[i] == before.tracks[i] && tracks[j] == before.tracks[j];
        }
      }
    }
  }

  // -------------------------------------------------------------- crowding

  /** Whether every span so far found a track of its own. */
  predicate NeverShared(spans: seq<Span>, max: nat)
    requires max > 0
  {
    spans == [] ||
    var n := |spans| - 1;
    var ends := Laid(spans[..n], max).ends;
    NeverShared(spans[..n], max) && (FirstFree(ends, spans[n].request) < |ends| || |ends| < max)
  }

  lemma {:induction false} BusyAfter(ends: seq<nat>, track: nat, last: nat, row: nat)
    requires track <= |ends| && (track < |ends| ==> ends[track] < row)
    ensures Busy(Taken(ends, track, last), row) == Busy(ends, row) + (if last >= row then 1 else 0)
  {
    var after := Taken(ends, track, last);
    if track == |ends| {
      assert after[..|ends|] == ends;
    } else if track == |ends| - 1 {
      assert after[..track] == ends[..track];
    } else {
      var n := |ends| - 1;
      assert after[..n] == Taken(ends[..n], track, last);
      BusyAfter(ends[..n], track, last, row);
    }
  }

  lemma {:induction false} AllBusy(ends: seq<nat>, row: nat)
    requires forall k | 0 <= k < |ends| :: ends[k] >= row
    ensures Busy(ends, row) == |ends|
  {
    if ends != [] {
      AllBusy(ends[..|ends| - 1], row);
    }
  }

  /** While no track is shared, the tracks busy at a row past every request are
      as many as the spans that cover it. */
  lemma {:induction false} BusyIsDepth(spans: seq<Span>, max: nat, row: nat)
    requires max > 0 && Ordered(spans) && NeverShared(spans, max)
    requires forall i | 0 <= i < |spans| :: spans[i].request <= row
    ensures Busy(Laid(spans, max).ends, row) == Depth(spans, row)
  {
    if spans != [] {
      var n := |spans| - 1;
      BusyIsDepth(spans[..n], max, row);
      var ends := Laid(spans[..n], max).ends;
      BusyAfter(ends, TrackFor(ends, spans[n].request, max), spans[n].last, row);
    }
  }

  /** Spans sent after a row do not cover it. */
  lemma {:induction false} DepthIgnoresLater(spans: seq<Span>, n: nat, row: nat)
    requires n <= |spans| && forall i | n <= i < |spans| :: spans[i].request > row
    ensures Depth(spans, row) == Depth(spans[..n], row)
  {
    if n < |spans| {
      var m := |spans| - 1;
      assert spans[..m][..n] == spans[..n];
      DepthIgnoresLater(spans[..m], n, row);
    } else {
      assert spans[..n] == spans;
    }
  }

  lemma {:induction false} NeverSharedBefore(spans: seq<Span>, max: nat, n: nat)
    requires max > 0 && n <= |spans| && NeverShared(spans, max)
    ensures NeverShared(spans[..n], max)
  {
    if n < |spans| {
      assert spans[..|spans| - 1][..n] == spans[..n];
      NeverSharedBefore(spans[..|spans| - 1], max, n);
    } else {
      assert spans[..n] == spans;
    }
  }

  /** How many spans begin by a row. */
  function Begun(spans: seq<Span>, row: nat): (n: nat)
    requires Ordered(spans)
    ensures n <= |spans|
    ensures forall i | 0 <= i < n :: spans[i].request <= row
    ensures forall i | n <= i < |spans| :: spans[i].request > row
  {
    if spans == [] || spans[|spans| - 1].request <= row then |spans| else Begun(spans[..|spans| - 1], row)
  }

  lemma {:induction false} NeverSharedIsShallow(spans: seq<Span>, max: nat, row: nat)
    requires max > 0 && Ordered(spans) && NeverShared(spans, max)
    ensures Depth(spans, row) <= max
  {
    var n := Begun(spans, row);
    DepthIgnoresLater(spans, n, row);
    NeverSharedBefore(spans, max, n);
    BusyIsDepth(spans[..n], max, row);
  }

  /** A span that found no track of its own begins where all of them are busy. */
  lemma CrowdedWhereShared(spans: seq<Span>, max: nat)
    requires max > 0 && Forward(spans) && Ordered(spans) && spans != []
    requires NeverShared(spans[..|spans| - 1], max) && !NeverShared(spans, max)
    ensures Depth(spans, spans[|spans| - 1].request) == max + 1
  {
    var n, row := |spans| - 1, spans[|spans| - 1].request;
    var ends := Laid(spans[..n], max).ends;
    BusyIsDepth(spans[..n], max, row);
    AllBusy(ends, row);
  }

  /** The spans of a beginning are no deeper than all of them. */
  lemma {:induction false} DepthGrows(spans: seq<Span>, n: nat, row: nat)
    requires n <= |spans|
    ensures Depth(spans[..n], row) <= Depth(spans, row)
  {
    if n < |spans| {
      assert spans[..|spans| - 1][..n] == spans[..n];
      DepthGrows(spans[..|spans| - 1], n, row);
    } else {
      assert spans[..n] == spans;
    }
  }

  lemma {:induction false} ShallowIsNeverShared(spans: seq<Span>, max: nat)
    requires max > 0 && Forward(spans) && Ordered(spans)
    requires Shallow(spans, max)
    ensures NeverShared(spans, max)
  {
    if spans != [] {
      var n := |spans| - 1;
      forall row: nat ensures Depth(spans[..n], row) <= max {
        DepthGrows(spans, n, row);
      }
      ShallowIsNeverShared(spans[..n], max);
      if !NeverShared(spans, max) {
        CrowdedWhereShared(spans, max);
        assert false;
      }
    }
  }

  /** While no track is shared, every track's end is past all it carries. */
  lemma {:induction false} OwnEndsAreLatest(spans: seq<Span>, max: nat, i: nat)
    requires max > 0 && Forward(spans) && NeverShared(spans, max) && i < |spans|
    ensures var layout := Laid(spans, max); spans[i].last <= layout.ends[layout.tracks[i]]
  {
    var n := |spans| - 1;
    if i < n {
      assert Forward(spans[..n]);
      OwnEndsAreLatest(spans[..n], max, i);
    }
  }

  lemma {:induction false} NeverSharedIsClear(spans: seq<Span>, max: nat)
    requires max > 0 && Forward(spans) && NeverShared(spans, max)
    ensures Clear(spans, Laid(spans, max).tracks, max)
  {
    if spans != [] {
      var n := |spans| - 1;
      assert Forward(spans[..n]);
      NeverSharedIsClear(spans[..n], max);
      var before, tracks := Laid(spans[..n], max), Laid(spans, max).tracks;
      forall i, j | 0 <= i < j < |spans| && tracks[i] == tracks[j] < max ensures !Overlap(spans[i], spans[j]) {
        assert tracks[i] == before.tracks[i];
        if j == n {
          OwnEndsAreLatest(spans[..n], max, i);
        } else {
          assert tracks[j] == before.tracks[j];
        }
      }
    }
  }

  /** Some span of each track ends where the track does. */
  lemma {:induction false} EndsAreSomeones(spans: seq<Span>, max: nat, track: nat) returns (i: nat)
    requires max > 0 && track < |Laid(spans, max).ends|
    ensures i < |spans| && Laid(spans, max).tracks[i] == track && spans[i].last == Laid(spans, max).ends[track]
  {
    var n := |spans| - 1;
    if Laid(spans, max).tracks[n] == track {
      i := n;
    } else {
      i := EndsAreSomeones(spans[..n], max, track);
    }
  }

  lemma ClearBefore(spans: seq<Span>, max: nat)
    requires max > 0 && spans != [] && Clear(spans, Laid(spans, max).tracks, max)
    ensures Clear(spans[..|spans| - 1], Laid(spans[..|spans| - 1], max).tracks, max)
  {
    var n, before, tracks := |spans| - 1, Laid(spans[..|spans| - 1], max).tracks, Laid(spans, max).tracks;
    assert tracks[..n] == before;
    forall i, j | 0 <= i < j < n && before[i] == before[j] < max ensures !Overlap(spans[i], spans[j]) {
      assert tracks[i] == tracks[j];
    }
  }

  /** A span that has to share a track overlaps one that is on it. */
  lemma SharedIsNotClear(spans: seq<Span>, max: nat)
    requires max > 0 && Forward(spans) && Ordered(spans) && spans != []
    requires var n := |spans| - 1;
             var ends := Laid(spans[..n], max).ends;
             |ends| == max && FirstFree(ends, spans[n].request) == max
    ensures !Clear(spans, Laid(spans, max).tracks, max)
  {
    var n, tracks := |spans| - 1, Laid(spans, max).tracks;
    var i := EndsAreSomeones(spans[..n], max, max - 1);
    assert tracks[i] == tracks[n] == max - 1 && Overlap(spans[i], spans[n]);
  }

  /** A clear layout never had to share a track. */
  lemma {:induction false} ClearIsNeverShared(spans: seq<Span>, max: nat)
    requires max > 0 && Forward(spans) && Ordered(spans)
    requires Clear(spans, Laid(spans, max).tracks, max)
    ensures NeverShared(spans, max)
  {
    if spans != [] {
      ClearBefore(spans, max);
      ClearIsNeverShared(spans[..|spans| - 1], max);
      if !NeverShared(spans, max) {
        SharedIsNotClear(spans, max);
      }
    }
  }

  /** Two spans share a track and a row exactly when more spans than there are
      tracks cover some row. */
  lemma ClearExactlyWhenShallow(spans: seq<Span>, max: nat)
    requires max > 0 && Forward(spans) && Ordered(spans)
    ensures Clear(spans, Laid(spans, max).tracks, max) <==> Shallow(spans, max)
  {
    if Clear(spans, Laid(spans, max).tracks, max) {
      ClearIsNeverShared(spans, max);
      forall row: nat ensures Depth(spans, row) <= max {
        NeverSharedIsShallow(spans, max, row);
      }
    }
    if Shallow(spans, max) {
      ShallowIsNeverShared(spans, max);
      NeverSharedIsClear(spans, max);
    }
  }

  /** A new track is taken only where all the others are busy. */
  lemma {:induction false} NewTrackIsNeeded(spans: seq<Span>, max: nat)
    requires 0 < max && Forward(spans) && Ordered(spans) && spans != [] && NeverShared(spans[..|spans| - 1], max)
    requires |Laid(spans, max).ends| > |Laid(spans[..|spans| - 1], max).ends|
    ensures Depth(spans, spans[|spans| - 1].request) >= |Laid(spans, max).ends|
  {
    var n, row := |spans| - 1, spans[|spans| - 1].request;
    var ends := Laid(spans[..n], max).ends;
    BusyIsDepth(spans[..n], max, row);
    AllBusy(ends, row);
  }

  /** No more tracks are used than spans cover the busiest row. */
  lemma {:induction false} UsesNoSpareTrack(spans: seq<Span>, max: nat, deepest: nat)
    requires 0 < max && deepest <= max && Forward(spans) && Ordered(spans)
    requires Shallow(spans, deepest)
    ensures |Laid(spans, max).ends| <= deepest
  {
    if spans != [] {
      var n := |spans| - 1;
      forall row: nat ensures Depth(spans[..n], row) <= deepest {
        DepthGrows(spans, n, row);
      }
      UsesNoSpareTrack(spans[..n], max, deepest);
      ShallowIsNeverShared(spans[..n], max);
      if |Laid(spans, max).ends| > |Laid(spans[..n], max).ends| {
        NewTrackIsNeeded(spans, max);
        assert Depth(spans, spans[n].request) <= deepest;
      }
    }
  }

  // ------------------------------------------------------------------- rows

  ghost predicate RowsApart(spans: seq<Span>) {
    forall i, j | 0 <= i < j < |spans| :: spans[i].rows !! spans[j].rows
  }

  /** A row's track is the track of the span it belongs to. */
  lemma {:induction false} CarriedByItsSpan(spans: seq<Span>, tracks: seq<nat>, i: nat, row: nat)
    requires |tracks| == |spans| && RowsApart(spans) && i < |spans| && row in spans[i].rows
    ensures row in Carried(spans, tracks) && Carried(spans, tracks)[row] == tracks[i]
  {
    var n := |spans| - 1;
    if i < n {
      CarriedByItsSpan(spans[..n], tracks[..n], i, row);
    }
  }

  /** A row has a track only if some span holds it. */
  lemma {:induction false} CarriedBySome(spans: seq<Span>, tracks: seq<nat>, row: nat)
    requires |tracks| == |spans| && row in Carried(spans, tracks)
    ensures exists i :: 0 <= i < |spans| && row in spans[i].rows && Carried(spans, tracks)[row] == tracks[i]
  {
    var n := |spans| - 1;
    if row !in spans[n].rows {
      CarriedBySome(spans[..n], tracks[..n], row);
      var i :| 0 <= i < n && row in spans[..n][i].rows && Carried(spans[..n], tracks[..n])[row] == tracks[..n][i];
      assert row in spans[i].rows && Carried(spans, tracks)[row] == tracks[i];
    }
  }

  // ------------------------------------------------------------- the greedy rule

  /** The latest of the first `n` spans that a track was given to. */
  function LatestOn(tracks: seq<nat>, n: nat, track: nat): (latest: Option<nat>)
    requires n <= |tracks|
    ensures latest.Some? ==> latest.value < n
  {
    if n == 0 then None else if tracks[n - 1] == track then Some(n - 1) else LatestOn(tracks, n - 1, track)
  }

  /** Where span `i` begins, the track has not been left by the latest span on it. */
  predicate Occupied(spans: seq<Span>, tracks: seq<nat>, i: nat, track: nat)
    requires i < |spans| == |tracks|
  {
    var latest := LatestOn(tracks, i, track);
    latest.Some? && spans[latest.value].last >= spans[i].request
  }

  lemma {:induction false} LatestIgnoresLater(tracks: seq<nat>, more: seq<nat>, n: nat, track: nat)
    requires n <= |tracks|
    ensures LatestOn(tracks + more, n, track) == LatestOn(tracks, n, track)
  {
    if n > 0 {
      LatestIgnoresLater(tracks, more, n - 1, track);
    }
  }

  lemma {:induction false} EndsTell(spans: seq<Span>, max: nat, track: nat)
    requires max > 0
    ensures var layout := Laid(spans, max); var latest := LatestOn(layout.tracks, |spans|, track);
            && (track < |layout.ends| <==> latest.Some?)
            && (latest.Some? ==> layout.ends[track] == spans[latest.value].last)
  {
    if spans != [] {
      var n := |spans| - 1;
      var before := Laid(spans[..n], max);
      EndsTell(spans[..n], max, track);
      LatestIgnoresLater(before.tracks, [TrackFor(before.ends, spans[n].request, max)], n, track);
    }
  }

  lemma {:induction false} LastIsGreedy(spans: seq<Span>, max: nat)
    requires max > 0 && spans != []
    ensures var tracks, n := Laid(spans, max).tracks, |spans| - 1;
            && tracks[n] < max && (forall t: nat | t < tracks[n] :: Occupied(spans, tracks, n, t))
            && (Occupied(spans, tracks, n, tracks[n]) ==> tracks[n] == max - 1)
  {
    var tracks, n := Laid(spans, max).tracks, |spans| - 1;
    var before := Laid(spans[..n], max);
    assert tracks == before.tracks + [tracks[n]];
    forall t: nat | t <= tracks[n]
      ensures Occupied(spans, tracks, n, t) <==> t < |before.ends| && before.ends[t] >= spans[n].request
    {
      EndsTell(spans[..n], max, t);
      LatestIgnoresLater(before.tracks, [tracks[n]], n, t);
    }
  }

  /** Every span gets the first track that is not occupied where it begins, or the
      outermost if all are: which determines every track. */
  lemma {:induction false} TracksAreGreedy(spans: seq<Span>, max: nat, i: nat)
    requires max > 0 && i < |spans|
    ensures var tracks := Laid(spans, max).tracks;
            && tracks[i] < max && (forall t: nat | t < tracks[i] :: Occupied(spans, tracks, i, t))
            && (Occupied(spans, tracks, i, tracks[i]) ==> tracks[i] == max - 1)
  {
    if i == |spans| - 1 {
      LastIsGreedy(spans, max);
    } else {
      var n := |spans| - 1;
      var before, tracks := Laid(spans[..n], max).tracks, Laid(spans, max).tracks;
      TracksAreGreedy(spans[..n], max, i);
      assert tracks == before + [tracks[n]];
      forall t: nat ensures Occupied(spans, tracks, i, t) <==> Occupied(spans[..n], before, i, t) {
        LatestIgnoresLater(before, [tracks[n]], i, t);
      }
    }
  }
}
