/** The sequence diagram's lifelines: ties become blocks of activity, one for
    each request, and messages inside a block of another exchange stand alone. */
module Lifelines {
  import opened Basics
  import opened Exchanges
  import opened Tracks
  import M = Matcher
  import S = MatcherSoundness

  datatype Row = Row(inbound: Option<bool>, connection: bool)

  /** The replies to one request so far, and the last row among them. */
  datatype Group = Group(replies: seq<M.Tie>, last: nat)

  // ----------------------------------------------------------------- blocks

  function RepliesTo(ties: seq<M.Tie>, request: nat): seq<M.Tie> {
    if ties == [] then []
    else
      var tie := ties[|ties| - 1];
      RepliesTo(ties[..|ties| - 1], request) + (if tie.request == request then [tie] else [])
  }

  function LastOf(request: nat, replies: seq<M.Tie>): (last: nat)
    ensures last >= request && forall tie | tie in replies :: last >= tie.reply
    ensures last == request || exists tie | tie in replies :: last == tie.reply
  {
    if replies == [] then request
    else Max(LastOf(request, replies[..|replies| - 1]), replies[|replies| - 1].reply)
  }

  function RowsOf(request: nat, replies: seq<M.Tie>): set<nat> {
    {request} + set tie | tie in replies :: tie.reply
  }

  /** The receiving end's lifeline: ours for an inbound request. */
  function SideOf(rows: seq<Row>, request: nat): Side
    requires request < |rows|
  {
    if rows[request].inbound == Some(true) then Ours else Theirs
  }

  function BlockFor(ties: seq<M.Tie>, rows: seq<Row>, request: nat): Span
    requires request < |rows|
  {
    var replies := RepliesTo(ties, request);
    Span(request, replies, LastOf(request, replies), RowsOf(request, replies), SideOf(rows, request), false)
  }

  ghost predicate WithinRows(ties: seq<M.Tie>, rows: seq<Row>) {
    forall tie | tie in ties :: tie.request < |rows| && tie.reply < |rows|
  }

  /** One block for each request that was answered, in order. */
  ghost predicate IsBlocks(ties: seq<M.Tie>, rows: seq<Row>, blocks: seq<Span>) {
    && Ordered(blocks)
    && (forall b | b in blocks :: b.request < |rows| && b == BlockFor(ties, rows, b.request) && b.replies != [])
    && (forall tie | tie in ties :: exists b | b in blocks :: b.request == tie.request)
  }

  lemma {:induction false} RepliesMean(ties: seq<M.Tie>, request: nat, tie: M.Tie)
    ensures tie in RepliesTo(ties, request) <==> tie in ties && tie.request == request
  {
    if ties != [] {
      RepliesMean(ties[..|ties| - 1], request, tie);
      assert ties == ties[..|ties| - 1] + [ties[|ties| - 1]];
    }
  }

  /** A span's place among spans sorted by request, then last. */
  function Placed(spans: seq<Span>, span: Span): (after: seq<Span>)
    ensures |after| == |spans| + 1
    ensures forall s :: s in after <==> s in spans || s == span
  {
    if spans == [] || span.request < spans[0].request || (span.request == spans[0].request && span.last < spans[0].last)
    then [span] + spans
    else [spans[0]] + Placed(spans[1..], span)
  }

  lemma {:induction false} PlacedKeepsOrder(spans: seq<Span>, span: Span)
    requires Ordered(spans) && forall s | s in spans :: s.request != span.request
    ensures Ordered(Placed(spans, span))
  {
    var after := Placed(spans, span);
    if after != [span] + spans {
      PlacedKeepsOrder(spans[1..], span);
      FirstKeepsOrder(spans[0], Placed(spans[1..], span));
    }
  }

  lemma FirstKeepsOrder(first: Span, rest: seq<Span>)
    requires Ordered(rest) && forall s | s in rest :: first.request < s.request
    ensures Ordered([first] + rest)
  {
    var after := [first] + rest;
    forall i, j | 0 <= i < j < |after| ensures after[i].request < after[j].request {
      assert after[j] == rest[j - 1] && (i > 0 ==> after[i] == rest[i - 1]);
    }
  }

  /** The group that the ties so far have made of one request. */
  ghost predicate GroupedAt(ties: seq<M.Tie>, groups: map<nat, Group>, request: nat) {
    var replies := RepliesTo(ties, request);
    if replies == [] then request !in groups
    else request in groups && groups[request] == Group(replies, LastOf(request, replies))
  }

  ghost predicate Grouped(ties: seq<M.Tie>, groups: map<nat, Group>) {
    forall request: nat :: GroupedAt(ties, groups, request)
  }

  /** What one more tie makes of the groups. */
  function GroupedMore(groups: map<nat, Group>, tie: M.Tie): map<nat, Group> {
    var group := if tie.request in groups then groups[tie.request] else Group([], tie.request);
    groups[tie.request := Group(group.replies + [tie], Max(group.last, tie.reply))]
  }

  lemma GroupGrows(ties: seq<M.Tie>, groups: map<nat, Group>, tie: M.Tie, request: nat)
    requires GroupedAt(ties, groups, request)
    ensures GroupedAt(ties + [tie], GroupedMore(groups, tie), request)
  {
    assert (ties + [tie])[..|ties|] == ties;
    var replies := RepliesTo(ties, request);
    assert (replies + [tie])[..|replies|] == replies;
  }

  method GroupByRequest(ties: seq<M.Tie>) returns (groups: map<nat, Group>)
    ensures Grouped(ties, groups)
  {
    groups := map[];
    for i := 0 to |ties|
      invariant Grouped(ties[..i], groups)
    {
      forall request: nat ensures GroupedAt(ties[..i] + [ties[i]], GroupedMore(groups, ties[i]), request) {
        GroupGrows(ties[..i], groups, ties[i], request);
      }
      assert ties[..i + 1] == ties[..i] + [ties[i]];
      groups := GroupedMore(groups, ties[i]);
    }
    assert ties[..|ties|] == ties;
  }

  lemma GroupIsWithin(ties: seq<M.Tie>, rows: seq<Row>, groups: map<nat, Group>, request: nat)
    requires WithinRows(ties, rows) && GroupedAt(ties, groups, request) && request in groups
    ensures request < |rows| && RepliesTo(ties, request) != []
    ensures groups[request] == Group(RepliesTo(ties, request), LastOf(request, RepliesTo(ties, request)))
  {
    RepliesMean(ties, request, RepliesTo(ties, request)[0]);
  }

  method ExchangeBlocks(ties: seq<M.Tie>, rows: seq<Row>) returns (blocks: seq<Span>)
    requires WithinRows(ties, rows)
    ensures IsBlocks(ties, rows, blocks)
  {
    var groups := GroupByRequest(ties);
    blocks := [];
    var left := groups.Keys;
    while left != {}
      invariant left <= groups.Keys && Ordered(blocks)
      invariant forall b | b in blocks :: b.request !in left
      invariant forall b | b in blocks :: b.request < |rows| && b == BlockFor(ties, rows, b.request) && b.replies != []
      invariant forall request | request in groups && request !in left ::
                  request < |rows| && BlockFor(ties, rows, request) in blocks
    {
      var request :| request in left;
      assert GroupedAt(ties, groups, request);
      GroupIsWithin(ties, rows, groups, request);
      var group := groups[request];
      var block := Span(request, group.replies, group.last, RowsOf(request, group.replies),
                        SideOf(rows, request), false);
      PlacedKeepsOrder(blocks, block);
      blocks := Placed(blocks, block);
      left := left - {request};
    }
    forall tie | tie in ties ensures exists b | b in blocks :: b.request == tie.request {
      RepliesMean(ties, tie.request, tie);
      assert GroupedAt(ties, groups, tie.request);
      assert BlockFor(ties, rows, tie.request) in blocks;
    }
  }

  /** Blocks on one lifeline have no row in common: a reply has one request, and
      a request that is itself a reply is answered on the other lifeline. */
  lemma BlocksShareNoRow(table: seq<Exchange>, turns: seq<M.Turn>, rows: seq<Row>, blocks: seq<Span>, i: nat, j: nat)
    requires |rows| == |turns| && forall r | 0 <= r < |rows| :: rows[r].inbound == turns[r].inbound
    requires IsBlocks(M.RunAll(table, turns), rows, blocks)
    requires i < j < |blocks| && blocks[i].side == blocks[j].side
    ensures blocks[i].rows !! blocks[j].rows
  {
    var ties := M.RunAll(table, turns);
    S.RunIsSound(table, turns, |turns|);
    var a, b := blocks[i], blocks[j];
    assert a in blocks && b in blocks;
    forall row | row in a.rows && row in b.rows ensures false {
      RowHasOneBlock(table, turns, rows, ties, a.request, b.request, row);
    }
  }

  lemma RowHasOneBlock(table: seq<Exchange>, turns: seq<M.Turn>, rows: seq<Row>, ties: seq<M.Tie>, a: nat, b: nat,
                       row: nat)
    requires |rows| == |turns| && forall r | 0 <= r < |rows| :: rows[r].inbound == turns[r].inbound
    requires S.TiesOk(table, turns, |turns|, ties) && a < |rows| && b < |rows| && a != b
    requires row in RowsOf(a, RepliesTo(ties, a)) && row in RowsOf(b, RepliesTo(ties, b))
    ensures SideOf(rows, a) != SideOf(rows, b)
  {
    if row == a {
      RepliesCross(table, turns, rows, ties, b, row);
    } else if row == b {
      RepliesCross(table, turns, rows, ties, a, row);
    } else {
      var s :| s in RepliesTo(ties, a) && s.reply == row;
      var t :| t in RepliesTo(ties, b) && t.reply == row;
      RepliesMean(ties, a, s);
      RepliesMean(ties, b, t);
      assert false;
    }
  }

  /** A reply travels the other way, so as a request it is answered on the other
      lifeline. */
  lemma RepliesCross(table: seq<Exchange>, turns: seq<M.Turn>, rows: seq<Row>, ties: seq<M.Tie>, request: nat, row: nat)
    requires |rows| == |turns| && forall r | 0 <= r < |rows| :: rows[r].inbound == turns[r].inbound
    requires S.TiesOk(table, turns, |turns|, ties) && request < |rows| && row < |rows| && row != request
    requires row in RowsOf(request, RepliesTo(ties, request))
    ensures SideOf(rows, row) != SideOf(rows, request)
  {
    var tie :| tie in RepliesTo(ties, request) && tie.reply == row;
    RepliesMean(ties, request, tie);
    assert S.TieOk(table, turns, tie);
  }

  /** A block stands on the lifeline of whoever answered: its request came in and
      its replies went out on ours, and the other way round on the peer's. */
  lemma BlocksStandWhereAnswered(table: seq<Exchange>, turns: seq<M.Turn>, rows: seq<Row>, blocks: seq<Span>, b: Span)
    requires |rows| == |turns| && forall r | 0 <= r < |rows| :: rows[r].inbound == turns[r].inbound
    requires IsBlocks(M.RunAll(table, turns), rows, blocks) && b in blocks
    ensures b.request < |turns| && turns[b.request].inbound == Some(b.side == Ours)
    ensures forall tie | tie in b.replies ::
              b.request < tie.reply < |turns| && turns[tie.reply].inbound == Some(b.side == Theirs)
  {
    var ties := M.RunAll(table, turns);
    S.RunIsSound(table, turns, |turns|);
    forall tie | tie in b.replies
      ensures S.TieOk(table, turns, tie) && tie.request == b.request
    {
      RepliesMean(ties, b.request, tie);
    }
    assert b.replies[0] in b.replies;
  }

  // -------------------------------------------------------------- lifelines

  predicate Inside(block: Span, row: nat) {
    block.request < row < block.last && row !in block.rows
  }

  /** A row strictly within the extent of some block and a row of none. */
  predicate Stray(blocks: seq<Span>, rows: seq<Row>, row: nat) {
    && row < |rows| && !rows[row].connection
    && (exists b | b in blocks :: Inside(b, row))
    && (forall b | b in blocks :: row !in b.rows)
  }

  function Alone(row: nat, side: Side): Span {
    Span(row, [], row, {row}, side, true)
  }

  /** The blocks of a lifeline and its strays, in order. */
  ghost predicate IsLifeline(blocks: seq<Span>, rows: seq<Row>, side: Side, spans: seq<Span>) {
    && Ordered(spans)
    && (forall b | b in blocks :: b in spans)
    && (forall row: nat | Stray(blocks, rows, row) :: Alone(row, side) in spans)
    && (forall s | s in spans :: s in blocks || (Stray(blocks, rows, s.request) && s == Alone(s.request, side)))
  }

  ghost predicate Proper(blocks: seq<Span>, rows: seq<Row>) {
    && Ordered(blocks)
    && (forall b | b in blocks :: b.request <= b.last < |rows| && b.request in b.rows)
  }

  method Cover(blocks: seq<Span>) returns (covered: set<nat>)
    ensures forall row: nat :: row in covered <==> exists b | b in blocks :: Inside(b, row)
  {
    covered := {};
    for i := 0 to |blocks|
      invariant forall row: nat :: row in covered <==> exists b | b in blocks[..i] :: Inside(b, row)
    {
      var block := blocks[i];
      ghost var before := covered;
      var row := block.request + 1;
      while row < block.last
        invariant row > block.request
        invariant forall r: nat :: r in covered <==> r in before || (Inside(block, r) && r < row)
        decreases block.last - row
      {
        if row !in block.rows {
          covered := covered + {row};
        }
        row := row + 1;
      }
      assert blocks[..i + 1] == blocks[..i] + [block];
    }
    assert blocks[..|blocks|] == blocks;
  }

  /** The blocks of a lifeline, and its strays before `row`, in order. */
  ghost predicate Gathering(blocks: seq<Span>, rows: seq<Row>, side: Side, spans: seq<Span>, row: nat) {
    && Ordered(spans)
    && (forall b | b in blocks :: b in spans)
    && (forall r: nat | r < row && Stray(blocks, rows, r) :: Alone(r, side) in spans)
    && (forall s | s in spans ::
          s in blocks
          || (s.request < row && Stray(blocks, rows, s.request) && s == Alone(s.request, side)))
  }

  lemma StrayIsNew(blocks: seq<Span>, rows: seq<Row>, side: Side, spans: seq<Span>, row: nat)
    requires Proper(blocks, rows) && Gathering(blocks, rows, side, spans, row) && Stray(blocks, rows, row)
    ensures forall s | s in spans :: s.request != row
  {
    forall s | s in spans ensures s.request != row {
      assert s in blocks ==> s.request in s.rows;
    }
  }

  lemma {:induction false} StrayGathers(blocks: seq<Span>, rows: seq<Row>, side: Side, spans: seq<Span>, row: nat)
    requires Proper(blocks, rows) && Gathering(blocks, rows, side, spans, row) && Stray(blocks, rows, row)
    ensures Gathering(blocks, rows, side, Placed(spans, Alone(row, side)), row + 1)
  {
    StrayIsNew(blocks, rows, side, spans, row);
    PlacedKeepsOrder(spans, Alone(row, side));
    StrayJoins(blocks, rows, side, spans, Placed(spans, Alone(row, side)), row);
  }

  lemma {:induction false} StrayJoins(blocks: seq<Span>, rows: seq<Row>, side: Side, spans: seq<Span>, after: seq<Span>,
                                      row: nat)
    requires Gathering(blocks, rows, side, spans, row) && Stray(blocks, rows, row) && Ordered(after)
    requires forall s :: s in after <==> s in spans || s == Alone(row, side)
    ensures Gathering(blocks, rows, side, after, row + 1)
  {
  }

  /** No span so far holds a row exactly when no block does. */
  lemma HeldByBlock(blocks: seq<Span>, rows: seq<Row>, side: Side, spans: seq<Span>, row: nat)
    requires Gathering(blocks, rows, side, spans, row)
    ensures (exists s | s in spans :: row in s.rows) <==> exists b | b in blocks :: row in b.rows
  {
  }

  lemma NoStrayGathers(blocks: seq<Span>, rows: seq<Row>, side: Side, spans: seq<Span>, row: nat)
    requires Gathering(blocks, rows, side, spans, row) && !Stray(blocks, rows, row)
    ensures Gathering(blocks, rows, side, spans, row + 1)
  {
  }

  lemma StrayExactlyWhen(blocks: seq<Span>, rows: seq<Row>, side: Side, spans: seq<Span>, row: nat)
    requires Gathering(blocks, rows, side, spans, row) && row < |rows|
    ensures Stray(blocks, rows, row) <==>
              && (exists b | b in blocks :: Inside(b, row)) && !rows[row].connection
              && !exists s | s in spans :: row in s.rows
  {
    HeldByBlock(blocks, rows, side, spans, row);
  }

  /** Sort a lifeline's blocks and strays together. */
  method Gather(blocks: seq<Span>, rows: seq<Row>, side: Side) returns (spans: seq<Span>)
    requires Proper(blocks, rows)
    ensures IsLifeline(blocks, rows, side, spans)
  {
    var covered := Cover(blocks);
    spans := blocks;
    for row := 0 to |rows|
      invariant Gathering(blocks, rows, side, spans, row)
    {
      StrayExactlyWhen(blocks, rows, side, spans, row);
      if row in covered && !rows[row].connection && !exists s | s in spans :: row in s.rows {
        StrayGathers(blocks, rows, side, spans, row);
        spans := Placed(spans, Alone(row, side));
      } else {
        NoStrayGathers(blocks, rows, side, spans, row);
      }
    }
  }

  lemma LaidMore(spans: seq<Span>, max: nat, i: nat)
    requires max > 0 && i < |spans|
    ensures var before, after := Laid(spans[..i], max), Laid(spans[..i + 1], max);
            var track := TrackFor(before.ends, spans[i].request, max);
            after == Layout(Taken(before.ends, track, spans[i].last), before.tracks + [track])
            && Carried(spans[..i + 1], after.tracks)
               == OnTrack(Carried(spans[..i], before.tracks), spans[i].rows, track)
  {
    var more, tracks := spans[..i + 1], Laid(spans[..i + 1], max).tracks;
    assert more[..i] == spans[..i];
    assert tracks[..i] == Laid(spans[..i], max).tracks;
  }

  method Lay(spans: seq<Span>, max: nat) returns (tracks: seq<nat>, trackOf: map<nat, nat>)
    requires max > 0
    ensures tracks == Laid(spans, max).tracks && trackOf == Carried(spans, tracks)
  {
    var ends: seq<nat> := [];
    tracks, trackOf := [], map[];
    for i := 0 to |spans|
      invariant Layout(ends, tracks) == Laid(spans[..i], max) && trackOf == Carried(spans[..i], tracks)
    {
      LaidMore(spans, max, i);
      var span := spans[i];
      var track := TrackFor(ends, span.request, max);
      ends := Taken(ends, track, span.last);
      tracks := tracks + [track];
      trackOf := OnTrack(trackOf, span.rows, track);
    }
    assert spans[..|spans|] == spans;
  }

  function OnSide(blocks: seq<Span>, side: Side): (some: seq<Span>)
    ensures forall b :: b in some <==> b in blocks && b.side == side
  {
    if blocks == [] then []
    else
      var block := blocks[|blocks| - 1];
      assert blocks == blocks[..|blocks| - 1] + [block];
      OnSide(blocks[..|blocks| - 1], side) + (if block.side == side then [block] else [])
  }

  lemma {:induction false} OnSideKeepsOrder(blocks: seq<Span>, side: Side)
    requires Ordered(blocks)
    ensures Ordered(OnSide(blocks, side))
  {
    if blocks != [] {
      var n, before := |blocks| - 1, OnSide(blocks[..|blocks| - 1], side);
      OnSideKeepsOrder(blocks[..n], side);
      forall k | 0 <= k < |before| ensures before[k].request < blocks[n].request {
        assert before[k] in before;
      }
    }
  }

  lemma SideIsProper(ties: seq<M.Tie>, rows: seq<Row>, blocks: seq<Span>, side: Side)
    requires WithinRows(ties, rows) && IsBlocks(ties, rows, blocks)
    ensures Proper(OnSide(blocks, side), rows)
  {
    OnSideKeepsOrder(blocks, side);
    forall b | b in blocks ensures b.request <= b.last < |rows| {
      if b.last != b.request {
        var tie :| tie in b.replies && b.last == tie.reply;
        RepliesMean(ties, b.request, tie);
      }
    }
  }

  method BySide(blocks: seq<Span>) returns (ours: seq<Span>, theirs: seq<Span>)
    ensures ours == OnSide(blocks, Ours) && theirs == OnSide(blocks, Theirs)
  {
    ours, theirs := [], [];
    for i := 0 to |blocks|
      invariant ours == OnSide(blocks[..i], Ours) && theirs == OnSide(blocks[..i], Theirs)
    {
      assert blocks[..i + 1][..i] == blocks[..i];
      if blocks[i].side == Ours {
        ours := ours + [blocks[i]];
      } else {
        theirs := theirs + [blocks[i]];
      }
    }
    assert blocks[..|blocks|] == blocks;
  }

  /** Lay out both lifelines. */
  method LifelineTracks(ties: seq<M.Tie>, rows: seq<Row>, blocks: seq<Span>)
    returns (ours: seq<Span>, theirs: seq<Span>, tracks: (seq<nat>, seq<nat>), trackOf: (map<nat, nat>, map<nat, nat>))
    requires WithinRows(ties, rows) && IsBlocks(ties, rows, blocks)
    ensures IsLifeline(OnSide(blocks, Ours), rows, Ours, ours)
            && IsLifeline(OnSide(blocks, Theirs), rows, Theirs, theirs)
    ensures tracks.0 == Laid(ours, TRACK_MAX).tracks && tracks.1 == Laid(theirs, TRACK_MAX).tracks
    ensures trackOf.0 == Carried(ours, tracks.0) && trackOf.1 == Carried(theirs, tracks.1)
  {
    ours, theirs := BySide(blocks);
    SideIsProper(ties, rows, blocks, Ours);
    SideIsProper(ties, rows, blocks, Theirs);
    ours := Gather(ours, rows, Ours);
    theirs := Gather(theirs, rows, Theirs);
    var ourTracks, ourTrackOf := Lay(ours, TRACK_MAX);
    var theirTracks, theirTrackOf := Lay(theirs, TRACK_MAX);
    tracks, trackOf := (ourTracks, theirTracks), (ourTrackOf, theirTrackOf);
  }

  // ------------------------------------------------------------ end to end

  ghost predicate OnLifeline(blocks: seq<Span>, rows: seq<Row>, side: Side, s: Span) {
    s in OnSide(blocks, side) || (Stray(OnSide(blocks, side), rows, s.request) && s == Alone(s.request, side))
  }

  lemma SpansApart(table: seq<Exchange>, turns: seq<M.Turn>, rows: seq<Row>, blocks: seq<Span>, side: Side, a: Span,
                   b: Span)
    requires |rows| == |turns| && forall r | 0 <= r < |rows| :: rows[r].inbound == turns[r].inbound
    requires IsBlocks(M.RunAll(table, turns), rows, blocks) && a.request < b.request
    requires OnLifeline(blocks, rows, side, a) && OnLifeline(blocks, rows, side, b)
    ensures a.rows !! b.rows
  {
    if a in OnSide(blocks, side) && b in OnSide(blocks, side) {
      var i :| 0 <= i < |blocks| && blocks[i] == a;
      var j :| 0 <= j < |blocks| && blocks[j] == b;
      BlocksShareNoRow(table, turns, rows, blocks, i, j);
    }
  }

  /** Blocks and strays laid out from what the matcher found: no row is in two
      of them. */
  lemma LifelineRowsApart(table: seq<Exchange>, turns: seq<M.Turn>, rows: seq<Row>, blocks: seq<Span>, side: Side,
                          spans: seq<Span>)
    requires |rows| == |turns| && forall r | 0 <= r < |rows| :: rows[r].inbound == turns[r].inbound
    requires IsBlocks(M.RunAll(table, turns), rows, blocks)
    requires IsLifeline(OnSide(blocks, side), rows, side, spans)
    ensures RowsApart(spans) && Forward(spans)
  {
    forall i, j | 0 <= i < j < |spans| ensures spans[i].rows !! spans[j].rows {
      assert spans[i] in spans && spans[j] in spans;
      SpansApart(table, turns, rows, blocks, side, spans[i], spans[j]);
    }
    forall i | 0 <= i < |spans| ensures spans[i].request <= spans[i].last {
      assert spans[i] in spans;
    }
  }

  /** With no more spans than tracks over any row, spans that overlap keep
      different tracks: every row of a span is on
      that span's track, and of two spans that overlap no two rows share one. */
  lemma OverlappingSpansStandApart(table: seq<Exchange>, turns: seq<M.Turn>, rows: seq<Row>, blocks: seq<Span>,
                                   side: Side, spans: seq<Span>, max: nat, i: nat, j: nat, row: nat)
    requires |rows| == |turns| && forall r | 0 <= r < |rows| :: rows[r].inbound == turns[r].inbound
    requires IsBlocks(M.RunAll(table, turns), rows, blocks)
    requires IsLifeline(OnSide(blocks, side), rows, side, spans)
    requires max > 0 && Shallow(spans, max)
    requires i < |spans| && j < |spans| && i != j && Overlap(spans[i], spans[j]) && row in spans[j].rows
    ensures var tracks := Laid(spans, max).tracks;
            var trackOf := Carried(spans, tracks);
            row in trackOf && trackOf[row] == tracks[j] && trackOf[row] != tracks[i]
  {
    LifelineRowsApart(table, turns, rows, blocks, side, spans);
    CarriedByItsSpan(spans, Laid(spans, max).tracks, j, row);
    ClearExactlyWhenShallow(spans, max);
  }

  /** The row is the request of a block, or one of its replies. */
  ghost predicate Belongs(block: Span, row: nat) {
    row == block.request || exists tie | tie in block.replies :: tie.reply == row
  }

  ghost predicate Held(blocks: seq<Span>, row: nat) {
    exists b | b in blocks :: Belongs(b, row)
  }

  /** The row lies between the request and the last reply of a block. */
  predicate Between(blocks: seq<Span>, row: nat) {
    exists b | b in blocks :: b.request < row < b.last
  }

  lemma BlockHolds(ties: seq<M.Tie>, rows: seq<Row>, b: Span, row: nat)
    requires b.request < |rows| && b == BlockFor(ties, rows, b.request)
    ensures row in b.rows <==> Belongs(b, row)
  {
  }

  lemma HeldInRows(ties: seq<M.Tie>, rows: seq<Row>, blocks: seq<Span>, side: Side, row: nat)
    requires IsBlocks(ties, rows, blocks)
    ensures Held(OnSide(blocks, side), row) <==> exists b | b in OnSide(blocks, side) :: row in b.rows
  {
    forall b | b in OnSide(blocks, side) ensures row in b.rows <==> Belongs(b, row) {
      BlockHolds(ties, rows, b, row);
    }
  }

  lemma StrayMeans(mine: seq<Span>, rows: seq<Row>, row: nat)
    requires row < |rows| && (Held(mine, row) <==> exists b | b in mine :: row in b.rows)
    ensures Stray(mine, rows, row) <==> !Held(mine, row) && Between(mine, row) && !rows[row].connection
  {
    if !Held(mine, row) && Between(mine, row) {
      var b :| b in mine && b.request < row < b.last;
      assert Inside(b, row);
    }
  }

  lemma DrawnOnBlockOrAlone(mine: seq<Span>, rows: seq<Row>, side: Side, spans: seq<Span>, row: nat)
    requires IsLifeline(mine, rows, side, spans)
    ensures (exists s | s in spans :: row in s.rows)
       <==> (exists b | b in mine :: row in b.rows) || Stray(mine, rows, row)
  {
    if Stray(mine, rows, row) {
      assert Alone(row, side) in spans && row in Alone(row, side).rows;
    }
  }

  /** A row has something to stand on, on a lifeline, exactly when it is the request
      or a reply of one of its blocks, or lies between the request and the last
      reply of one and is no connection event; in the latter case it stands alone. */
  lemma DrawnExactlyWhen(ties: seq<M.Tie>, rows: seq<Row>, blocks: seq<Span>, side: Side, spans: seq<Span>, row: nat)
    requires IsBlocks(ties, rows, blocks) && row < |rows|
    requires IsLifeline(OnSide(blocks, side), rows, side, spans)
    ensures var mine := OnSide(blocks, side);
            var alone := !Held(mine, row) && Between(mine, row) && !rows[row].connection;
            && ((exists s | s in spans :: row in s.rows) <==> Held(mine, row) || alone)
            && (alone ==> Span(row, [], row, {row}, side, true) in spans)
  {
    var mine := OnSide(blocks, side);
    HeldInRows(ties, rows, blocks, side, row);
    StrayMeans(mine, rows, row);
    DrawnOnBlockOrAlone(mine, rows, side, spans, row);
  }
}
