/** The event store: columns beside chunks of raw bytes, kept under a budget
    until the budget or the memory runs out. */
module Store {
  import opened Basics

  const BYTES_PER_EVENT := 8 + 2 + 4 + 1 + 4 + 4 + 4 + 4

  const CHUNK_BYTES := 4 * 1024 * 1024

  /** How many values a 32-bit column has. */
  const WORD := 0x1_0000_0000

  datatype StoppedBecause = Budget | OutOfMemory

  datatype Event = Event(timestamp: nat, kind: nat, peer: nat, flags: nat, size: nat, bytes: seq<byte>)

  datatype EventRow = EventRow(index: nat, timestamp: nat, kind: nat, peer: nat, flags: nat, size: nat)

  datatype Chunk = Chunk(data: seq<byte>, capacity: nat)

  /** Where an event's bytes really start. */
  datatype Place = Place(chunk: nat, offset: nat)

  // ------------------------------------------------------------- the budget

  /** What keeping `events` costs. */
  function Cost(events: seq<Event>): nat {
    if events == [] then 0
    else Cost(events[..|events| - 1]) + |events[|events| - 1].bytes| + BYTES_PER_EVENT
  }

  lemma {:induction false} LongerCostsMore(events: seq<Event>, i: nat, j: nat)
    requires i <= j <= |events|
    ensures Cost(events[..i]) + BYTES_PER_EVENT * (j - i) <= Cost(events[..j])
  {
    if i < j {
      LongerCostsMore(events, i, j - 1);
      assert events[..j][..j - 1] == events[..j - 1];
    }
  }

  /** Retention that ended at the budget, or has not ended. */
  ghost predicate Retained(offered: seq<Event>, events: seq<Event>, budget: nat, stopped: Option<StoppedBecause>) {
    && events <= offered && Cost(events) <= budget
    && (stopped.None? ==> events == offered)
    && (stopped.Some? ==> |events| < |offered|)
    && (stopped == Some(Budget) ==> Cost(offered[..|events| + 1]) > budget)
  }

  /** What is kept is the longest beginning of what was offered that the budget
      pays for, unless an allocation failed first. */
  lemma LongestThatFits(offered: seq<Event>, events: seq<Event>, budget: nat, stopped: Option<StoppedBecause>, k: nat)
    requires Retained(offered, events, budget, stopped) && stopped != Some(OutOfMemory) && k <= |offered|
    ensures Cost(offered[..k]) <= budget <==> k <= |events|
  {
    assert events == offered[..|events|];
    if k <= |events| {
      LongerCostsMore(offered, k, |events|);
    } else {
      assert stopped == None || stopped == Some(Budget) by {
        match stopped { case None => case Some(Budget) => case Some(OutOfMemory) => }
      }
      LongerCostsMore(offered, |events| + 1, k);
    }
  }

  lemma OneMoreRetained(offered: seq<Event>, events: seq<Event>, budget: nat, event: Event)
    requires Retained(offered, events, budget, None) && Cost(events + [event]) <= budget
    ensures Retained(offered + [event], events + [event], budget, None)
  {
  }

  lemma RefusedRetained(offered: seq<Event>, events: seq<Event>, budget: nat, reason: StoppedBecause, refused: Event)
    requires Retained(offered, events, budget, None)
    requires reason == Budget ==> Cost(events + [refused]) > budget
    ensures Retained(offered + [refused], events, budget, Some(reason))
  {
    assert (offered + [refused])[..|events| + 1] == events + [refused];
  }

  /** Offering more after retention stopped changes nothing about it. */
  lemma StaysRetained(offered: seq<Event>, events: seq<Event>, budget: nat, stopped: Option<StoppedBecause>,
                      event: Event)
    requires Retained(offered, events, budget, stopped) && stopped.Some?
    ensures Retained(offered + [event], events, budget, stopped)
  {
    assert (offered + [event])[..|events| + 1] == offered[..|events| + 1];
  }

  lemma OneMoreCosts(events: seq<Event>, event: Event)
    ensures Cost(events + [event]) == Cost(events) + |event.bytes| + BYTES_PER_EVENT
    ensures Payloads(events + [event]) == Payloads(events) + event.bytes
  {
    assert (events + [event])[..|events|] == events;
  }

  // ---------------------------------------------------------------- columns

  /** The columns that hold what an event was offered with. */
  datatype Columns = Columns(timestamp: seq<nat>, kind: seq<nat>, peer: seq<nat>, flags: seq<nat>, size: seq<nat>)

  ghost predicate RowsMatch(events: seq<Event>, c: Columns) {
    && |c.timestamp| == |c.kind| == |c.peer| == |c.flags| == |c.size| == |events|
    && forall i | 0 <= i < |events| :: RowMatches(events[i], c, i)
  }

  predicate RowMatches(event: Event, c: Columns, i: nat)
    requires i < |c.timestamp| == |c.kind| == |c.peer| == |c.flags| == |c.size|
  {
    && c.timestamp[i] == event.timestamp && c.kind[i] == event.kind && c.peer[i] == event.peer
    && c.flags[i] == event.flags && c.size[i] == event.size
  }

  /** The columns that say where its bytes are. */
  datatype Slices = Slices(chunk: seq<nat>, offset: seq<nat>, length: seq<nat>)

  ghost predicate SlicesMatch(events: seq<Event>, places: seq<Place>, s: Slices) {
    && |s.chunk| == |s.offset| == |s.length| == |places| == |events|
    && forall i | 0 <= i < |events| :: SliceMatches(events[i], places[i], s, i)
  }

  predicate SliceMatches(event: Event, place: Place, s: Slices, i: nat)
    requires i < |s.chunk| == |s.offset| == |s.length|
  {
    s.chunk[i] == place.chunk % WORD && s.offset[i] == place.offset % WORD && s.length[i] == |event.bytes| % WORD
  }

  // ----------------------------------------------------------------- tiling

  /** Everything the chunks hold, in order. */
  function Joined(chunks: seq<Chunk>): seq<byte> {
    if chunks == [] then [] else Joined(chunks[..|chunks| - 1]) + chunks[|chunks| - 1].data
  }

  /** Every payload, in order. */
  function Payloads(events: seq<Event>): seq<byte> {
    if events == [] then [] else Payloads(events[..|events| - 1]) + events[|events| - 1].bytes
  }

  ghost predicate Holds(chunks: seq<Chunk>, place: Place, bytes: seq<byte>) {
    && place.chunk < |chunks|
    && place.offset + |bytes| <= |chunks[place.chunk].data|
    && chunks[place.chunk].data[place.offset..place.offset + |bytes|] == bytes
  }

  /** The next slice starts where the last one ended, or a chunk that ended
      there gave way to a new one. */
  predicate Follows(chunks: seq<Chunk>, place: Place, length: nat, next: Place) {
    || next == Place(place.chunk, place.offset + length)
    || (next == Place(place.chunk + 1, 0) && place.chunk < |chunks|
          && |chunks[place.chunk].data| == place.offset + length)
  }

  /** The slices lie end to end, from the start of the first chunk to the end
      of the last, and hold the payloads. */
  ghost predicate Tiled(events: seq<Event>, places: seq<Place>, chunks: seq<Chunk>) {
    && |places| == |events|
    && (events == [] ==> chunks == [])
    && (events != [] ==> places[0] == Place(0, 0))
    && (events != [] ==> Ends(events[|events| - 1], places[|events| - 1], chunks))
    && (forall i | 0 <= i < |events| :: Holds(chunks, places[i], events[i].bytes))
    && (forall i | 0 < i < |events| :: Continues(events, places, chunks, i))
  }

  predicate Continues(events: seq<Event>, places: seq<Place>, chunks: seq<Chunk>, i: nat)
    requires 0 < i < |events| == |places|
  {
    Follows(chunks, places[i - 1], |events[i - 1].bytes|, places[i])
  }

  predicate Ends(event: Event, place: Place, chunks: seq<Chunk>) {
    && place.chunk + 1 == |chunks|
    && place.offset + |event.bytes| == |chunks[place.chunk].data|
  }

  /** No two slices overlap, and later ones come later. */
  lemma {:induction false} SlicesAreApart(events: seq<Event>, places: seq<Place>, chunks: seq<Chunk>, i: nat, j: nat)
    requires Tiled(events, places, chunks) && i < j < |events|
    ensures || places[i].chunk < places[j].chunk
            || (places[i].chunk == places[j].chunk && places[i].offset + |events[i].bytes| <= places[j].offset)
  {
    assert Continues(events, places, chunks, j);
    if i < j - 1 {
      SlicesAreApart(events, places, chunks, i, j - 1);
    }
  }

  lemma {:induction false} PlacesStayLow(events: seq<Event>, places: seq<Place>, chunks: seq<Chunk>, i: nat)
    requires Tiled(events, places, chunks) && i < |events|
    ensures places[i].chunk <= i
  {
    if i > 0 {
      PlacesStayLow(events, places, chunks, i - 1);
      assert Continues(events, places, chunks, i);
    }
  }

  /** A chunk is part of what the chunks hold together. */
  lemma {:induction false} ChunkIsWithin(chunks: seq<Chunk>, c: nat)
    requires c < |chunks|
    ensures |chunks[c].data| <= |Joined(chunks)|
  {
    if c < |chunks| - 1 {
      ChunkIsWithin(chunks[..|chunks| - 1], c);
    }
  }

  lemma {:induction false} CostCountsBytes(events: seq<Event>)
    ensures Cost(events) == |Payloads(events)| + BYTES_PER_EVENT * |events|
  {
    if events != [] {
      CostCountsBytes(events[..|events| - 1]);
    }
  }

  /** No chunk holds more than its capacity. */
  ghost predicate Fitted(chunks: seq<Chunk>) {
    forall c | 0 <= c < |chunks| :: |chunks[c].data| <= chunks[c].capacity
  }

  /** Writing a payload at the end of the last chunk. */
  function Written(chunks: seq<Chunk>, bytes: seq<byte>): seq<Chunk>
    requires chunks != []
  {
    var last := chunks[|chunks| - 1];
    chunks[|chunks| - 1 := last.(data := last.data + bytes)]
  }

  /** The chunks once there is room for a payload: as they were, or with an
      empty one after them. */
  ghost predicate Roomy(before: seq<Chunk>, after: seq<Chunk>) {
    && after != []
    && |before| <= |after| <= |before| + 1
    && (forall c | 0 <= c < |before| :: after[c].data == before[c].data)
    && (|after| > |before| ==> after[|before|].data == [])
  }

  /** Whether `needed` more bytes can be written without another chunk. */
  predicate HasRoom(chunks: seq<Chunk>, needed: nat) {
    chunks != [] && chunks[|chunks| - 1].capacity - |chunks[|chunks| - 1].data| >= needed
  }

  /** A chunk that can still be written to has the size chunks are made in, at least. */
  predicate Spacious(chunks: seq<Chunk>) {
    chunks != [] ==> chunks[|chunks| - 1].capacity >= CHUNK_BYTES
  }

  /** A chunk is begun only where the payload would have taken the last one past the
      size chunks are made in. */
  predicate BegunWhenFull(before: seq<Chunk>, after: seq<Chunk>, needed: nat) {
    before != [] && |after| > |before| ==> |before[|before| - 1].data| + needed > CHUNK_BYTES
  }

  /** So it was for every payload. */
  ghost predicate Thrifty(events: seq<Event>, places: seq<Place>) {
    && |places| == |events|
    && forall i | 0 < i < |events| :: UsedUp(events, places, i)
  }

  predicate UsedUp(events: seq<Event>, places: seq<Place>, i: nat)
    requires 0 < i < |events| == |places|
  {
    places[i].chunk != places[i - 1].chunk ==>
      places[i - 1].offset + |events[i - 1].bytes| + |events[i].bytes| > CHUNK_BYTES
  }

  lemma WrittenIsThrifty(events: seq<Event>, places: seq<Place>, before: seq<Chunk>, after: seq<Chunk>, event: Event)
    requires Tiled(events, places, before) && Roomy(before, after) && Thrifty(events, places)
    requires BegunWhenFull(before, after, |event.bytes|)
    ensures Thrifty(events + [event], places + [Place(|after| - 1, |after[|after| - 1].data|)])
  {
    var all, at := events + [event], places + [Place(|after| - 1, |after[|after| - 1].data|)];
    forall i | 0 < i < |all| ensures UsedUp(all, at, i) {
      if i < |events| {
        assert UsedUp(events, places, i);
      } else {
        assert Ends(events[i - 1], places[i - 1], before);
      }
    }
  }

  lemma WrittenFits(chunks: seq<Chunk>, bytes: seq<byte>)
    requires Fitted(chunks) && HasRoom(chunks, |bytes|)
    ensures Fitted(Written(chunks, bytes))
  {
  }

  lemma {:induction false} JoinedByData(before: seq<Chunk>, after: seq<Chunk>)
    requires |before| == |after| && forall c | 0 <= c < |before| :: after[c].data == before[c].data
    ensures Joined(before) == Joined(after)
  {
    if before != [] {
      JoinedByData(before[..|before| - 1], after[..|after| - 1]);
    }
  }

  lemma {:induction false} WrittenJoins(before: seq<Chunk>, after: seq<Chunk>, bytes: seq<byte>)
    requires Roomy(before, after)
    ensures Joined(Written(after, bytes)) == Joined(before) + bytes
  {
    var n, done := |after| - 1, Written(after, bytes);
    assert done[..n] == after[..n];
    if |after| > |before| {
      JoinedByData(before, after[..n]);
    } else {
      JoinedByData(before, after);
      assert Joined(after[..n]) + (after[n].data + bytes) == Joined(after[..n]) + after[n].data + bytes;
    }
  }

  /** The chunks hold the payloads, end to end, and nothing else. */
  ghost predicate Packed(events: seq<Event>, places: seq<Place>, chunks: seq<Chunk>, chunkBytes: nat) {
    Tiled(events, places, chunks) && Joined(chunks) == Payloads(events) && chunkBytes == |Payloads(events)|
  }

  lemma WrittenPacks(events: seq<Event>, places: seq<Place>, before: seq<Chunk>, after: seq<Chunk>, chunkBytes: nat,
                     event: Event)
    requires Packed(events, places, before, chunkBytes) && Roomy(before, after)
    ensures Packed(events + [event], places + [Place(|after| - 1, |after[|after| - 1].data|)],
                   Written(after, event.bytes), chunkBytes + |event.bytes|)
  {
    WrittenTiles(events, places, before, after, event);
    WrittenJoins(before, after, event.bytes);
    OneMoreCosts(events, event);
  }

  /** A write moves nothing that was written before. */
  lemma WrittenTiles(events: seq<Event>, places: seq<Place>, before: seq<Chunk>, after: seq<Chunk>, event: Event)
    requires Tiled(events, places, before) && Roomy(before, after)
    ensures Tiled(events + [event], places + [Place(|after| - 1, |after[|after| - 1].data|)],
                  Written(after, event.bytes))
  {
    var n, place, chunks := |events|, Place(|after| - 1, |after[|after| - 1].data|), Written(after, event.bytes);
    var all, at := events + [event], places + [place];
    assert Holds(chunks, place, event.bytes);
    forall i | 0 <= i < n ensures Holds(chunks, at[i], all[i].bytes) {
      assert Holds(before, places[i], events[i].bytes);
      var data := before[places[i].chunk].data;
      assert data <= chunks[places[i].chunk].data;
    }
    forall i | 0 < i <= n ensures Continues(all, at, chunks, i) {
      assert Holds(before, places[i - 1], events[i - 1].bytes);
      if i < n {
        assert Continues(events, places, before, i) && Holds(before, places[i], events[i].bytes);
      }
    }
  }

  function RowPushed(c: Columns, event: Event): Columns {
    Columns(c.timestamp + [event.timestamp], c.kind + [event.kind], c.peer + [event.peer],
            c.flags + [event.flags], c.size + [event.size])
  }

  lemma RowAdded(events: seq<Event>, event: Event, c: Columns)
    requires RowsMatch(events, c)
    ensures RowsMatch(events + [event], RowPushed(c, event))
  {
    var after := RowPushed(c, event);
    forall i | 0 <= i < |events| + 1 ensures RowMatches((events + [event])[i], after, i) {
      assert i < |events| ==> RowMatches(events[i], c, i);
    }
  }

  function SlicePushed(s: Slices, event: Event, place: Place): Slices {
    Slices(s.chunk + [place.chunk % WORD], s.offset + [place.offset % WORD], s.length + [|event.bytes| % WORD])
  }

  lemma SliceAdded(events: seq<Event>, places: seq<Place>, event: Event, place: Place, s: Slices)
    requires SlicesMatch(events, places, s)
    ensures SlicesMatch(events + [event], places + [place], SlicePushed(s, event, place))
  {
    var after := SlicePushed(s, event, place);
    forall i | 0 <= i < |events| + 1 ensures SliceMatches((events + [event])[i], (places + [place])[i], after, i) {
      assert i < |events| ==> SliceMatches(events[i], places[i], s, i);
    }
  }

  /** Where the columns say event `index` is. */
  function Sliced(chunks: seq<Chunk>, s: Slices, index: nat): Option<seq<byte>>
    requires |s.chunk| == |s.offset| == |s.length|
  {
    if index >= |s.chunk| then None
    else if s.chunk[index] >= |chunks| then None
    else
      var data, start := chunks[s.chunk[index]].data, s.offset[index];
      if start + s.length[index] <= |data| then Some(data[start..start + s.length[index]]) else None
  }

  /** Whether 32-bit columns can say where an event lies. */
  predicate Narrow(place: Place, event: Event) {
    place.chunk < WORD && place.offset < WORD && |event.bytes| < WORD
  }

  lemma SlicedBack(events: seq<Event>, places: seq<Place>, chunks: seq<Chunk>, s: Slices, index: nat)
    requires Tiled(events, places, chunks) && SlicesMatch(events, places, s)
    ensures index >= |events| ==> Sliced(chunks, s, index) == None
    ensures index < |events| ==>
              (Sliced(chunks, s, index) == Some(events[index].bytes)
               <==> LiesWhereCut(chunks, places[index], events[index].bytes))
  {
    if index < |events| {
      assert Holds(chunks, places[index], events[index].bytes);
      assert SliceMatches(events[index], places[index], s, index);
    }
  }

  lemma CutSlice(data: seq<byte>, offset: nat, bytes: seq<byte>, length: nat)
    requires offset + |bytes| <= |data| && data[offset..offset + |bytes|] == bytes && length <= |bytes|
    ensures data[offset..offset + length] == bytes[..length]
  {
  }

  lemma SlicedCut(events: seq<Event>, places: seq<Place>, chunks: seq<Chunk>, s: Slices, index: nat)
    requires Tiled(events, places, chunks) && SlicesMatch(events, places, s) && index < |events|
    requires places[index].chunk < WORD && places[index].offset < WORD
    ensures Sliced(chunks, s, index) == Some(events[index].bytes[..|events[index].bytes| % WORD])
  {
    var place, bytes := places[index], events[index].bytes;
    assert SliceMatches(events[index], place, s, index) && Holds(chunks, place, bytes);
    assert s.chunk[index] == place.chunk && s.offset[index] == place.offset && s.length[index] == |bytes| % WORD;
    CutSlice(chunks[place.chunk].data, place.offset, bytes, |bytes| % WORD);
  }

  /** Whether a payload lies where its place, cut to 32 bits, says. */
  ghost predicate LiesWhereCut(chunks: seq<Chunk>, place: Place, bytes: seq<byte>) {
    |bytes| < WORD && Holds(chunks, Place(place.chunk % WORD, place.offset % WORD), bytes)
  }

  lemma NarrowLies(events: seq<Event>, places: seq<Place>, chunks: seq<Chunk>, index: nat)
    requires Tiled(events, places, chunks) && index < |events| && Narrow(places[index], events[index])
    ensures LiesWhereCut(chunks, places[index], events[index].bytes)
  {
    assert Holds(chunks, places[index], events[index].bytes);
  }

  // ------------------------------------------------------------- the object

  class EventStore {
    /** The parallel columns, in two groups. */
    var columns: Columns
    var slices: Slices
    var chunks: seq<Chunk>
    var chunkBytes: nat
    const budgetBytes: nat
    var stopped: Option<StoppedBecause>

    /** Every event offered so far, and the ones kept. */
    ghost var offered: seq<Event>
    ghost var events: seq<Event>
    ghost var places: seq<Place>

    ghost predicate Valid()
      reads this
    {
      && Retained(offered, events, budgetBytes, stopped)
      && RowsMatch(events, columns)
      && SlicesMatch(events, places, slices)
      && Packed(events, places, chunks, chunkBytes) && Fitted(chunks)
      && Thrifty(events, places) && (stopped.None? ==> Spacious(chunks))
    }

    constructor (budgetBytes: nat)
      ensures Valid() && this.budgetBytes == budgetBytes && offered == [] && stopped == None
    {
      columns, slices := Columns([], [], [], [], []), Slices([], [], []);
      chunks, chunkBytes := [], 0;
      this.budgetBytes, stopped := budgetBytes, None;
      offered, events, places := [], [], [];
    }

    function BytesHeld(): nat
      reads this
    {
      chunkBytes + |columns.timestamp| * BYTES_PER_EVENT
    }

    /** What is held is what the kept events cost, and stays within the budget. */
    function BytesUsed(): (used: nat)
      requires Valid()
      reads this
      ensures used == Cost(events) <= budgetBytes
    {
      CostCountsBytes(events);
      BytesHeld()
    }

    /** Why retention stops at an event, if it does. */
    function Verdict(event: Event, roomForRow: bool, grant: Option<nat>): Option<StoppedBecause>
      reads this
    {
      if BytesHeld() + |event.bytes| + BYTES_PER_EVENT > budgetBytes then Some(Budget)
      else if roomForRow && (HasRoom(chunks, |event.bytes|) || grant.Some?) then None
      else Some(OutOfMemory)
    }

    function Last(): Chunk
      requires chunks != []
      reads this
    {
      chunks[|chunks| - 1]
    }

    /** Retention stops for the budget exactly when one event more would cost more,
        and for want of memory exactly when it would not and there is no room for
        its row or its bytes. */
    lemma VerdictMeans(event: Event, roomForRow: bool, grant: Option<nat>)
      requires Valid() && stopped.None?
      ensures Verdict(event, roomForRow, grant) == Some(Budget) <==> Cost(offered + [event]) > budgetBytes
      ensures var room := chunks != [] && |Last().data| + |event.bytes| <= Last().capacity;
              Verdict(event, roomForRow, grant) == Some(OutOfMemory) <==>
                Cost(offered + [event]) <= budgetBytes && !(roomForRow && (room || grant.Some?))
    {
      CostCountsBytes(events);
      OneMoreCosts(offered, event);
    }

    /** Keep one event. `roomForRow` says whether the columns can grow, and `grant`
        how much a request for a new chunk is given, if anything. */
    method Push(event: Event, roomForRow: bool, grant: Option<nat>) returns (kept: bool)
      requires Valid()
      modifies this
      ensures Valid() && offered == old(offered) + [event]
      ensures events == if kept then old(events) + [event] else old(events)
      ensures stopped == if old(stopped).Some? then old(stopped) else old(Verdict(event, roomForRow, grant))
      ensures kept <==> stopped.None?
    {
      if stopped.Some? {
        StaysRetained(offered, events, budgetBytes, stopped, event);
        offered := offered + [event];
        return false;
      }
      kept := Admit(event, roomForRow, grant);
    }

    method Admit(event: Event, roomForRow: bool, grant: Option<nat>) returns (kept: bool)
      requires Valid() && stopped.None?
      modifies this
      ensures Valid() && offered == old(offered) + [event]
      ensures events == if kept then old(events) + [event] else old(events)
      ensures stopped == old(Verdict(event, roomForRow, grant))
      ensures kept <==> stopped.None?
    {
      OneMoreCosts(events, event);
      if BytesUsed() + |event.bytes| + BYTES_PER_EVENT > budgetBytes {
        Stop(Budget, event);
        return false;
      }
      kept := AdmitAffordable(event, roomForRow, grant);
    }

    method AdmitAffordable(event: Event, roomForRow: bool, grant: Option<nat>) returns (kept: bool)
      requires Valid() && stopped.None? && Cost(events + [event]) <= budgetBytes
      modifies this
      ensures Valid() && offered == old(offered) + [event]
      ensures events == if kept then old(events) + [event] else old(events)
      ensures kept <==> roomForRow && (old(HasRoom(chunks, |event.bytes|)) || grant.Some?)
      ensures stopped == if kept then None else Some(OutOfMemory)
    {
      ghost var before := chunks;
      var ready := false;
      if roomForRow {
        ready := ReserveChunk(|event.bytes|, grant);
      }
      if !ready {
        Stop(OutOfMemory, event);
        return false;
      }
      Append(event, before);
      return true;
    }

    /** Write an event that has room into the last chunk and the columns. */
    method Append(event: Event, ghost before: seq<Chunk>)
      requires Retained(offered, events, budgetBytes, stopped) && stopped.None?
      requires Cost(events + [event]) <= budgetBytes
      requires RowsMatch(events, columns) && SlicesMatch(events, places, slices)
      requires Packed(events, places, before, chunkBytes) && Roomy(before, chunks) && Fitted(chunks)
      requires Thrifty(events, places) && BegunWhenFull(before, chunks, |event.bytes|)
      requires HasRoom(chunks, |event.bytes|) && Spacious(chunks)
      modifies this
      ensures Valid() && offered == old(offered) + [event] && events == old(events) + [event] && stopped.None?
    {
      var place := WriteBytes(event.bytes, event, before);
      OneMoreRetained(offered, events, budgetBytes, event);
      RowAdded(events, event, columns);
      columns := RowPushed(columns, event);
      SliceAdded(events, places[..|events|], event, place, slices);
      slices := SlicePushed(slices, event, place);
      events, offered := events + [event], offered + [event];
    }

    method WriteBytes(bytes: seq<byte>, ghost event: Event, ghost before: seq<Chunk>) returns (place: Place)
      requires bytes == event.bytes
      requires Packed(events, places, before, chunkBytes) && Roomy(before, chunks) && Fitted(chunks)
      requires Thrifty(events, places) && BegunWhenFull(before, chunks, |bytes|)
      requires HasRoom(chunks, |bytes|) && Spacious(chunks)
      modifies this`chunks, this`chunkBytes, this`places
      ensures places == old(places) + [place] && place.chunk == |chunks| - 1
      ensures Packed(events + [event], places, chunks, chunkBytes) && Fitted(chunks)
      ensures Thrifty(events + [event], places) && Spacious(chunks)
    {
      place := Place(|chunks| - 1, |chunks[|chunks| - 1].data|);
      WrittenPacks(events, places, before, chunks, chunkBytes, event);
      WrittenIsThrifty(events, places, before, chunks, event);
      WrittenFits(chunks, bytes);
      chunks := Written(chunks, bytes);
      chunkBytes := chunkBytes + |bytes|;
      places := places + [place];
    }

    /** Retain nothing from here on. */
    method Stop(reason: StoppedBecause, ghost refused: Event)
      requires Valid() && stopped.None?
      requires reason == Budget ==> Cost(events + [refused]) > budgetBytes
      modifies this`stopped, this`chunks, this`offered
      ensures Valid() && stopped == Some(reason) && offered == old(offered) + [refused]
    {
      stopped := Some(reason);
      if chunks != [] {
        ghost var before := chunks;
        ShrinkLast();
        ShrunkPacks(events, places, before, chunks, chunkBytes);
      }
      RefusedRetained(offered, events, budgetBytes, reason, refused);
      offered := offered + [refused];
    }

    /** Give back what the last chunk does not use. */
    method ShrinkLast()
      requires chunks != []
      modifies this`chunks
      ensures |chunks| == |old(chunks)|
      ensures forall c | 0 <= c < |chunks| :: chunks[c].data == old(chunks)[c].data
      ensures Fitted(old(chunks)) ==> Fitted(chunks)
    {
      var last := chunks[|chunks| - 1];
      chunks := chunks[|chunks| - 1 := last.(capacity := |last.data|)];
    }

    /** End with room in the last chunk, or report that none was granted. */
    method ReserveChunk(needed: nat, grant: Option<nat>) returns (ready: bool)
      requires Fitted(chunks) && Spacious(chunks)
      modifies this`chunks
      ensures ready <==> HasRoom(old(chunks), needed) || grant.Some?
      ensures !ready ==> chunks == old(chunks)
      ensures ready ==> Roomy(old(chunks), chunks) && HasRoom(chunks, needed)
      ensures HasRoom(old(chunks), needed) ==> chunks == old(chunks)
      ensures ready && !HasRoom(old(chunks), needed) ==>
                && |chunks| == |old(chunks)| + 1
                && chunks[|old(chunks)|].capacity == Max(grant.value, Max(needed, CHUNK_BYTES))
      ensures Fitted(chunks) && Spacious(chunks) && BegunWhenFull(old(chunks), chunks, needed)
    {
      if chunks != [] {
        var last := chunks[|chunks| - 1];
        if last.capacity - |last.data| >= needed {
          return true;
        }
      }
      var capacity := if needed > CHUNK_BYTES then needed else CHUNK_BYTES;
      if grant.None? {
        return false;
      }
      if chunks != [] {
        ShrinkLast();
      }
      chunks := chunks + [Chunk([], if grant.value > capacity then grant.value else capacity)];
      return true;
    }

    /** Every kept event's columns read back as they were offered. */
    function Row(index: nat): (row: Option<EventRow>)
      requires Valid()
      reads this
      ensures row == if index < |events|
                     then (var e := events[index]; Some(EventRow(index, e.timestamp, e.kind, e.peer, e.flags, e.size)))
                     else None
    {
      assert index < |events| ==> RowMatches(events[index], columns, index);
      if index < |columns.timestamp|
      then Some(EventRow(index, columns.timestamp[index], columns.kind[index], columns.peer[index],
                         columns.flags[index], columns.size[index]))
      else None
    }

    /** Every kept event's bytes read back as they were offered exactly when they
        lie where the 32-bit columns say; always, then, under a budget of four
        gibibytes. */
    function Bytes(index: nat): (bytes: Option<seq<byte>>)
      requires Valid()
      reads this
      ensures index >= |events| ==> bytes == None
      ensures index < |events| ==>
                (bytes == Some(events[index].bytes) <==> LiesWhereCut(chunks, places[index], events[index].bytes))
      ensures index < |events| && |events[index].bytes| >= WORD ==> bytes != Some(events[index].bytes)
      ensures index < |events| && budgetBytes < WORD + BYTES_PER_EVENT ==> bytes == Some(events[index].bytes)
    {
      SlicedBack(events, places, chunks, slices, index);
      assert index < |events| && budgetBytes < WORD + BYTES_PER_EVENT
          ==> LiesWhereCut(chunks, places[index], events[index].bytes) by {
        if index < |events| && budgetBytes < WORD + BYTES_PER_EVENT {
          BudgetKeepsNarrow(index);
          NarrowLies(events, places, chunks, index);
        }
      }
      Sliced(chunks, slices, index)
    }

    /** A new chunk was begun for a payload only where the payload would have taken
        the last one past four mebibytes. */
    lemma ChunksAreUsedUp(index: nat)
      requires Valid() && 0 < index < |events| && places[index].chunk != places[index - 1].chunk
      ensures places[index].chunk == places[index - 1].chunk + 1
      ensures places[index - 1].offset + |events[index - 1].bytes| + |events[index].bytes| > 4 * 1024 * 1024
    {
      assert UsedUp(events, places, index) && Continues(events, places, chunks, index);
    }

    /** A budget of four gibibytes never outgrows the columns. */
    lemma BudgetKeepsNarrow(index: nat)
      requires Valid() && index < |events| && budgetBytes < WORD + BYTES_PER_EVENT
      ensures Narrow(places[index], events[index])
    {
      CostCountsBytes(events);
      assert Holds(chunks, places[index], events[index].bytes);
      ChunkIsWithin(chunks, places[index].chunk);
      PlacesStayLow(events, places, chunks, index);
    }

    /** A payload at a place the columns can name comes back without its last
        whole multiple of four gibibytes. */
    lemma LongPayloadComesBackCut(index: nat)
      requires Valid() && index < |events| && places[index].chunk < WORD && places[index].offset < WORD
      ensures Bytes(index) == Some(events[index].bytes[..|events[index].bytes| % WORD])
    {
      SlicedCut(events, places, chunks, slices, index);
    }
  }

  /** A store that keeps a payload of four gibibytes or more, and cannot give it
      back. */
  method KeepAndLose(event: Event) returns (store: EventStore)
    requires |event.bytes| >= WORD
    ensures fresh(store) && store.Valid() && store.events == [event] && store.stopped == None
    ensures store.Bytes(0) == Some(event.bytes[..|event.bytes| % WORD]) && store.Bytes(0) != Some(event.bytes)
  {
    store := new EventStore(|event.bytes| + BYTES_PER_EVENT);
    var kept := store.Push(event, true, Some(0));
    store.LongPayloadComesBackCut(0);
  }

  lemma ShrunkPacks(events: seq<Event>, places: seq<Place>, before: seq<Chunk>, after: seq<Chunk>, chunkBytes: nat)
    requires Packed(events, places, before, chunkBytes)
    requires |before| == |after| && forall c | 0 <= c < |before| :: after[c].data == before[c].data
    ensures Packed(events, places, after, chunkBytes)
  {
    JoinedByData(before, after);
    SameDataTiles(events, places, before, after);
  }

  lemma SameDataTiles(events: seq<Event>, places: seq<Place>, before: seq<Chunk>, after: seq<Chunk>)
    requires Tiled(events, places, before)
    requires |before| == |after| && forall c | 0 <= c < |before| :: after[c].data == before[c].data
    ensures Tiled(events, places, after)
  {
    forall i | 0 <= i < |events| ensures Holds(after, places[i], events[i].bytes) {
      assert Holds(before, places[i], events[i].bytes);
    }
    forall i | 0 < i < |events| ensures Continues(events, places, after, i) {
      assert Continues(events, places, before, i);
    }
  }
}
