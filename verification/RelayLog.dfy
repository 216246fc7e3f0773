/** The log of a relay scorecard: what each announcement and delivery counted as,
    and the records such a log adds up to. */
module RelayLog {
  import opened Basics
  import opened Latency

  const MAX_ITEMS := 2_000_000
  const U16_MAX := 0xFFFF

  datatype Item = Item(firstMs: nat, announcements: nat, deliveries: nat)

  datatype PeerRelay = PeerRelay(
    first: nat, late: nat, lag: Sketch, delivered: nat, duplicate: nat, duplicateBytes: nat, heardToHeld: Sketch)

  function Nothing(): PeerRelay {
    PeerRelay(0, 0, Empty(), 0, 0, 0, Empty())
  }

  datatype InventoryItem =
    | TransactionItem(hash: seq<byte>) | Wtx(hash: seq<byte>) | WitnessTransaction(hash: seq<byte>)
    | Elsewhere // blocks, compact blocks, unknown and missing items

  /** The number in the first bytes of a hash, the least significant first. */
  function LittleEndian(bytes: seq<byte>): nat {
    if bytes == [] then 0 else bytes[0] + 256 * LittleEndian(bytes[1..])
  }

  /** What an item is filed under; hashes shorter than eight bytes file nowhere. */
  function Prefix(hash: seq<byte>): Option<nat> {
    if |hash| < 8 then None else Some(LittleEndian(hash[..8]))
  }

  /** Two hashes are filed alike exactly when their first eight bytes are. */
  lemma {:induction false} FiledAlikeExactlyWhenAlike(a: seq<byte>, b: seq<byte>)
    requires |a| == |b|
    ensures LittleEndian(a) == LittleEndian(b) <==> a == b
  {
    if a != [] {
      FiledAlikeExactlyWhenAlike(a[1..], b[1..]);
      assert a == [a[0]] + a[1..] && b == [b[0]] + b[1..];
    }
  }

  function TransactionHash(item: InventoryItem): Option<nat> {
    if item.Elsewhere? then None else Prefix(item.hash)
  }

  // --------------------------------------------------------------------- log

  /** What one announcement or delivery counted as. */
  datatype Entry =
    | First(peer: nat)
    | Late(peer: nat, lagMs: nat)
    | Held(peer: nat, waitMs: Option<nat>) // the first delivery; timed if it had been announced
    | Again(peer: nat, size: nat)          // a delivery of something already delivered

  /** What a log adds up to, sample by sample. */
  datatype Sums = Sums(firsts: nat, helds: nat, agains: nat, againBytes: nat, lags: seq<nat>, waits: seq<nat>)

  function Noted(s: Sums, entry: Entry): Sums {
    match entry
    case First(_) => s.(firsts := s.firsts + 1)
    case Late(_, lagMs) => s.(lags := s.lags + [lagMs])
    case Held(_, None) => s.(helds := s.helds + 1)
    case Held(_, Some(waitMs)) => s.(helds := s.helds + 1, waits := s.waits + [waitMs])
    case Again(_, size) => s.(agains := s.agains + 1, againBytes := s.againBytes + size)
  }

  function SumsOf(log: seq<Entry>): Sums {
    if log == [] then Sums(0, 0, 0, 0, [], []) else Noted(SumsOf(log[..|log| - 1]), log[|log| - 1])
  }

  function Summary(s: Sums): PeerRelay {
    PeerRelay(s.firsts, |s.lags|, Gathered(s.lags), s.helds + s.agains, s.agains, s.againBytes, Gathered(s.waits))
  }

  /** A record with one more entry counted into it. */
  function Told(r: PeerRelay, entry: Entry): PeerRelay {
    match entry
    case First(_) => r.(first := r.first + 1)
    case Late(_, lagMs) => r.(late := r.late + 1, lag := Added(r.lag, lagMs))
    case Held(_, waitMs) =>
      r.(delivered := r.delivered + 1,
         heardToHeld := if waitMs.Some? then Added(r.heardToHeld, waitMs.value) else r.heardToHeld)
    case Again(_, size) =>
      r.(delivered := r.delivered + 1, duplicate := r.duplicate + 1, duplicateBytes := r.duplicateBytes + size)
  }

  /** The record a log of entries amounts to. */
  function Tally(log: seq<Entry>): PeerRelay {
    if log == [] then Nothing() else Told(Tally(log[..|log| - 1]), log[|log| - 1])
  }

  lemma TallyOneMore(log: seq<Entry>, entry: Entry)
    ensures Tally(log + [entry]) == Told(Tally(log), entry)
  {
    assert (log + [entry])[..|log|] == log;
  }

  lemma GatheredOneMore(samples: seq<nat>, x: nat)
    ensures Gathered(samples + [x]) == Added(Gathered(samples), x)
  {
    assert (samples + [x])[..|samples|] == samples;
  }

  lemma LateIsTold(s: Sums, peer: nat, lagMs: nat)
    ensures Summary(Noted(s, Late(peer, lagMs))) == Told(Summary(s), Late(peer, lagMs))
  {
    GatheredOneMore(s.lags, lagMs);
  }

  lemma HeldIsTold(s: Sums, peer: nat, waitMs: nat)
    ensures Summary(Noted(s, Held(peer, Some(waitMs)))) == Told(Summary(s), Held(peer, Some(waitMs)))
  {
    GatheredOneMore(s.waits, waitMs);
  }

  lemma NotedIsTold(s: Sums, entry: Entry)
    ensures Summary(Noted(s, entry)) == Told(Summary(s), entry)
  {
    match entry
    case Late(peer, lagMs) => LateIsTold(s, peer, lagMs);
    case Held(peer, Some(waitMs)) => HeldIsTold(s, peer, waitMs);
    case _ =>
  }

  /** Counting entries one by one is adding up the samples of them all. */
  lemma {:induction false} TallyIsSummary(log: seq<Entry>)
    ensures Tally(log) == Summary(SumsOf(log))
  {
    if log != [] {
      TallyIsSummary(log[..|log| - 1]);
      NotedIsTold(SumsOf(log[..|log| - 1]), log[|log| - 1]);
    }
  }

  function Of(log: seq<Entry>, peers: set<nat>): seq<Entry> {
    if log == [] then []
    else
      var rest := Of(log[..|log| - 1], peers);
      if log[|log| - 1].peer in peers then rest + [log[|log| - 1]] else rest
  }

  lemma OfOneMore(log: seq<Entry>, entry: Entry, peers: set<nat>)
    ensures Of(log + [entry], peers) == if entry.peer in peers then Of(log, peers) + [entry] else Of(log, peers)
  {
    assert (log + [entry])[..|log|] == log;
  }

  function MergedPeers(a: PeerRelay, b: PeerRelay): PeerRelay {
    PeerRelay(a.first + b.first, a.late + b.late, Merged(a.lag, b.lag), a.delivered + b.delivered,
              a.duplicate + b.duplicate, a.duplicateBytes + b.duplicateBytes, Merged(a.heardToHeld, b.heardToHeld))
  }

  ghost predicate AddsUp(both: Sums, a: Sums, b: Sums) {
    && both.firsts == a.firsts + b.firsts && both.helds == a.helds + b.helds
    && both.agains == a.agains + b.agains && both.againBytes == a.againBytes + b.againBytes
    && multiset(both.lags) == multiset(a.lags) + multiset(b.lags)
    && multiset(both.waits) == multiset(a.waits) + multiset(b.waits)
  }

  lemma Appended(s: seq<nat>, x: nat)
    ensures multiset(s + [x]) == multiset(s) + multiset{x}
  {
  }

  lemma NotedAddsUp(both: Sums, a: Sums, b: Sums, entry: Entry)
    requires AddsUp(both, a, b)
    ensures AddsUp(Noted(both, entry), Noted(a, entry), b) && AddsUp(Noted(both, entry), a, Noted(b, entry))
  {
    match entry
    case Late(_, lagMs) =>
      Appended(both.lags, lagMs);
      Appended(a.lags, lagMs);
      Appended(b.lags, lagMs);
    case Held(_, Some(waitMs)) =>
      Appended(both.waits, waitMs);
      Appended(a.waits, waitMs);
      Appended(b.waits, waitMs);
    case _ =>
  }

  function SumsFor(log: seq<Entry>, peers: set<nat>): Sums {
    SumsOf(Of(log, peers))
  }

  function NotedIf(s: Sums, entry: Entry, mine: bool): Sums {
    if mine then Noted(s, entry) else s
  }

  lemma SumsForLast(log: seq<Entry>, peers: set<nat>)
    requires log != []
    ensures var last := log[|log| - 1];
            SumsFor(log, peers) == NotedIf(SumsFor(log[..|log| - 1], peers), last, last.peer in peers)
  {
    var front, last := Of(log[..|log| - 1], peers), log[|log| - 1];
    assert (front + [last])[..|front|] == front;
  }

  lemma NotedOnEitherSide(both: Sums, a: Sums, b: Sums, entry: Entry, left: bool, right: bool)
    requires AddsUp(both, a, b) && !(left && right)
    ensures AddsUp(NotedIf(both, entry, left || right), NotedIf(a, entry, left), NotedIf(b, entry, right))
  {
    NotedAddsUp(both, a, b, entry);
  }

  lemma SplitOneMore(entry: Entry, a: set<nat>, b: set<nat>, both: Sums, one: Sums, two: Sums)
    requires a !! b && AddsUp(both, one, two)
    ensures AddsUp(NotedIf(both, entry, entry.peer in a + b),
                   NotedIf(one, entry, entry.peer in a), NotedIf(two, entry, entry.peer in b))
  {
    NotedOnEitherSide(both, one, two, entry, entry.peer in a, entry.peer in b);
    assert entry.peer in a + b <==> entry.peer in a || entry.peer in b;
  }

  /** Splitting a log between two groups of peers splits what it adds up to. */
  lemma {:induction false} SplitLog(log: seq<Entry>, a: set<nat>, b: set<nat>, both: Sums, one: Sums, two: Sums)
    requires a !! b
    requires both == SumsFor(log, a + b) && one == SumsFor(log, a) && two == SumsFor(log, b)
    ensures AddsUp(both, one, two)
  {
    if log != [] {
      var front, last := log[..|log| - 1], log[|log| - 1];
      SumsForLast(log, a + b);
      SumsForLast(log, a);
      SumsForLast(log, b);
      SplitLog(front, a, b, SumsFor(front, a + b), SumsFor(front, a), SumsFor(front, b));
      SplitOneMore(last, a, b, SumsFor(front, a + b), SumsFor(front, a), SumsFor(front, b));
    }
  }

  lemma SameLength(s: seq<nat>, t: seq<nat>)
    requires multiset(s) == multiset(t)
    ensures |s| == |t|
  {
    assert |multiset(s)| == |s| && |multiset(t)| == |t|;
  }

  /** Samples split in two gather to the merge of what each part gathers to. */
  lemma {:induction false} MergedGathers(both: seq<nat>, a: seq<nat>, b: seq<nat>)
    requires multiset(both) == multiset(a) + multiset(b)
    ensures Gathered(both) == Merged(Gathered(a), Gathered(b)) && |both| == |a| + |b|
  {
    SameLength(both, a + b);
    OrderDoesNotMatter(both, a + b);
    GatheredIsSketch(both);
    MergedIsSketch(a, b);
    GatheredIsSketch(a);
    GatheredIsSketch(b);
  }

  lemma AddedUpSummary(both: Sums, a: Sums, b: Sums)
    requires AddsUp(both, a, b)
    ensures Summary(both) == MergedPeers(Summary(a), Summary(b))
  {
    MergedGathers(both.lags, a.lags, b.lags);
    MergedGathers(both.waits, a.waits, b.waits);
  }

  lemma SplitTally(log: seq<Entry>, a: set<nat>, b: set<nat>)
    requires a !! b
    ensures Tally(Of(log, a + b)) == MergedPeers(Tally(Of(log, a)), Tally(Of(log, b)))
  {
    SplitLog(log, a, b, SumsFor(log, a + b), SumsFor(log, a), SumsFor(log, b));
    AddedUpSummary(SumsFor(log, a + b), SumsFor(log, a), SumsFor(log, b));
    TallyIsSummary(Of(log, a + b));
    TallyIsSummary(Of(log, a));
    TallyIsSummary(Of(log, b));
  }

  lemma {:induction false} OfEveryone(log: seq<Entry>, peers: set<nat>)
    requires forall i | 0 <= i < |log| :: log[i].peer in peers
    ensures Of(log, peers) == log
  {
    if log != [] {
      OfEveryone(log[..|log| - 1], peers);
    }
  }

  lemma {:induction false} OfNoOne(log: seq<Entry>, peers: set<nat>)
    requires forall i | 0 <= i < |log| :: log[i].peer !in peers
    ensures Of(log, peers) == []
  {
    if log != [] {
      OfNoOne(log[..|log| - 1], peers);
    }
  }
}
