/** The relay scorecard over a whole archive: every announcement and delivery is
    counted once, and the running totals are those of the peers together. */
module Scorecard {
  import opened Basics
  import opened Latency
  import opened RelayLog

  /** `log` and `lostDeliveries` are kept for the proofs alone: what each message
      counted as, and the deliveries the cap left untracked. */
  datatype State = State(
    items: map<nat, Item>, origin: Option<nat>, peers: map<nat, PeerRelay>,
    announcements: nat, deliveries: nat, duplicateDeliveries: nat, deliveredBytes: nat, duplicateBytes: nat,
    lateAnnouncements: nat, untracked: nat, lag: Sketch, heardToHeld: Sketch,
    log: seq<Entry>, lostDeliveries: nat)

  /** Before any message. */
  predicate Fresh(st: State) {
    && |st.items| == 0 && st.origin.None? && |st.peers| == 0
    && st.announcements == st.deliveries == st.duplicateDeliveries == st.deliveredBytes == st.duplicateBytes == 0
    && st.lateAnnouncements == st.untracked == st.lostDeliveries == 0
    && st.lag == st.heardToHeld == Empty() && |st.log| == 0
  }

  function PeerIn(peers: map<nat, PeerRelay>, p: nat): PeerRelay {
    if p in peers then peers[p] else Nothing()
  }

  /** The peers with one entry credited to its own. */
  function Credited(peers: map<nat, PeerRelay>, entry: Entry): map<nat, PeerRelay> {
    peers[entry.peer := Told(PeerIn(peers, entry.peer), entry)]
  }

  // ------------------------------------------------------------- the messages

  /** Milliseconds since the first message, saturating at what 32 bits hold. */
  function Offset(origin: nat, timestamp: nat): nat {
    Min(Elapsed(timestamp, origin), U32_MAX)
  }

  function Anchored(st: State, timestamp: nat): State {
    if st.origin.Some? then st else st.(origin := Some(timestamp))
  }

  function AnnounceOne(st: State, now: nat, peer: nat, hash: nat): State {
    if hash in st.items then
      var item := st.items[hash];
      var entry := Late(peer, Elapsed(now, item.firstMs));
      st.(announcements := st.announcements + 1,
          items := st.items[hash := item.(announcements := Min(item.announcements + 1, U16_MAX))],
          lateAnnouncements := st.lateAnnouncements + 1,
          lag := Added(st.lag, entry.lagMs),
          peers := Credited(st.peers, entry), log := st.log + [entry])
    else if |st.items| >= MAX_ITEMS then
      st.(announcements := st.announcements + 1, untracked := st.untracked + 1)
    else
      st.(announcements := st.announcements + 1,
          items := st.items[hash := Item(now, 1, 0)],
          peers := Credited(st.peers, First(peer)), log := st.log + [First(peer)])
  }

  function AnnounceAll(st: State, now: nat, peer: nat, items: seq<InventoryItem>): State {
    if items == [] then st
    else
      var before := AnnounceAll(st, now, peer, items[..|items| - 1]);
      match TransactionHash(items[|items| - 1])
      case None => before
      case Some(hash) => AnnounceOne(before, now, peer, hash)
  }

  function Announce(st: State, timestamp: nat, peer: nat, items: seq<InventoryItem>): State {
    var anchored := Anchored(st, timestamp);
    AnnounceAll(anchored, Offset(anchored.origin.value, timestamp), peer, items)
  }

  /** A delivery is filed under whichever of its hashes is known, the first if
      neither is. */
  function KeyOf(items: map<nat, Item>, byTxid: nat, byWtxid: Option<nat>): nat {
    if byTxid in items then byTxid
    else if byWtxid.Some? && byWtxid.value in items then byWtxid.value
    else byTxid
  }

  /** A delivery of something already delivered is a duplicate; a first one is
      timed if it had been announced. */
  function DeliveryOf(item: Item, now: nat, peer: nat, size: nat): Entry {
    if item.deliveries > 0 then Again(peer, size)
    else if item.announcements > 0 then Held(peer, Some(Elapsed(now, item.firstMs)))
    else Held(peer, None)
  }

  function DeliverKey(st: State, now: nat, peer: nat, key: nat, size: nat): State {
    if key in st.items then
      var item := st.items[key];
      var entry := DeliveryOf(item, now, peer, size);
      st.(deliveries := st.deliveries + 1, deliveredBytes := st.deliveredBytes + size,
          items := st.items[key := item.(deliveries := Min(item.deliveries + 1, U16_MAX))],
          duplicateDeliveries := st.duplicateDeliveries + if entry.Again? then 1 else 0,
          duplicateBytes := st.duplicateBytes + if entry.Again? then size else 0,
          heardToHeld := if entry.Held? && entry.waitMs.Some?
                         then Added(st.heardToHeld, entry.waitMs.value) else st.heardToHeld,
          peers := Credited(st.peers, entry), log := st.log + [entry])
    else if |st.items| >= MAX_ITEMS then
      st.(deliveries := st.deliveries + 1, deliveredBytes := st.deliveredBytes + size,
          untracked := st.untracked + 1, lostDeliveries := st.lostDeliveries + 1)
    else
      st.(deliveries := st.deliveries + 1, deliveredBytes := st.deliveredBytes + size,
          items := st.items[key := Item(now, 0, 1)],
          peers := Credited(st.peers, Held(peer, None)), log := st.log + [Held(peer, None)])
  }

  /** A transaction without its hash says nothing about relay. */
  function Deliver(st: State, timestamp: nat, peer: nat, txid: seq<byte>, wtxid: seq<byte>, size: nat): State {
    match Prefix(txid)
    case None => st
    case Some(byTxid) =>
      var anchored := Anchored(st, timestamp);
      DeliverKey(anchored, Offset(anchored.origin.value, timestamp), peer, KeyOf(st.items, byTxid, Prefix(wtxid)), size)
  }

  datatype Msg = Inv(items: seq<InventoryItem>) | Tx(txid: seq<byte>, wtxid: seq<byte>, size: nat) | Other

  datatype Heard = Heard(timestamp: nat, peer: nat, inbound: bool, msg: Msg)

  /** Outbound messages change nothing. */
  function Record(st: State, heard: Heard): State {
    if !heard.inbound then st
    else
      match heard.msg
      case Inv(items) => Announce(st, heard.timestamp, heard.peer, items)
      case Tx(txid, wtxid, size) => Deliver(st, heard.timestamp, heard.peer, txid, wtxid, size)
      case Other => st
  }

  /** The state after a run of messages. */
  function Run(st: State, messages: seq<Heard>): State {
    if messages == [] then st else Record(Run(st, messages[..|messages| - 1]), messages[|messages| - 1])
  }

  // ------------------------------------------------------------- conservation

  function HeldItems(items: map<nat, Item>): set<nat> {
    set k | k in items && items[k].deliveries > 0
  }

  function TallyFor(log: seq<Entry>, peer: nat): PeerRelay {
    Tally(Of(log, {peer}))
  }

  /** Each peer's record is what its own entries amount to. */
  ghost predicate PeersAgree(st: State) {
    && (forall p {:trigger st.peers[p]} | p in st.peers :: st.peers[p] == TallyFor(st.log, p))
    && (forall i | 0 <= i < |st.log| :: st.log[i].peer in st.peers)
  }

  /** The running figures are those of `total`, and nothing is missed. */
  ghost predicate FiguresAgree(st: State, total: PeerRelay) {
    && st.announcements + st.deliveries == total.first + total.late + total.delivered + st.untracked
    && st.lag == total.lag && st.heardToHeld == total.heardToHeld
    && st.lateAnnouncements == total.late == st.lag.count
    && st.duplicateDeliveries == total.duplicate && st.duplicateBytes == total.duplicateBytes
    && st.deliveries == total.delivered + st.lostDeliveries
    && st.lostDeliveries <= st.untracked
    && |HeldItems(st.items)| + total.duplicate == total.delivered
  }

  ghost predicate Agrees(st: State) {
    PeersAgree(st) && FiguresAgree(st, Tally(st.log))
  }

  lemma NothingIsEmpty(log: seq<Entry>)
    requires |log| == 0
    ensures Tally(log) == Nothing()
  {
  }

  lemma CreditedAgrees(st: State, after: State, entry: Entry)
    requires PeersAgree(st)
    requires after.peers == Credited(st.peers, entry) && after.log == st.log + [entry]
    ensures PeersAgree(after)
    ensures Tally(after.log) == Told(Tally(st.log), entry)
  {
    TallyOneMore(st.log, entry);
    forall p | p in after.peers ensures after.peers[p] == TallyFor(after.log, p) {
      TallyForOneMore(st, entry, p);
    }
  }

  lemma TallyForOneMore(st: State, entry: Entry, p: nat)
    requires PeersAgree(st)
    ensures TallyFor(st.log + [entry], p)
            == if p == entry.peer then Told(PeerIn(st.peers, p), entry) else TallyFor(st.log, p)
  {
    OfOneMore(st.log, entry, {p});
    if p == entry.peer {
      TallyOneMore(Of(st.log, {p}), entry);
      if p !in st.peers {
        OfNoOne(st.log, {p});
        NothingIsEmpty(Of(st.log, {p}));
      }
    }
  }

  /** The entry one announcement counts as, unless the table is full. */
  function AnnounceEntry(st: State, now: nat, peer: nat, hash: nat): Option<Entry> {
    if hash in st.items then Some(Late(peer, Elapsed(now, st.items[hash].firstMs)))
    else if |st.items| >= MAX_ITEMS then None
    else Some(First(peer))
  }

  function DeliverEntry(st: State, now: nat, peer: nat, key: nat, size: nat): Option<Entry> {
    if key in st.items then Some(DeliveryOf(st.items[key], now, peer, size))
    else if |st.items| >= MAX_ITEMS then None
    else Some(Held(peer, None))
  }

  function ToldIf(total: PeerRelay, entry: Option<Entry>): PeerRelay {
    if entry.Some? then Told(total, entry.value) else total
  }

  lemma AnnounceFigures(st: State, total: PeerRelay, now: nat, peer: nat, hash: nat)
    requires FiguresAgree(st, total)
    ensures FiguresAgree(AnnounceOne(st, now, peer, hash), ToldIf(total, AnnounceEntry(st, now, peer, hash)))
  {
    if hash in st.items {
      KeepsHeld(st.items, hash, AnnounceOne(st, now, peer, hash).items[hash]);
    } else if |st.items| < MAX_ITEMS {
      KeepsHeld(st.items, hash, Item(now, 1, 0));
    }
  }

  /** An announcement makes no item held that was not. */
  lemma KeepsHeld(items: map<nat, Item>, key: nat, item: Item)
    requires key in items ==> item.deliveries == items[key].deliveries
    requires key !in items ==> item.deliveries == 0
    ensures HeldItems(items[key := item]) == HeldItems(items)
  {
  }

  /** A delivery makes its item held, if it was not before. */
  lemma NowHeld(items: map<nat, Item>, key: nat, item: Item)
    requires item.deliveries > 0
    ensures |HeldItems(items[key := item])|
            == |HeldItems(items)| + if key in items && items[key].deliveries > 0 then 0 else 1
  {
    assert HeldItems(items[key := item]) == HeldItems(items) + {key};
    if key in HeldItems(items) {
      assert HeldItems(items) + {key} == HeldItems(items);
    }
  }

  lemma DeliverFigures(st: State, total: PeerRelay, now: nat, peer: nat, key: nat, size: nat)
    requires FiguresAgree(st, total)
    ensures FiguresAgree(DeliverKey(st, now, peer, key, size), ToldIf(total, DeliverEntry(st, now, peer, key, size)))
  {
    var after := DeliverKey(st, now, peer, key, size);
    if DeliverEntry(st, now, peer, key, size).Some? {
      NowHeld(st.items, key, after.items[key]);
    }
  }

  /** `after` has one entry, if any, credited and logged. */
  ghost predicate Steps(st: State, after: State, entry: Option<Entry>) {
    match entry
    case None => after.log == st.log && after.peers == st.peers
    case Some(e) => after.log == st.log + [e] && after.peers == Credited(st.peers, e)
  }

  /** A step that credits `entry`, if any, and keeps the figures in step agrees. */
  lemma StepAgrees(st: State, after: State, entry: Option<Entry>)
    requires Agrees(st)
    requires Steps(st, after, entry)
    requires FiguresAgree(after, ToldIf(Tally(st.log), entry))
    ensures Agrees(after)
  {
    if entry.Some? {
      CreditedAgrees(st, after, entry.value);
    }
  }

  lemma AnnounceSteps(st: State, now: nat, peer: nat, hash: nat)
    ensures Steps(st, AnnounceOne(st, now, peer, hash), AnnounceEntry(st, now, peer, hash))
  {
  }

  lemma DeliverSteps(st: State, now: nat, peer: nat, key: nat, size: nat)
    ensures Steps(st, DeliverKey(st, now, peer, key, size), DeliverEntry(st, now, peer, key, size))
  {
  }

  lemma AnnounceOneAgrees(st: State, now: nat, peer: nat, hash: nat)
    requires Agrees(st)
    ensures Agrees(AnnounceOne(st, now, peer, hash))
  {
    AnnounceFigures(st, Tally(st.log), now, peer, hash);
    AnnounceSteps(st, now, peer, hash);
    StepAgrees(st, AnnounceOne(st, now, peer, hash), AnnounceEntry(st, now, peer, hash));
  }

  lemma {:induction false} AnnounceAllAgrees(st: State, now: nat, peer: nat, items: seq<InventoryItem>)
    requires Agrees(st)
    ensures Agrees(AnnounceAll(st, now, peer, items))
  {
    if items != [] {
      var before := AnnounceAll(st, now, peer, items[..|items| - 1]);
      AnnounceAllAgrees(st, now, peer, items[..|items| - 1]);
      var hash := TransactionHash(items[|items| - 1]);
      if hash.Some? {
        AnnounceOneAgrees(before, now, peer, hash.value);
      }
    }
  }

  lemma DeliverKeyAgrees(st: State, now: nat, peer: nat, key: nat, size: nat)
    requires Agrees(st)
    ensures Agrees(DeliverKey(st, now, peer, key, size))
  {
    DeliverFigures(st, Tally(st.log), now, peer, key, size);
    DeliverSteps(st, now, peer, key, size);
    StepAgrees(st, DeliverKey(st, now, peer, key, size), DeliverEntry(st, now, peer, key, size));
  }

  lemma AnchoredAgrees(st: State, timestamp: nat)
    requires Agrees(st)
    ensures Agrees(Anchored(st, timestamp))
  {
    var after := Anchored(st, timestamp);
    assert FiguresAgree(after, ToldIf(Tally(st.log), None));
    StepAgrees(st, after, None);
  }

  lemma AnnounceAgrees(st: State, timestamp: nat, peer: nat, items: seq<InventoryItem>)
    requires Agrees(st)
    ensures Agrees(Announce(st, timestamp, peer, items))
  {
    var anchored := Anchored(st, timestamp);
    AnchoredAgrees(st, timestamp);
    AnnounceAllAgrees(anchored, Offset(anchored.origin.value, timestamp), peer, items);
  }

  lemma DeliverAgrees(st: State, timestamp: nat, peer: nat, txid: seq<byte>, wtxid: seq<byte>, size: nat)
    requires Agrees(st)
    ensures Agrees(Deliver(st, timestamp, peer, txid, wtxid, size))
  {
    if Prefix(txid).Some? {
      var anchored := Anchored(st, timestamp);
      AnchoredAgrees(st, timestamp);
      DeliverKeyAgrees(anchored, Offset(anchored.origin.value, timestamp), peer,
                       KeyOf(st.items, Prefix(txid).value, Prefix(wtxid)), size);
    }
  }

  lemma RecordAgrees(st: State, heard: Heard)
    requires Agrees(st)
    ensures Agrees(Record(st, heard))
  {
    match heard.msg
    case Inv(items) => AnnounceAgrees(st, heard.timestamp, heard.peer, items);
    case Tx(txid, wtxid, size) => DeliverAgrees(st, heard.timestamp, heard.peer, txid, wtxid, size);
    case Other =>
  }

  lemma FreshAgrees(st: State)
    requires Fresh(st)
    ensures Agrees(st)
  {
    NothingIsEmpty(st.log);
    FreshFigures(st, Tally(st.log));
  }

  lemma FreshFigures(st: State, total: PeerRelay)
    requires Fresh(st) && total == Nothing()
    ensures FiguresAgree(st, total)
  {
    assert HeldItems(st.items) == {};
  }

  /** Over every run of messages: every announcement and delivery is counted as
      exactly one thing for one peer, or as untracked; the running sketches are
      those of all entries; and the deliveries that were not duplicates are the
      distinct items held plus those the cap left out -- saturating counters,
      full tables and either hash notwithstanding. */
  lemma {:induction false} RunAgrees(st: State, messages: seq<Heard>)
    requires Fresh(st)
    ensures Agrees(Run(st, messages))
  {
    if messages == [] {
      FreshAgrees(st);
    } else {
      RunAgrees(st, messages[..|messages| - 1]);
      RecordAgrees(Run(st, messages[..|messages| - 1]), messages[|messages| - 1]);
    }
  }

  // ------------------------------------------------------------------- totals

  /** The merge of the records of `order`, from the left. */
  function Folded(peers: map<nat, PeerRelay>, order: seq<nat>): PeerRelay {
    if order == [] then Nothing()
    else MergedPeers(Folded(peers, order[..|order| - 1]), PeerIn(peers, order[|order| - 1]))
  }

  function Among(order: seq<nat>): set<nat> {
    set p | p in order
  }

  lemma {:induction false} FoldedIsTally(peers: map<nat, PeerRelay>, log: seq<Entry>, order: seq<nat>, all: set<nat>)
    requires forall i | 0 <= i < |order| :: order[i] in peers && peers[order[i]] == TallyFor(log, order[i])
    requires forall i, j | 0 <= i < j < |order| :: order[i] != order[j]
    requires all == Among(order)
    ensures Folded(peers, order) == Tally(Of(log, all))
  {
    if order == [] {
      assert all == {};
      OfNoOne(log, all);
      NothingIsEmpty(Of(log, all));
    } else {
      var front, last := order[..|order| - 1], order[|order| - 1];
      var rest := Among(front);
      FoldedIsTally(peers, log, front, rest);
      assert order == front + [last] && last !in front;
      assert all == rest + {last};
      SplitTally(log, rest, {last});
    }
  }

  lemma AgreeingPeersAddUp(st: State, order: seq<nat>)
    requires Agrees(st)
    requires forall i, j | 0 <= i < j < |order| :: order[i] != order[j]
    requires Among(order) == st.peers.Keys
    ensures FiguresAgree(st, Folded(st.peers, order))
  {
    forall i | 0 <= i < |order| ensures order[i] in st.peers && st.peers[order[i]] == TallyFor(st.log, order[i]) {
      assert order[i] in Among(order);
    }
    FoldedIsTally(st.peers, st.log, order, Among(order));
    OfEveryone(st.log, Among(order));
  }

  /** In whatever order the map gives its peers, their records add up to the
      running figures: the sketches equal in buckets, count, total and extremes,
      saturated or not. */
  lemma PeersAddUp(start: State, messages: seq<Heard>, order: seq<nat>)
    requires Fresh(start)
    requires forall i, j | 0 <= i < j < |order| :: order[i] != order[j]
    requires Among(order) == Run(start, messages).peers.Keys
    ensures FiguresAgree(Run(start, messages), Folded(Run(start, messages).peers, order))
  {
    RunAgrees(start, messages);
    AgreeingPeersAddUp(Run(start, messages), order);
  }

  /** Deliveries per delivery that was no duplicate. */
  function DuplicateFactor(st: State): Option<real> {
    if st.deliveries < st.duplicateDeliveries then None
    else
      var distinct := st.deliveries - st.duplicateDeliveries;
      if distinct > 0 then Some(st.deliveries as real / distinct as real) else None
  }

  /** The factor is over the distinct items held and the deliveries the cap left
      out; its subtraction never runs short. */
  lemma FactorIsPerDistinctDelivery(start: State, messages: seq<Heard>)
    requires Fresh(start)
    ensures var st := Run(start, messages); var distinct := |HeldItems(st.items)| + st.lostDeliveries;
            && st.deliveries == st.duplicateDeliveries + distinct
            && DuplicateFactor(st) == if distinct > 0 then Some(st.deliveries as real / distinct as real) else None
  {
    RunAgrees(start, messages);
  }
}
