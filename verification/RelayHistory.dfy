/** The relay scorecard told from the messages alone: what each announcement and
    delivery was filed under, and what that made it. No table, no counters. */
module RelayHistory {
  import opened Basics
  import opened RelayLog
  import S = Scorecard

  /** One announcement, or one delivery, with the hashes it goes by. */
  datatype Mark =
    | Announced(peer: nat, now: nat, key: nat)
    | Delivered(peer: nat, now: nat, byTxid: nat, byWtxid: Option<nat>, size: nat)

  // ---------------------------------------------------------- from the messages

  /** Inbound inventories, and inbound transactions that carry a hash. */
  predicate Speaks(heard: S.Heard) {
    heard.inbound && (heard.msg.Inv? || (heard.msg.Tx? && |heard.msg.txid| >= 8))
  }

  /** The time of the first message that speaks of relay. */
  function Origin(messages: seq<S.Heard>): Option<nat> {
    if messages == [] then None
    else
      var earlier, last := Origin(messages[..|messages| - 1]), messages[|messages| - 1];
      if earlier.None? && Speaks(last) then Some(last.timestamp) else earlier
  }

  /** Milliseconds since then, as many as 32 bits hold. */
  function Since(origin: Option<nat>, timestamp: nat): nat {
    match origin
    case None => 0
    case Some(first) => if timestamp < first then 0 else Min(timestamp - first, U32_MAX)
  }

  /** Announcements of transactions, each under the first eight bytes of its hash. */
  function InventoryMarks(peer: nat, now: nat, items: seq<InventoryItem>): seq<Mark> {
    if items == [] then []
    else
      var earlier, last := InventoryMarks(peer, now, items[..|items| - 1]), items[|items| - 1];
      if last.Elsewhere? || |last.hash| < 8 then earlier
      else earlier + [Announced(peer, now, LittleEndian(last.hash[..8]))]
  }

  function MarksOf(messages: seq<S.Heard>): seq<Mark> {
    if messages == [] then []
    else
      var earlier, last := MarksOf(messages[..|messages| - 1]), messages[|messages| - 1];
      var now := Since(Origin(messages), last.timestamp);
      if !Speaks(last) then earlier
      else
        match last.msg
        case Inv(items) => earlier + InventoryMarks(last.peer, now, items)
        case Tx(txid, wtxid, size) =>
          var byWtxid := if |wtxid| < 8 then None else Some(LittleEndian(wtxid[..8]));
          earlier + [Delivered(last.peer, now, LittleEndian(txid[..8]), byWtxid, size)]
        case Other => earlier
  }

  // ------------------------------------------------------------- from the marks

  /** What a mark is filed under: a delivery under its first hash if that is known,
      or else under its second if that is, or else under its first. */
  function Filed(marks: seq<Mark>, mark: Mark): nat
    decreases |marks|, 1
  {
    match mark
    case Announced(_, _, key) => key
    case Delivered(_, _, byTxid, byWtxid, _) =>
      if byTxid in Known(marks) || byWtxid.None? || byWtxid.value !in Known(marks) then byTxid else byWtxid.value
  }

  /** What has been filed, up to the cap. */
  function Known(marks: seq<Mark>): set<nat>
    decreases |marks|, 0
  {
    if marks == [] then {}
    else
      var front := marks[..|marks| - 1];
      if |Known(front)| < MAX_ITEMS then Known(front) + {Filed(front, marks[|marks| - 1])} else Known(front)
  }

  /** When it was first heard of. */
  function FirstHeard(marks: seq<Mark>, key: nat): nat {
    if marks == [] then 0
    else if key in Known(marks[..|marks| - 1]) then FirstHeard(marks[..|marks| - 1], key)
    else marks[|marks| - 1].now
  }

  /** How often it was announced, and delivered, from then on. */
  function Announcements(marks: seq<Mark>, key: nat): nat {
    if marks == [] then 0
    else
      var front, last := marks[..|marks| - 1], marks[|marks| - 1];
      Announcements(front, key)
      + if last.Announced? && Filed(front, last) == key && key in Known(marks) then 1 else 0
  }

  function Deliveries(marks: seq<Mark>, key: nat): nat {
    if marks == [] then 0
    else
      var front, last := marks[..|marks| - 1], marks[|marks| - 1];
      Deliveries(front, key)
      + if last.Delivered? && Filed(front, last) == key && key in Known(marks) then 1 else 0
  }

  /** What a mark counts as: the first announcement of anything wins, others lag
      behind it; the first delivery of anything is timed from when it was first
      heard of, if that was an announcement, and others are duplicates. */
  function EntryOf(marks: seq<Mark>, mark: Mark): Option<Entry> {
    var key := Filed(marks, mark);
    var since := if mark.now < FirstHeard(marks, key) then 0 else mark.now - FirstHeard(marks, key);
    if key !in Known(marks) && |Known(marks)| >= MAX_ITEMS then None
    else
      match mark
      case Announced(peer, _, _) => if key in Known(marks) then Some(Late(peer, since)) else Some(First(peer))
      case Delivered(peer, _, _, _, size) =>
        if Deliveries(marks, key) > 0 then Some(Again(peer, size))
        else if Announcements(marks, key) > 0 then Some(Held(peer, Some(since)))
        else Some(Held(peer, None))
  }

  function Entries(marks: seq<Mark>): seq<Entry> {
    if marks == [] then []
    else
      var front := marks[..|marks| - 1];
      var entry := EntryOf(front, marks[|marks| - 1]);
      if entry.Some? then Entries(front) + [entry.value] else Entries(front)
  }

  /** Deliveries, their bytes, announcements, and what the cap left out. */
  datatype Counts = Counts(announced: nat, delivered: nat, bytes: nat, untracked: nat)

  function CountsOf(marks: seq<Mark>): Counts {
    if marks == [] then Counts(0, 0, 0, 0)
    else
      var front, last := marks[..|marks| - 1], marks[|marks| - 1];
      var c := CountsOf(front);
      var untracked := c.untracked + if Filed(front, last) in Known(marks) then 0 else 1;
      match last
      case Announced(_, _, _) => c.(announced := c.announced + 1, untracked := untracked)
      case Delivered(_, _, _, _, size) =>
        c.(delivered := c.delivered + 1, bytes := c.bytes + size, untracked := untracked)
  }

  // ------------------------------------------------------------------- the state

  ghost predicate ItemTells(marks: seq<Mark>, items: map<nat, Item>, key: nat) {
    if key in Known(marks)
    then key in items
         && items[key] == Item(FirstHeard(marks, key), Min(Announcements(marks, key), U16_MAX),
                               Min(Deliveries(marks, key), U16_MAX))
    else key !in items && Announcements(marks, key) == Deliveries(marks, key) == 0
  }

  ghost predicate ItemsTell(marks: seq<Mark>, items: map<nat, Item>) {
    items.Keys == Known(marks) && forall key: nat :: ItemTells(marks, items, key)
  }

  /** Everything the scorecard holds is what the marks tell. */
  ghost predicate Tells(marks: seq<Mark>, st: S.State) {
    && ItemsTell(marks, st.items)
    && st.log == Entries(marks)
    && CountsOf(marks) == Counts(st.announcements, st.deliveries, st.deliveredBytes, st.untracked)
  }

  /** What the table files a mark under. */
  function FiledIn(st: S.State, mark: Mark): nat {
    match mark
    case Announced(_, _, key) => key
    case Delivered(_, _, byTxid, byWtxid, _) => S.KeyOf(st.items, byTxid, byWtxid)
  }

  /** One mark in the table. */
  function Marked(st: S.State, mark: Mark): S.State {
    match mark
    case Announced(peer, now, key) => S.AnnounceOne(st, now, peer, key)
    case Delivered(peer, now, byTxid, byWtxid, size) =>
      S.DeliverKey(st, now, peer, S.KeyOf(st.items, byTxid, byWtxid), size)
  }

  /** A mark is filed in the table where the history files it. */
  lemma FiledAlike(marks: seq<Mark>, st: S.State, mark: Mark)
    requires st.items.Keys == Known(marks)
    ensures Filed(marks, mark) == FiledIn(st, mark)
    ensures |st.items| == |Known(marks)|
  {
    assert |st.items| == |st.items.Keys|;
  }

  /** One mark more, told of every key. */
  lemma {:induction false} OneMoreMark(marks: seq<Mark>, mark: Mark, key: nat)
    ensures var after, filed := marks + [mark], Filed(marks, mark);
            && Known(after) == (if |Known(marks)| < MAX_ITEMS then Known(marks) + {filed} else Known(marks))
            && FirstHeard(after, key) == (if key in Known(marks) then FirstHeard(marks, key) else mark.now)
            && Announcements(after, key)
               == Announcements(marks, key) + (if mark.Announced? && filed == key && key in Known(after) then 1 else 0)
            && Deliveries(after, key)
               == Deliveries(marks, key) + (if mark.Delivered? && filed == key && key in Known(after) then 1 else 0)
  {
    assert (marks + [mark])[..|marks|] == marks;
  }

  /** A mark touches the item it is filed under alone, unless that is turned away. */
  lemma MarkTouchesOneItem(st: S.State, mark: Mark, filed: nat, key: nat)
    requires filed == FiledIn(st, mark)
    ensures var after := Marked(st, mark).items;
            var before := if filed in st.items then st.items[filed] else Item(mark.now, 0, 0);
            if key != filed || (filed !in st.items && |st.items| >= MAX_ITEMS)
            then (key in after <==> key in st.items) && (key in after ==> after[key] == st.items[key])
            else key in after
                 && after[key] == if mark.Announced?
                                  then before.(announcements := Min(before.announcements + 1, U16_MAX))
                                  else before.(deliveries := Min(before.deliveries + 1, U16_MAX))
  {
  }

  lemma {:induction false} OtherItemTells(marks: seq<Mark>, st: S.State, mark: Mark, key: nat)
    requires ItemTells(marks, st.items, key) && st.items.Keys == Known(marks) && key != Filed(marks, mark)
    ensures ItemTells(marks + [mark], Marked(st, mark).items, key)
  {
    FiledAlike(marks, st, mark);
    OneMoreMark(marks, mark, key);
    MarkTouchesOneItem(st, mark, Filed(marks, mark), key);
  }

  lemma {:induction false} FiledItemTells(marks: seq<Mark>, st: S.State, mark: Mark, key: nat)
    requires ItemTells(marks, st.items, key) && st.items.Keys == Known(marks) && key == Filed(marks, mark)
    ensures ItemTells(marks + [mark], Marked(st, mark).items, key)
  {
    FiledAlike(marks, st, mark);
    OneMoreMark(marks, mark, key);
    MarkTouchesOneItem(st, mark, key, key);
  }

  /** Which keys the table has after a mark. */
  lemma MarkAddsOneKey(st: S.State, mark: Mark, filed: nat)
    requires filed == FiledIn(st, mark)
    ensures Marked(st, mark).items.Keys == st.items.Keys + if |st.items| < MAX_ITEMS then {filed} else {}
  {
    if filed in st.items {
      assert st.items.Keys + {filed} == st.items.Keys;
      assert Marked(st, mark).items == st.items[filed := Marked(st, mark).items[filed]];
    } else if |st.items| < MAX_ITEMS {
      assert Marked(st, mark).items == st.items[filed := Marked(st, mark).items[filed]];
    } else {
      assert Marked(st, mark).items == st.items;
    }
  }

  lemma {:induction false} MarkedKeysTell(marks: seq<Mark>, st: S.State, mark: Mark)
    requires st.items.Keys == Known(marks)
    ensures Marked(st, mark).items.Keys == Known(marks + [mark])
  {
    FiledAlike(marks, st, mark);
    OneMoreMark(marks, mark, 0);
    MarkAddsOneKey(st, mark, Filed(marks, mark));
  }

  lemma {:induction false} OneMoreEntry(marks: seq<Mark>, mark: Mark)
    ensures var after, entry := marks + [mark], EntryOf(marks, mark);
            && Entries(after) == Entries(marks) + (if entry.Some? then [entry.value] else [])
            && CountsOf(after).untracked
               == CountsOf(marks).untracked + (if Filed(marks, mark) in Known(after) then 0 else 1)
            && CountsOf(after).announced == CountsOf(marks).announced + (if mark.Announced? then 1 else 0)
            && CountsOf(after).delivered == CountsOf(marks).delivered + (if mark.Delivered? then 1 else 0)
            && CountsOf(after).bytes == CountsOf(marks).bytes + (if mark.Delivered? then mark.size else 0)
  {
    assert (marks + [mark])[..|marks|] == marks;
  }

  /** What a mark is logged as, by the table. */
  lemma MarkIsLogged(st: S.State, mark: Mark, filed: nat)
    requires filed == FiledIn(st, mark)
    ensures Marked(st, mark).log == st.log +
            if filed !in st.items
            then if |st.items| >= MAX_ITEMS then []
                 else if mark.Announced? then [First(mark.peer)] else [Held(mark.peer, None)]
            else
              var item := st.items[filed];
              var since := Elapsed(mark.now, item.firstMs);
              if mark.Announced? then [Late(mark.peer, since)]
              else if item.deliveries > 0 then [Again(mark.peer, mark.size)]
              else [Held(mark.peer, if item.announcements > 0 then Some(since) else None)]
  {
  }

  lemma {:induction false} MarkedLogTells(marks: seq<Mark>, st: S.State, mark: Mark)
    requires Tells(marks, st)
    ensures Marked(st, mark).log == Entries(marks + [mark])
  {
    FiledAlike(marks, st, mark);
    OneMoreEntry(marks, mark);
    MarkIsLogged(st, mark, Filed(marks, mark));
    assert ItemTells(marks, st.items, Filed(marks, mark));
  }

  lemma {:induction false} MarkedCountsTell(marks: seq<Mark>, st: S.State, mark: Mark)
    requires Tells(marks, st)
    ensures var after := Marked(st, mark);
            CountsOf(marks + [mark])
            == Counts(after.announcements, after.deliveries, after.deliveredBytes, after.untracked)
  {
    FiledAlike(marks, st, mark);
    OneMoreEntry(marks, mark);
    OneMoreMark(marks, mark, 0);
    MarkIsCounted(st, mark, Filed(marks, mark));
  }

  lemma MarkIsCounted(st: S.State, mark: Mark, filed: nat)
    requires filed == FiledIn(st, mark)
    ensures var after := Marked(st, mark);
            && after.announcements == st.announcements + (if mark.Announced? then 1 else 0)
            && after.deliveries == st.deliveries + (if mark.Delivered? then 1 else 0)
            && after.deliveredBytes == st.deliveredBytes + (if mark.Delivered? then mark.size else 0)
            && after.untracked == st.untracked + (if filed !in st.items && |st.items| >= MAX_ITEMS then 1 else 0)
  {
  }

  lemma MarkedTells(marks: seq<Mark>, st: S.State, mark: Mark)
    requires Tells(marks, st)
    ensures Tells(marks + [mark], Marked(st, mark))
  {
    MarkedKeysTell(marks, st, mark);
    forall key: nat ensures ItemTells(marks + [mark], Marked(st, mark).items, key) {
      assert ItemTells(marks, st.items, key);
      if key == Filed(marks, mark) {
        FiledItemTells(marks, st, mark, key);
      } else {
        OtherItemTells(marks, st, mark, key);
      }
    }
    MarkedLogTells(marks, st, mark);
    MarkedCountsTell(marks, st, mark);
  }

  // ------------------------------------------------------------- whole messages

  /** An inventory item more is a mark more, or nothing. */
  lemma {:induction false} OneMoreItem(marks: seq<Mark>, st: S.State, now: nat, peer: nat, items: seq<InventoryItem>,
                                       item: InventoryItem)
    ensures var all, mark := items + [item], TransactionHash(item);
            var before, sofar := S.AnnounceAll(st, now, peer, items), marks + InventoryMarks(peer, now, items);
            if mark.None?
            then marks + InventoryMarks(peer, now, all) == sofar && S.AnnounceAll(st, now, peer, all) == before
            else && marks + InventoryMarks(peer, now, all) == sofar + [Announced(peer, now, mark.value)]
                 && S.AnnounceAll(st, now, peer, all) == Marked(before, Announced(peer, now, mark.value))
  {
    assert (items + [item])[..|items|] == items;
  }

  ghost predicate InventoryTold(marks: seq<Mark>, st: S.State, now: nat, peer: nat, items: seq<InventoryItem>) {
    Tells(marks + InventoryMarks(peer, now, items), S.AnnounceAll(st, now, peer, items))
  }

  lemma {:induction false} InventoryTells(marks: seq<Mark>, st: S.State, now: nat, peer: nat, items: seq<InventoryItem>)
    requires Tells(marks, st)
    ensures InventoryTold(marks, st, now, peer, items)
  {
    if items == [] {
      assert marks + [] == marks;
    } else {
      InventoryTells(marks, st, now, peer, items[..|items| - 1]);
      OneMoreItemTells(marks, st, now, peer, items[..|items| - 1], items[|items| - 1]);
      assert items == items[..|items| - 1] + [items[|items| - 1]];
    }
  }

  lemma {:induction false} OneMoreItemTells(marks: seq<Mark>, st: S.State, now: nat, peer: nat,
                                            items: seq<InventoryItem>, item: InventoryItem)
    requires InventoryTold(marks, st, now, peer, items)
    ensures InventoryTold(marks, st, now, peer, items + [item])
  {
    OneMoreItem(marks, st, now, peer, items, item);
    if TransactionHash(item).Some? {
      MarkedTells(marks + InventoryMarks(peer, now, items), S.AnnounceAll(st, now, peer, items),
                  Announced(peer, now, TransactionHash(item).value));
    }
  }

  lemma {:induction false} OneMoreMessage(messages: seq<S.Heard>, heard: S.Heard)
    ensures var origin := Origin(messages + [heard]);
            && origin == (if Origin(messages).None? && Speaks(heard) then Some(heard.timestamp) else Origin(messages))
            && MarksOf(messages + [heard]) == MarksOf(messages) +
               if !Speaks(heard) then []
               else
                 match heard.msg
                 case Inv(items) => InventoryMarks(heard.peer, Since(origin, heard.timestamp), items)
                 case Tx(txid, wtxid, size) =>
                   var byWtxid := if |wtxid| < 8 then None else Some(LittleEndian(wtxid[..8]));
                   [Delivered(heard.peer, Since(origin, heard.timestamp), LittleEndian(txid[..8]), byWtxid, size)]
                 case Other => []
  {
    assert (messages + [heard])[..|messages|] == messages;
  }

  lemma {:induction false} RecordTells(messages: seq<S.Heard>, heard: S.Heard, st: S.State)
    requires Tells(MarksOf(messages), st) && st.origin == Origin(messages)
    ensures var after := S.Record(st, heard);
            Tells(MarksOf(messages + [heard]), after) && after.origin == Origin(messages + [heard])
  {
    OneMoreMessage(messages, heard);
    assert MarksOf(messages) + [] == MarksOf(messages);
    if Speaks(heard) {
      var now := Since(Origin(messages + [heard]), heard.timestamp);
      AnchoredTells(MarksOf(messages), st, heard.timestamp);
      match heard.msg
      case Inv(items) =>
        AnnouncingKeepsOrigin(S.Anchored(st, heard.timestamp), now, heard.peer, items);
        InventoryTells(MarksOf(messages), S.Anchored(st, heard.timestamp), now, heard.peer, items);
      case Tx(txid, wtxid, size) =>
        DeliveredIsMarked(st, heard.timestamp, heard.peer, txid, wtxid, size, now);
        MarkedTells(MarksOf(messages), S.Anchored(st, heard.timestamp),
                    Delivered(heard.peer, now, LittleEndian(txid[..8]), Prefix(wtxid), size));
      case Other =>
    }
  }

  lemma AnchoredTells(marks: seq<Mark>, st: S.State, timestamp: nat)
    requires Tells(marks, st)
    ensures Tells(marks, S.Anchored(st, timestamp))
  {
  }

  lemma DeliveredIsMarked(st: S.State, timestamp: nat, peer: nat, txid: seq<byte>, wtxid: seq<byte>, size: nat,
                          now: nat)
    requires |txid| >= 8 && now == S.Offset(S.Anchored(st, timestamp).origin.value, timestamp)
    ensures S.Deliver(st, timestamp, peer, txid, wtxid, size)
         == Marked(S.Anchored(st, timestamp), Delivered(peer, now, LittleEndian(txid[..8]), Prefix(wtxid), size))
    ensures S.Deliver(st, timestamp, peer, txid, wtxid, size).origin == S.Anchored(st, timestamp).origin
  {
  }

  lemma {:induction false} AnnouncingKeepsOrigin(st: S.State, now: nat, peer: nat, items: seq<InventoryItem>)
    ensures S.AnnounceAll(st, now, peer, items).origin == st.origin
  {
    if items != [] {
      AnnouncingKeepsOrigin(st, now, peer, items[..|items| - 1]);
    }
  }

  /** The scorecard after these messages is what they tell. */
  ghost predicate RunTold(start: S.State, messages: seq<S.Heard>) {
    Tells(MarksOf(messages), S.Run(start, messages)) && S.Run(start, messages).origin == Origin(messages)
  }

  lemma {:induction false} FreshTells(start: S.State)
    requires S.Fresh(start)
    ensures RunTold(start, [])
  {
    assert start.items.Keys == {};
  }

  lemma {:induction false} OneMoreTells(start: S.State, messages: seq<S.Heard>)
    requires messages != [] && RunTold(start, messages[..|messages| - 1])
    ensures RunTold(start, messages)
  {
    var front, last := messages[..|messages| - 1], messages[|messages| - 1];
    RecordTells(front, last, S.Run(start, front));
    assert messages == front + [last];
  }

  /** After any messages: what is known of each item, what each announcement and
      delivery counted as, and every count, are what the messages tell. */
  lemma {:induction false} RunTells(start: S.State, messages: seq<S.Heard>)
    requires S.Fresh(start)
    ensures RunTold(start, messages)
  {
    if messages == [] {
      FreshTells(start);
    } else {
      RunTells(start, messages[..|messages| - 1]);
      OneMoreTells(start, messages);
    }
  }

  /** One delivery more is noted of an item known already, and logged as the first,
      timed from the first word of it, or as another. */
  ghost predicate NotedAt(st: S.State, after: S.State, key: nat, peer: nat, now: nat, size: nat)
    requires key in st.items
  {
    var item := st.items[key];
    && after.items == st.items[key := item.(deliveries := Min(item.deliveries + 1, U16_MAX))]
    && after.log == st.log + [if item.deliveries > 0 then Again(peer, size)
                              else if item.announcements > 0 then Held(peer, Some(Elapsed(now, item.firstMs)))
                              else Held(peer, None)]
  }

  /** A transaction is found under its own hash if that is known, or else under the
      other if that is; only where neither is may an item be added. */
  ghost predicate FoundByEitherHash(st: S.State, after: S.State, heard: S.Heard)
    requires heard.msg.Tx? && |heard.msg.txid| >= 8
  {
    var byTxid, wtxid := LittleEndian(heard.msg.txid[..8]), heard.msg.wtxid;
    var now, size := Since(after.origin, heard.timestamp), heard.msg.size;
    if byTxid in st.items then NotedAt(st, after, byTxid, heard.peer, now, size)
    else if |wtxid| >= 8 && LittleEndian(wtxid[..8]) in st.items
    then NotedAt(st, after, LittleEndian(wtxid[..8]), heard.peer, now, size)
    else after.items.Keys == st.items.Keys + if |st.items| < MAX_ITEMS then {byTxid} else {}
  }

  lemma DeliveryIsNoted(st: S.State, now: nat, peer: nat, key: nat, size: nat)
    ensures var after := S.DeliverKey(st, now, peer, key, size);
            if key in st.items then NotedAt(st, after, key, peer, now, size)
            else after.items.Keys == st.items.Keys + if |st.items| < MAX_ITEMS then {key} else {}
  {
  }

  lemma RecordFindsTheItem(st: S.State, heard: S.Heard)
    requires heard.inbound && heard.msg.Tx? && |heard.msg.txid| >= 8
    ensures FoundByEitherHash(st, S.Record(st, heard), heard)
  {
    var anchored := S.Anchored(st, heard.timestamp);
    var now := S.Offset(anchored.origin.value, heard.timestamp);
    var byTxid, byWtxid := LittleEndian(heard.msg.txid[..8]), Prefix(heard.msg.wtxid);
    DeliveredIsMarked(st, heard.timestamp, heard.peer, heard.msg.txid, heard.msg.wtxid, heard.msg.size, now);
    DeliveryIsNoted(anchored, now, heard.peer, S.KeyOf(st.items, byTxid, byWtxid), heard.msg.size);
  }

  /** So it is after any messages. */
  lemma {:induction false} EitherHashFindsTheItem(start: S.State, messages: seq<S.Heard>, heard: S.Heard)
    requires heard.inbound && heard.msg.Tx? && |heard.msg.txid| >= 8
    ensures FoundByEitherHash(S.Run(start, messages), S.Run(start, messages + [heard]), heard)
  {
    assert (messages + [heard])[..|messages|] == messages;
    RecordFindsTheItem(S.Run(start, messages), heard);
  }
}
