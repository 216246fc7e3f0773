/** The scorecard as an object updated message by message. */
module RelayClass {
  import opened Basics
  import opened Latency
  import opened RelayLog
  import S = Scorecard

  class Relay {
    var items: map<nat, Item>
    var originMs: Option<nat>
    var peers: map<nat, PeerRelay>
    var announcements: nat
    var deliveries: nat
    var duplicateDeliveries: nat
    var deliveredBytes: nat
    var duplicateBytes: nat
    var lateAnnouncements: nat
    var untracked: nat
    var lag: Sketch
    var heardToHeld: Sketch
    ghost var log: seq<Entry>
    ghost var lostDeliveries: nat

    ghost function Value(): S.State
      reads this
    {
      S.State(items, originMs, peers, announcements, deliveries, duplicateDeliveries, deliveredBytes, duplicateBytes,
              lateAnnouncements, untracked, lag, heardToHeld, log, lostDeliveries)
    }

    constructor ()
      ensures S.Fresh(Value())
    {
      items, originMs, peers := map[], None, map[];
      announcements, deliveries, duplicateDeliveries, deliveredBytes, duplicateBytes := 0, 0, 0, 0, 0;
      lateAnnouncements, untracked, lostDeliveries := 0, 0, 0;
      lag, heardToHeld := Empty(), Empty();
      log := [];
    }

    /** Milliseconds since the first message, saturating at 32 bits. */
    method Offset(timestamp: nat) returns (now: nat)
      modifies this`originMs
      ensures Value() == S.Anchored(old(Value()), timestamp)
      ensures originMs.Some? && now == S.Offset(originMs.value, timestamp)
    {
      if originMs.None? {
        originMs := Some(timestamp);
      }
      now := Min(Elapsed(timestamp, originMs.value), U32_MAX);
    }

    method Announce(timestamp: nat, peer: nat, inventory: seq<InventoryItem>)
      modifies this
      ensures Value() == S.Announce(old(Value()), timestamp, peer, inventory)
    {
      var now := Offset(timestamp);
      ghost var anchored := Value();
      for i := 0 to |inventory|
        invariant Value() == S.AnnounceAll(anchored, now, peer, inventory[..i])
      {
        assert inventory[..i + 1][..i] == inventory[..i];
        var hash := TransactionHash(inventory[i]);
        if hash.None? {
          continue;
        }
        AnnounceOne(now, peer, hash.value);
      }
      assert inventory[..|inventory|] == inventory;
    }

    /** Note an item anew and credit an entry to its peer. */
    method File(hash: nat, item: Item, entry: Entry)
      modifies `items, `peers, `log
      ensures items == old(items)[hash := item]
      ensures peers == S.Credited(old(peers), entry) && log == old(log) + [entry]
    {
      items := items[hash := item];
      peers := S.Credited(peers, entry);
      log := log + [entry];
    }

    method AnnounceOne(now: nat, peer: nat, hash: nat)
      modifies this
      ensures Value() == S.AnnounceOne(old(Value()), now, peer, hash)
    {
      if hash in items {
        AnnounceLate(now, peer, hash);
      } else {
        AnnounceNew(now, peer, hash);
      }
    }

    method AnnounceLate(now: nat, peer: nat, hash: nat)
      requires hash in items
      modifies this
      ensures Value() == S.AnnounceOne(old(Value()), now, peer, hash)
    {
      var item := items[hash];
      var entry := Late(peer, Elapsed(now, item.firstMs));
      CountLate(entry.lagMs);
      File(hash, item.(announcements := Min(item.announcements + 1, U16_MAX)), entry);
    }

    /** The running totals a late announcement adds to. */
    method CountLate(lagMs: nat)
      modifies `announcements, `lateAnnouncements, `lag
      ensures announcements == old(announcements) + 1 && lateAnnouncements == old(lateAnnouncements) + 1
      ensures lag == Added(old(lag), lagMs)
    {
      announcements := announcements + 1;
      lateAnnouncements := lateAnnouncements + 1;
      lag := Added(lag, lagMs);
    }

    method AnnounceNew(now: nat, peer: nat, hash: nat)
      requires hash !in items
      modifies this
      ensures Value() == S.AnnounceOne(old(Value()), now, peer, hash)
    {
      announcements := announcements + 1;
      if |items| >= MAX_ITEMS {
        untracked := untracked + 1;
        return;
      }
      File(hash, Item(now, 1, 0), First(peer));
    }

    method Deliver(timestamp: nat, peer: nat, txid: seq<byte>, wtxid: seq<byte>, size: nat)
      modifies this
      ensures Value() == S.Deliver(old(Value()), timestamp, peer, txid, wtxid, size)
    {
      var byTxid := Prefix(txid);
      if byTxid.None? {
        return;
      }
      var byWtxid := Prefix(wtxid);
      var key := byTxid.value;
      if key !in items && byWtxid.Some? && byWtxid.value in items {
        key := byWtxid.value;
      }
      var now := Offset(timestamp);
      DeliverKey(now, peer, key, size);
    }

    method DeliverKey(now: nat, peer: nat, key: nat, size: nat)
      modifies this
      ensures Value() == S.DeliverKey(old(Value()), now, peer, key, size)
    {
      if key in items {
        DeliverKnown(now, peer, key, size);
      } else {
        DeliverNew(now, peer, key, size);
      }
    }

    method DeliverKnown(now: nat, peer: nat, key: nat, size: nat)
      requires key in items
      modifies this
      ensures Value() == S.DeliverKey(old(Value()), now, peer, key, size)
    {
      var item := items[key];
      var entry := S.DeliveryOf(item, now, peer, size);
      CountDelivery(entry, size);
      File(key, item.(deliveries := Min(item.deliveries + 1, U16_MAX)), entry);
    }

    /** The running totals a delivery adds to. */
    method CountDelivery(entry: Entry, size: nat)
      requires entry.Again? || entry.Held?
      requires entry.Again? ==> entry.size == size
      modifies `deliveries, `deliveredBytes, `duplicateDeliveries, `duplicateBytes, `heardToHeld
      ensures deliveries == old(deliveries) + 1 && deliveredBytes == old(deliveredBytes) + size
      ensures duplicateDeliveries == old(duplicateDeliveries) + if entry.Again? then 1 else 0
      ensures duplicateBytes == old(duplicateBytes) + if entry.Again? then size else 0
      ensures heardToHeld == if entry.Held? && entry.waitMs.Some?
                             then Added(old(heardToHeld), entry.waitMs.value) else old(heardToHeld)
    {
      deliveries := deliveries + 1;
      deliveredBytes := deliveredBytes + size;
      match entry
      case Again(_, _) =>
        duplicateDeliveries := duplicateDeliveries + 1;
        duplicateBytes := duplicateBytes + size;
      case Held(_, Some(sinceAnnounced)) =>
        heardToHeld := Added(heardToHeld, sinceAnnounced);
      case Held(_, None) =>
    }

    method DeliverNew(now: nat, peer: nat, key: nat, size: nat)
      requires key !in items
      modifies this
      ensures Value() == S.DeliverKey(old(Value()), now, peer, key, size)
    {
      var entry := Held(peer, None);
      CountDelivery(entry, size);
      if |items| >= MAX_ITEMS {
        untracked := untracked + 1;
        lostDeliveries := lostDeliveries + 1;
        return;
      }
      File(key, Item(now, 0, 1), entry);
    }

    /** The merge of all records in `peers`: it holds the running figures, and so
        does not depend on the order they were met in. */
    method Totals() returns (total: PeerRelay)
      requires S.Agrees(Value())
      ensures S.FiguresAgree(Value(), total)
    {
      ghost var order;
      total, order := FoldPeers(peers);
      S.AgreeingPeersAddUp(Value(), order);
    }
  }

  method FoldPeers(peers: map<nat, PeerRelay>) returns (total: PeerRelay, ghost order: seq<nat>)
    ensures forall i, j | 0 <= i < j < |order| :: order[i] != order[j]
    ensures S.Among(order) == peers.Keys
    ensures total == S.Folded(peers, order)
  {
    total, order := Nothing(), [];
    var todo := peers.Keys;
    while todo != {}
      invariant todo <= peers.Keys
      invariant forall p :: p in order <==> p in peers.Keys && p !in todo
      invariant forall i, j | 0 <= i < j < |order| :: order[i] != order[j]
      invariant total == S.Folded(peers, order)
      decreases todo
    {
      var p :| p in todo;
      todo := todo - {p};
      FoldedOneMore(peers, order, p);
      total := MergedPeers(total, peers[p]);
      order := order + [p];
    }
  }

  lemma FoldedOneMore(peers: map<nat, PeerRelay>, order: seq<nat>, p: nat)
    ensures S.Folded(peers, order + [p]) == MergedPeers(S.Folded(peers, order), S.PeerIn(peers, p))
  {
    assert (order + [p])[..|order|] == order;
  }
}
