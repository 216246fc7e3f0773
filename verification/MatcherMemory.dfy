/** How long the windowed matcher remembers a request. */
module MatcherMemory {
  import opened Basics
  import opened Exchanges
  import opened Matcher
  import opened MatcherSoundness
  import opened MatcherKeys

  /** Whether turn `p` asks what `key` files. */
  predicate Asks(table: seq<Exchange>, turns: seq<Turn>, p: nat, key: Key)
    requires p < |turns|
  {
    && Directed(turns[p]) && turns[p].peer == key.peer && turns[p].inbound.value == key.inbound
    && Opens(table, turns[p].command) == Some(key.exchange)
  }

  /** How many requests of a kind come after turn `p` and before turn `n`. */
  function AsksBetween(table: seq<Exchange>, turns: seq<Turn>, key: Key, p: nat, n: nat): nat
    requires n <= |turns|
  {
    if n <= p + 1 then 0
    else AsksBetween(table, turns, key, p, n - 1) + if Asks(table, turns, n - 1, key) then 1 else 0
  }

  lemma {:induction false} MoreLater(table: seq<Exchange>, turns: seq<Turn>, key: Key, p: nat, n: nat, m: nat)
    requires n <= m <= |turns|
    ensures AsksBetween(table, turns, key, p, n) <= AsksBetween(table, turns, key, p, m)
  {
    if n < m {
      MoreLater(table, turns, key, p, n, m - 1);
    }
  }

  /** A list of later requests of a kind, in order, is at most as long as there
      are such requests. */
  lemma {:induction false} AtLeastThese(table: seq<Exchange>, turns: seq<Turn>, key: Key, p: nat, n: nat,
                                        list: seq<Pending>)
    requires n <= |turns|
    requires forall i | 0 <= i < |list| :: p < list[i].position < n && Asks(table, turns, list[i].position, key)
    requires forall i, j | 0 <= i < j < |list| :: list[i].position < list[j].position
    ensures AsksBetween(table, turns, key, p, n) >= |list|
  {
    if list != [] {
      var last := list[|list| - 1].position;
      AtLeastThese(table, turns, key, p, last, list[..|list| - 1]);
      MoreLater(table, turns, key, p, last + 1, n);
    }
  }

  predicate Listed(list: seq<Pending>, p: nat) {
    exists i | 0 <= i < |list| :: list[i].position == p
  }

  /** The request at `p` needs no more replies: it was answered, where one answer
      is all it can have, or all it named has been delivered. */
  predicate Done(table: seq<Exchange>, turns: seq<Turn>, ties: seq<Tie>, e: nat, p: nat)
    requires InRange(turns, ties) && e < |table| && p < |turns|
  {
    && (exists i | 0 <= i < |ties| :: ties[i].request == p)
    && (!table[e].multi || (turns[p].keys != [] && Remaining(turns, ties, p) == []))
  }

  lemma StaysDone(table: seq<Exchange>, turns: seq<Turn>, ties: seq<Tie>, tie: Tie, e: nat, p: nat)
    requires InRange(turns, ties) && tie.request < |turns| && tie.reply < |turns| && e < |table| && p < |turns|
    requires Done(table, turns, ties, e, p)
    ensures InRange(turns, ties + [tie]) && Done(table, turns, ties + [tie], e, p)
  {
    RemainingAfter(turns, ties, tie, p);
    var i :| 0 <= i < |ties| && ties[i].request == p;
    assert (ties + [tie])[i].request == p;
  }

  ghost predicate Healthy(table: seq<Exchange>, turns: seq<Turn>, n: nat, st: Matching)
    requires n <= |turns|
  {
    Sound(table, turns, n, st) && InRange(turns, st.ties) && Owed(turns, st)
  }

  /** A request leaves its list only when it is done. */
  lemma AnswerKeepsOrCloses(table: seq<Exchange>, turns: seq<Turn>, n: nat, st: Matching, key: Key, p: nat)
    requires n < |turns| && Directed(turns[n]) && Healthy(table, turns, n, st)
    requires key.exchange < |table| && p < |turns| && Listed(PendingAt(st.open, key), p)
    requires var after := Answer(table, st, turns[n], n); InRange(turns, after.ties)
    ensures var after := Answer(table, st, turns[n], n);
            Listed(PendingAt(after.open, key), p) || Done(table, turns, after.ties, key.exchange, p)
  {
    BestIsCandidate(table, st.open, turns[n]);
    var best, after := Best(table, st.open, turns[n], |table|), Answer(table, st, turns[n], n);
    if best.Some? && Key(turns[n].peer, best.value.exchange, !turns[n].inbound.value) == key {
      var list := st.open[key];
      assert ListOk(table, turns, n, key, list);
      assert Remembers(table, turns, n, key, list[best.value.slot]);
      assert StillOwed(turns, st.ties, list[best.value.slot]);
      assert st.ties + [after.ties[|st.ties|]] == after.ties;
      AnsweredKeepsOrCloses(table, turns, st.ties, list, best.value.slot, best.value.hashed, after.ties[|st.ties|],
                            key.exchange, p);
    }
  }

  lemma AnsweredKeepsOrCloses(table: seq<Exchange>, turns: seq<Turn>, ties: seq<Tie>, list: seq<Pending>, slot: nat,
                              hashed: bool, tie: Tie, e: nat, p: nat)
    requires InRange(turns, ties) && tie.request < |turns| && tie.reply < |turns| && e < |table| && p < |turns|
    requires InRange(turns, ties + [tie])
    requires slot < |list| && StillOwed(turns, ties, list[slot]) && Listed(list, p)
    requires tie.request == list[slot].position && list[slot].keyed == (turns[tie.request].keys != [])
    requires hashed || !list[slot].keyed || turns[tie.reply].keys == []
    ensures Listed(Answered(list, slot, hashed, turns[tie.reply], table[e].multi), p)
            || Done(table, turns, ties + [tie], e, p)
  {
    var request := list[slot];
    var wanted := if hashed then Without(request.wanted, turns[tie.reply].keys) else request.wanted;
    if table[e].multi && !(request.keyed && wanted == []) {
      StaysListedUpdated(list, slot, request.(wanted := wanted, replies := request.replies + 1), p);
    } else if request.position != p {
      StaysListedBesides(list, slot, p);
    } else {
      ClosesWhenDone(table, turns, ties, request, hashed, tie, e);
    }
  }

  lemma ClosesWhenDone(table: seq<Exchange>, turns: seq<Turn>, ties: seq<Tie>, request: Pending, hashed: bool, tie: Tie,
                       e: nat)
    requires InRange(turns, ties) && tie.request < |turns| && tie.reply < |turns| && e < |table|
    requires StillOwed(turns, ties, request)
    requires tie.request == request.position && request.keyed == (turns[tie.request].keys != [])
    requires hashed || !request.keyed || turns[tie.reply].keys == []
    requires table[e].multi ==> request.keyed
    requires table[e].multi ==>
               (if hashed then Without(request.wanted, turns[tie.reply].keys) else request.wanted) == []
    ensures InRange(turns, ties + [tie]) && Done(table, turns, ties + [tie], e, tie.request)
  {
    SlotOwed(turns, ties, request, hashed, tie);
    assert (ties + [tie])[|ties|] == tie;
  }

  lemma StaysListedBesides(list: seq<Pending>, slot: nat, p: nat)
    requires slot < |list| && Listed(list, p) && list[slot].position != p
    ensures Listed(Removed(list, slot), p)
  {
    var i :| 0 <= i < |list| && list[i].position == p;
    assert Removed(list, slot)[if i < slot then i else i - 1] == list[i];
  }

  lemma StaysListedUpdated(list: seq<Pending>, slot: nat, request: Pending, p: nat)
    requires slot < |list| && Listed(list, p) && request.position == list[slot].position
    ensures Listed(list[slot := request], p)
  {
    var i :| 0 <= i < |list| && list[i].position == p;
    assert list[slot := request][i].position == p;
  }

  /** Whoever is dropped is the first of thirty-two. */
  lemma DroppedIsFirst(table: seq<Exchange>, turns: seq<Turn>, n: nat, key: Key, list: seq<Pending>, added: Pending)
    requires n < |turns| && ListOk(table, turns, n, key, list) && |list| >= LOCAL_OPEN
    requires added.position == n && Asks(table, turns, n, key)
    ensures AsksBetween(table, turns, key, list[0].position, n + 1) >= LOCAL_OPEN
  {
    var after := Pushed(list, added);
    forall j | 0 <= j < |after|
      ensures list[0].position < after[j].position < n + 1 && Asks(table, turns, after[j].position, key)
    {
      assert Remembers(table, turns, n, key, list[0]);
      assert j < |list| - 1 ==> after[j] == list[j + 1] && Remembers(table, turns, n, key, list[j + 1]);
    }
    AtLeastThese(table, turns, key, list[0].position, n + 1, after);
  }

  lemma PushedKeepsOthers(list: seq<Pending>, added: Pending, p: nat)
    requires Listed(list, p) && (|list| >= LOCAL_OPEN ==> list[0].position != p)
    ensures Listed(Pushed(list, added), p)
  {
    var i :| 0 <= i < |list| && list[i].position == p;
    assert Pushed(list, added)[if |list| >= LOCAL_OPEN then i - 1 else i] == list[i];
  }

  /** Registering a request forgets another of its kind only once thirty-two
      have come after that. */
  lemma {:induction false} RegisterKeepsOrDrops(table: seq<Exchange>, turns: seq<Turn>, n: nat, open: Pendings,
                                                key: Key, p: nat)
    requires n < |turns| && Directed(turns[n]) && OpenOk(table, turns, n, open) && Listed(PendingAt(open, key), p)
    ensures || Listed(PendingAt(Register(table, open, turns[n], n), key), p)
            || AsksBetween(table, turns, key, p, n + 1) >= LOCAL_OPEN
  {
    if Asks(table, turns, n, key) {
      var list, added := open[key], Pending(n, turns[n].timestamp, turns[n].keys, turns[n].keys != [], 0);
      if |list| >= LOCAL_OPEN && list[0].position == p {
        DroppedIsFirst(table, turns, n, key, list, added);
      } else {
        PushedKeepsOthers(list, added, p);
      }
    }
  }

  /** No request is forgotten early: in every reachable state each one sent so far
      is still waiting, or needs no more replies, or has been followed by at
      least thirty-two more of its kind. */
  lemma {:induction false} NoneForgottenEarly(table: seq<Exchange>, turns: seq<Turn>, n: nat, key: Key, p: nat)
    requires p < n <= |turns| && Asks(table, turns, p, key)
    ensures var st := Run(table, turns, n);
            && InRange(turns, st.ties) && key.exchange < |table|
            && (Listed(PendingAt(st.open, key), p) || Done(table, turns, st.ties, key.exchange, p)
                || AsksBetween(table, turns, key, p, n) >= LOCAL_OPEN)
  {
    TiesInRange(table, turns, n);
    if p == n - 1 {
      JustListed(table, turns, p, key);
    } else {
      NoneForgottenEarly(table, turns, n - 1, key, p);
      OneMoreTurn(table, turns, n - 1, key, p);
    }
  }

  lemma JustListed(table: seq<Exchange>, turns: seq<Turn>, p: nat, key: Key)
    requires p < |turns| && Asks(table, turns, p, key)
    ensures Listed(PendingAt(Run(table, turns, p + 1).open, key), p)
  {
    var list := PendingAt(Run(table, turns, p + 1).open, key);
    assert list[|list| - 1].position == p;
  }

  lemma OneMoreTurn(table: seq<Exchange>, turns: seq<Turn>, n: nat, key: Key, p: nat)
    requires p < n < |turns| && key.exchange < |table|
    requires var st := Run(table, turns, n);
             && InRange(turns, st.ties)
             && (Listed(PendingAt(st.open, key), p) || Done(table, turns, st.ties, key.exchange, p)
                 || AsksBetween(table, turns, key, p, n) >= LOCAL_OPEN)
    requires InRange(turns, Run(table, turns, n + 1).ties)
    ensures var st := Run(table, turns, n + 1);
            || Listed(PendingAt(st.open, key), p) || Done(table, turns, st.ties, key.exchange, p)
            || AsksBetween(table, turns, key, p, n + 1) >= LOCAL_OPEN
  {
    var st := Run(table, turns, n);
    RunIsSound(table, turns, n);
    KeysAreAccountedFor(table, turns, n);
    MoreLater(table, turns, key, p, n, n + 1);
    if Directed(turns[n]) {
      var answered := Answer(table, st, turns[n], n);
      AnswerKeepsLists(table, turns, n, st);
      if Done(table, turns, st.ties, key.exchange, p) {
        if answered.ties != st.ties {
          StaysDone(table, turns, st.ties, answered.ties[|st.ties|], key.exchange, p);
        }
      } else if Listed(PendingAt(st.open, key), p) {
        AnswerKeepsOrCloses(table, turns, n, st, key, p);
        if Listed(PendingAt(answered.open, key), p) {
          RegisterKeepsOrDrops(table, turns, n, answered.open, key, p);
        }
      }
    }
  }

  lemma ListedIsNotDone(table: seq<Exchange>, turns: seq<Turn>, n: nat, st: Matching, key: Key, p: nat)
    requires n <= |turns| && Healthy(table, turns, n, st)
    requires key.exchange < |table| && p < |turns| && Listed(PendingAt(st.open, key), p)
    ensures !Done(table, turns, st.ties, key.exchange, p)
  {
    var list := st.open[key];
    var i :| 0 <= i < |list| && list[i].position == p;
    assert ListOk(table, turns, n, key, list) && Remembers(table, turns, n, key, list[i]);
    assert ListOwed(turns, st.ties, list) && StillOwed(turns, st.ties, list[i]);
    assert table[key.exchange].multi || Untied(list, st.ties);
  }

  /** Within thirty-two requests of its kind, a request waits if and only if it
      still needs a reply. */
  lemma WaitsExactlyWhileNeeded(table: seq<Exchange>, turns: seq<Turn>, n: nat, key: Key, p: nat)
    requires p < n <= |turns| && Asks(table, turns, p, key) && AsksBetween(table, turns, key, p, n) < LOCAL_OPEN
    ensures var st := Run(table, turns, n);
            && InRange(turns, st.ties) && key.exchange < |table|
            && (Listed(PendingAt(st.open, key), p) <==> !Done(table, turns, st.ties, key.exchange, p))
  {
    NoneForgottenEarly(table, turns, n, key, p);
    RunIsSound(table, turns, n);
    KeysAreAccountedFor(table, turns, n);
    if Listed(PendingAt(Run(table, turns, n).open, key), p) {
      ListedIsNotDone(table, turns, n, Run(table, turns, n), key, p);
    }
  }
}
