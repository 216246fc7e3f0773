/** Where requests do not overlap and nothing is named, the one-slot tracker and
    the list-based matcher find the same replies. */
module Refinement {
  import opened Basics
  import opened Exchanges
  import M = Matcher
  import S = MatcherSoundness
  import T = Tracking

  function MessageOf(turn: M.Turn): T.Message
    requires M.Directed(turn)
  {
    T.Message(turn.peer, turn.command, turn.inbound.value, turn.timestamp)
  }

  /** The tracker after the directed ones of the first `n` turns. */
  function Track(table: seq<Exchange>, turns: seq<M.Turn>, n: nat): T.Slots
    requires n <= |turns|
  {
    if n == 0 then T.Slots(map[], 0)
    else
      var before := Track(table, turns, n - 1);
      if M.Directed(turns[n - 1]) then T.After(table, before, MessageOf(turns[n - 1]), n - 1) else before
  }

  /** The request/reply pairs it reports along the way. */
  function TrackedTies(table: seq<Exchange>, turns: seq<M.Turn>, n: nat): seq<M.Tie>
    requires n <= |turns|
  {
    if n == 0 then []
    else
      var ties := TrackedTies(table, turns, n - 1);
      if !M.Directed(turns[n - 1]) then ties
      else
        match T.ReplyTo(table, Track(table, turns, n - 1).open, MessageOf(turns[n - 1]))
        case None => ties
        case Some(reply) => ties + [M.Tie(reply.request, n - 1, reply.elapsedMs)]
  }

  ghost predicate NamesNothing(turns: seq<M.Turn>) {
    forall i | 0 <= i < |turns| :: turns[i].keys == []
  }

  ghost predicate InOrder(turns: seq<M.Turn>) {
    forall i, j | 0 <= i <= j < |turns| :: turns[i].timestamp <= turns[j].timestamp
  }

  /** Both turns ask the same thing of the same peer. */
  ghost predicate SameKind(table: seq<Exchange>, a: M.Turn, b: M.Turn) {
    && M.Directed(a) && M.Directed(b)
    && a.peer == b.peer && a.inbound == b.inbound
    && Opens(table, a.command).Some? && Opens(table, a.command) == Opens(table, b.command)
  }

  /** When a request is sent, every earlier one of its kind has been closed by
      its answer or is past its window. */
  ghost predicate OneAtATime(table: seq<Exchange>, turns: seq<M.Turn>) {
    forall i, n | 0 <= i < n < |turns| && SameKind(table, turns[i], turns[n]) ::
      var exchange := table[Opens(table, turns[n].command).value];
      || Elapsed(turns[n].timestamp, turns[i].timestamp) > exchange.windowMs
      || (!exchange.multi && exists tie | tie in M.Run(table, turns, n).ties :: tie.request == i)
  }

  ghost predicate Late(table: seq<Exchange>, key: Key, request: M.Pending, now: nat) {
    key.exchange < |table| && Elapsed(now, request.timestamp) > table[key.exchange].windowMs
  }

  /** The list holds the slot's request last, and only requests past their window
      besides. */
  ghost predicate Holds(table: seq<Exchange>, key: Key, list: seq<M.Pending>, slots: T.OpenRequests, now: nat) {
    && (key in slots ==>
          && list != []
          && list[|list| - 1].position == slots[key].position
          && list[|list| - 1].timestamp == slots[key].timestamp)
    && (forall i | 0 <= i < |list| && (key in slots ==> i < |list| - 1) :: Late(table, key, list[i], now))
  }

  ghost predicate Agree(table: seq<Exchange>, open: M.Pendings, slots: T.OpenRequests, now: nat) {
    forall key: Key :: Holds(table, key, M.PendingAt(open, key), slots, now)
  }

  ghost predicate Unkeyed(open: M.Pendings) {
    forall key | key in open :: forall i | 0 <= i < |open[key]| :: !open[key][i].keyed
  }

  lemma NothingIsKeyed(table: seq<Exchange>, turns: seq<M.Turn>, n: nat)
    requires n <= |turns| && NamesNothing(turns)
    ensures Unkeyed(M.Run(table, turns, n).open)
  {
    S.RunIsSound(table, turns, n);
    var open: M.Pendings := M.Run(table, turns, n).open;
    forall key: Key, i | key in open && 0 <= i < |open[key]| ensures !open[key][i].keyed {
      assert S.ListOk(table, turns, n, key, open[key]) && S.Remembers(table, turns, n, key, open[key][i]);
    }
  }

  // ----------------------------------------------------------- the same choice

  lemma {:induction false} LateOnesAreSkipped(windowMs: nat, e: nat, list: seq<M.Pending>, turn: M.Turn,
                                              best: Option<M.Pick>, n: nat)
    requires n <= |list| && forall i | 0 <= i < n :: Elapsed(turn.timestamp, list[i].timestamp) > windowMs
    ensures M.BestInList(windowMs, e, list, turn, best, n) == best
  {
    if n > 0 {
      LateOnesAreSkipped(windowMs, e, list, turn, best, n - 1);
    }
  }

  lemma LastOneDecides(windowMs: nat, e: nat, list: seq<M.Pending>, turn: M.Turn, best: Option<M.Pick>)
    requires list != [] && turn.keys == [] && !list[|list| - 1].keyed
    requires forall i | 0 <= i < |list| - 1 :: Elapsed(turn.timestamp, list[i].timestamp) > windowMs
    ensures var at := list[|list| - 1].timestamp;
            M.BestInList(windowMs, e, list, turn, best, |list|) ==
            if Elapsed(turn.timestamp, at) <= windowMs && M.Beats(false, at, best)
            then Some(M.Pick(e, |list| - 1, false, at)) else best
  {
    LateOnesAreSkipped(windowMs, e, list, turn, best, |list| - 1);
  }

  /** The list-based choice, read as a slot. */
  ghost predicate SameChoice(open: M.Pendings, slots: T.OpenRequests, pick: Option<M.Pick>, key: Option<Key>) {
    match pick
    case None => key.None?
    case Some(p) =>
      && key.Some? && key.value in slots
      && !p.hashed && p.exchange == key.value.exchange
      && p.slot + 1 == |M.PendingAt(open, key.value)|
      && p.at == slots[key.value].timestamp
  }

  lemma {:induction false} SameBest(table: seq<Exchange>, open: M.Pendings, slots: T.OpenRequests, now: nat,
                                    turn: M.Turn, n: nat)
    requires M.Directed(turn) && turn.keys == [] && now <= turn.timestamp && n <= |table|
    requires Agree(table, open, slots, now) && Unkeyed(open)
    ensures SameChoice(open, slots, M.Best(table, open, turn, n), T.BestOpen(table, slots, MessageOf(turn), n))
  {
    if n > 0 {
      SameBest(table, open, slots, now, turn, n - 1);
      var best := M.Best(table, open, turn, n - 1);
      if turn.command in table[n - 1].replies {
        var key := Key(turn.peer, n - 1, !turn.inbound.value);
        var list := M.PendingAt(open, key);
        SlotDecides(table, open, slots, now, turn, n - 1, best);
        assert Holds(table, key, list, slots, now);
      } else {
        assert M.Best(table, open, turn, n) == best;
      }
    }
  }

  /** What the list of one exchange adds to the choice is what its slot adds. */
  lemma SlotDecides(table: seq<Exchange>, open: M.Pendings, slots: T.OpenRequests, now: nat, turn: M.Turn, e: nat,
                    best: Option<M.Pick>)
    requires M.Directed(turn) && turn.keys == [] && now <= turn.timestamp && e < |table|
    requires Agree(table, open, slots, now) && Unkeyed(open)
    ensures var key := Key(turn.peer, e, !turn.inbound.value);
            var list := M.PendingAt(open, key);
            M.BestInList(table[e].windowMs, e, list, turn, best, |list|) ==
            if key in slots && list != [] && Elapsed(turn.timestamp, slots[key].timestamp) <= table[e].windowMs
               && M.Beats(false, slots[key].timestamp, best)
            then Some(M.Pick(e, |list| - 1, false, slots[key].timestamp)) else best
  {
    var key := Key(turn.peer, e, !turn.inbound.value);
    var list := M.PendingAt(open, key);
    assert Holds(table, key, list, slots, now);
    var live := if key in slots then |list| - 1 else |list|;
    forall i | 0 <= i < live ensures Elapsed(turn.timestamp, list[i].timestamp) > table[e].windowMs {
      assert Late(table, key, list[i], now);
    }
    if key in slots {
      LastOneDecides(table[e].windowMs, e, list, turn, best);
    } else {
      LateOnesAreSkipped(table[e].windowMs, e, list, turn, best, |list|);
    }
  }

  // ------------------------------------------------------------- the same step

  lemma AgreeLater(table: seq<Exchange>, open: M.Pendings, slots: T.OpenRequests, now: nat, later: nat)
    requires Agree(table, open, slots, now) && now <= later
    ensures Agree(table, open, slots, later)
  {
    forall key: Key ensures Holds(table, key, M.PendingAt(open, key), slots, later) {
      var list := M.PendingAt(open, key);
      assert Holds(table, key, list, slots, now);
      forall i | 0 <= i < |list| && (key in slots ==> i < |list| - 1) ensures Late(table, key, list[i], later) {
        assert Late(table, key, list[i], now);
      }
    }
  }

  /** The answered list still agrees with its slot: the request that answered was
      the last, and the others stay late. */
  lemma AnsweredHolds(table: seq<Exchange>, key: Key, list: seq<M.Pending>, slots: T.OpenRequests, now: nat,
                      turn: M.Turn)
    requires Holds(table, key, list, slots, now) && key in slots && key.exchange < |table|
    requires !list[|list| - 1].keyed
    ensures Holds(table, key, M.Answered(list, |list| - 1, false, turn, table[key.exchange].multi),
                  T.AfterReply(table, slots, Some(key)), now)
  {
    var after := M.Answered(list, |list| - 1, false, turn, table[key.exchange].multi);
    forall i | 0 <= i < |list| - 1 ensures Late(table, key, list[i], now) && after[i] == list[i] {
    }
  }

  /** Both matchers answer from the same key, the tracker's slot being the last of
      the matcher's list. */
  lemma SameAnswer(table: seq<Exchange>, open: M.Pendings, slots: T.OpenRequests, now: nat, turn: M.Turn)
    requires M.Directed(turn) && turn.keys == [] && now <= turn.timestamp
    requires Agree(table, open, slots, now) && Unkeyed(open)
    ensures var pick, key := M.Best(table, open, turn, |table|), T.BestOpen(table, slots, MessageOf(turn), |table|);
            && pick.Some? == key.Some?
            && (pick.Some? ==>
                  && pick.value.exchange < |table|
                  && key.value == Key(turn.peer, pick.value.exchange, !turn.inbound.value) && key.value in slots
                  && !pick.value.hashed && pick.value.slot + 1 == |M.PendingAt(open, key.value)|
                  && !M.PendingAt(open, key.value)[pick.value.slot].keyed)
  {
    SameBest(table, open, slots, now, turn, |table|);
    M.BestIsCandidate(table, open, turn);
    var pick := M.Best(table, open, turn, |table|);
    if pick.Some? {
      var key := Key(turn.peer, pick.value.exchange, !turn.inbound.value);
      assert Holds(table, key, M.PendingAt(open, key), slots, now);
      assert !M.PendingAt(open, key)[pick.value.slot].keyed;
    }
  }

  lemma AnswerAgrees(table: seq<Exchange>, st: M.Matching, slots: T.OpenRequests, now: nat, turn: M.Turn, position: nat)
    requires M.Directed(turn) && turn.keys == [] && now <= turn.timestamp
    requires Agree(table, st.open, slots, now) && Unkeyed(st.open)
    ensures Agree(table, M.Answer(table, st, turn, position).open, T.Answer(table, slots, MessageOf(turn)), now)
    ensures M.Answer(table, st, turn, position).ties == st.ties +
            match T.ReplyTo(table, slots, MessageOf(turn))
            case None => []
            case Some(reply) => [M.Tie(reply.request, position, reply.elapsedMs)]
  {
    SameAnswer(table, st.open, slots, now, turn);
    var best := T.BestOpen(table, slots, MessageOf(turn), |table|);
    if best.Some? {
      var key, list := best.value, M.PendingAt(st.open, best.value);
      assert Holds(table, key, list, slots, now);
      AnsweredHolds(table, key, list, slots, now, turn);
      var open', slots' := M.Answer(table, st, turn, position).open, T.Answer(table, slots, MessageOf(turn));
      forall other: Key | other != key ensures Holds(table, other, M.PendingAt(open', other), slots', now) {
        assert Holds(table, other, M.PendingAt(st.open, other), slots, now);
      }
    }
  }

  lemma RegisterAgrees(table: seq<Exchange>, open: M.Pendings, slots: T.OpenRequests, now: nat, turn: M.Turn,
                       position: nat, e: nat)
    requires M.Directed(turn) && Opens(table, turn.command) == Some(e) && now == turn.timestamp
    requires Agree(table, open, slots, now)
    requires var key := Key(turn.peer, e, turn.inbound.value);
             forall i | 0 <= i < |M.PendingAt(open, key)| :: Late(table, key, M.PendingAt(open, key)[i], now)
    ensures Agree(table, M.Register(table, open, turn, position),
                  slots[Key(turn.peer, e, turn.inbound.value) := T.Open(position, turn.timestamp, 0)], now)
  {
    var key := Key(turn.peer, e, turn.inbound.value);
    var open', slots' := M.Register(table, open, turn, position), slots[key := T.Open(position, turn.timestamp, 0)];
    forall other: Key ensures Holds(table, other, M.PendingAt(open', other), slots', now) {
      assert Holds(table, other, M.PendingAt(open, other), slots, now);
      if other == key {
        var before, after := M.PendingAt(open, key), M.PendingAt(open', key);
        var dropped := |before| + 1 - |after|;
        assert forall i | 0 <= i < |after| - 1 :: after[i] == before[i + dropped];
      }
    }
  }

  /** Nothing in the list of the kind being asked for is still waiting. */
  lemma EarlierAreLate(table: seq<Exchange>, turns: seq<M.Turn>, n: nat, e: nat)
    requires n < |turns| && M.Directed(turns[n]) && Opens(table, turns[n].command) == Some(e)
             && OneAtATime(table, turns)
    ensures var key := Key(turns[n].peer, e, turns[n].inbound.value);
            var list := M.PendingAt(M.Answer(table, M.Run(table, turns, n), turns[n], n).open, key);
            forall i | 0 <= i < |list| :: Late(table, key, list[i], turns[n].timestamp)
  {
    var st, key := M.Run(table, turns, n), Key(turns[n].peer, e, turns[n].inbound.value);
    S.RunIsSound(table, turns, n);
    var list := M.PendingAt(st.open, key);
    assert M.PendingAt(M.Answer(table, st, turns[n], n).open, key) == list;
    forall i | 0 <= i < |list| ensures Late(table, key, list[i], turns[n].timestamp) {
      assert S.ListOk(table, turns, n, key, list) && S.Remembers(table, turns, n, key, list[i]);
      assert SameKind(table, turns[list[i].position], turns[n]);
      if !table[e].multi {
        assert S.Untied(list, st.ties);
      }
    }
  }

  lemma {:induction false} DroppedOnlyGrows(table: seq<Exchange>, turns: seq<M.Turn>, n: nat, m: nat)
    requires n <= m <= |turns|
    ensures Track(table, turns, n).dropped <= Track(table, turns, m).dropped
  {
    if n < m {
      DroppedOnlyGrows(table, turns, n, m - 1);
    }
  }

  function LastTime(turns: seq<M.Turn>, n: nat): nat
    requires n <= |turns|
  {
    if n == 0 then 0 else turns[n - 1].timestamp
  }

  /** A request that is opened leaves the two matchers agreeing. */
  lemma OpeningAgrees(table: seq<Exchange>, turns: seq<M.Turn>, n: nat, e: nat)
    requires n < |turns| && M.Directed(turns[n]) && Opens(table, turns[n].command) == Some(e)
             && OneAtATime(table, turns)
    requires Track(table, turns, |turns|).dropped == 0
    requires var open := M.Answer(table, M.Run(table, turns, n), turns[n], n).open;
             Agree(table, open, T.Answer(table, Track(table, turns, n).open, MessageOf(turns[n])), turns[n].timestamp)
    ensures Agree(table, M.Run(table, turns, n + 1).open, Track(table, turns, n + 1).open, turns[n].timestamp)
  {
    EarlierAreLate(table, turns, n, e);
    DroppedOnlyGrows(table, turns, n + 1, |turns|);
    RegisterAgrees(table, M.Answer(table, M.Run(table, turns, n), turns[n], n).open,
                   T.Answer(table, Track(table, turns, n).open, MessageOf(turns[n])), turns[n].timestamp, turns[n],
                   n, e);
  }

  lemma NothingAgrees(table: seq<Exchange>, open: M.Pendings, slots: T.OpenRequests, now: nat)
    requires open.Keys == {} && slots.Keys == {}
    ensures Agree(table, open, slots, now)
  {
  }

  /** One directed turn keeps the two matchers agreeing, in what is open and in
      what was tied. */
  lemma DirectedTurnAgrees(table: seq<Exchange>, turns: seq<M.Turn>, n: nat)
    requires n < |turns| && M.Directed(turns[n]) && NamesNothing(turns) && OneAtATime(table, turns)
    requires Track(table, turns, |turns|).dropped == 0
    requires Agree(table, M.Run(table, turns, n).open, Track(table, turns, n).open, turns[n].timestamp)
    requires M.Run(table, turns, n).ties == TrackedTies(table, turns, n)
    ensures Agree(table, M.Run(table, turns, n + 1).open, Track(table, turns, n + 1).open, turns[n].timestamp)
    ensures M.Run(table, turns, n + 1).ties == TrackedTies(table, turns, n + 1)
  {
    NothingIsKeyed(table, turns, n);
    AnswerAgrees(table, M.Run(table, turns, n), Track(table, turns, n).open, turns[n].timestamp, turns[n], n);
    var e := Opens(table, turns[n].command);
    if e.Some? {
      OpeningAgrees(table, turns, n, e.value);
    }
  }

  lemma {:induction false} RunsAgree(table: seq<Exchange>, turns: seq<M.Turn>, n: nat)
    requires n <= |turns| && InOrder(turns) && NamesNothing(turns) && OneAtATime(table, turns)
    requires Track(table, turns, |turns|).dropped == 0
    ensures Agree(table, M.Run(table, turns, n).open, Track(table, turns, n).open, LastTime(turns, n))
    ensures M.Run(table, turns, n).ties == TrackedTies(table, turns, n)
  {
    if n == 0 {
      NothingAgrees(table, M.Run(table, turns, n).open, Track(table, turns, n).open, LastTime(turns, n));
    } else {
      RunsAgree(table, turns, n - 1);
      AgreeLater(table, M.Run(table, turns, n - 1).open, Track(table, turns, n - 1).open,
                 LastTime(turns, n - 1), turns[n - 1].timestamp);
      if M.Directed(turns[n - 1]) {
        DirectedTurnAgrees(table, turns, n - 1);
      }
    }
  }

  /** With timestamps in order, nothing named, the cap not reached and requests of
      a kind sent one at a time, the tracker answers exactly the request/reply
      pairs, with the same elapsed times, that the matcher finds. */
  lemma TrackerFindsTheSameTies(table: seq<Exchange>, turns: seq<M.Turn>)
    requires InOrder(turns) && NamesNothing(turns) && OneAtATime(table, turns)
    requires Track(table, turns, |turns|).dropped == 0
    ensures TrackedTies(table, turns, |turns|) == M.RunAll(table, turns)
  {
    RunsAgree(table, turns, |turns|);
  }
}
