/** What every tie means, over every run of the windowed matcher. */
module MatcherSoundness {
  import opened Basics
  import opened Exchanges
  import opened Matcher

  /** `r` is the memory of a turn before `n`, filed under the right key. */
  ghost predicate Remembers(table: seq<Exchange>, turns: seq<Turn>, n: nat, key: Key, r: Pending)
    requires n <= |turns|
  {
    && r.position < n
    && var q := turns[r.position];
    && Directed(q) && q.peer == key.peer && q.inbound.value == key.inbound
    && key.exchange < |table| && Opens(table, q.command) == Some(key.exchange)
    && r.timestamp == q.timestamp && r.keyed == (q.keys != [])
  }

  /** An open list: bounded, and in the order its requests were sent. */
  ghost predicate ListOk(table: seq<Exchange>, turns: seq<Turn>, n: nat, key: Key, list: seq<Pending>)
    requires n <= |turns|
  {
    && |list| <= LOCAL_OPEN
    && (forall i | 0 <= i < |list| :: Remembers(table, turns, n, key, list[i]))
    && (forall i, j | 0 <= i < j < |list| :: list[i].position < list[j].position)
  }

  ghost predicate OpenOk(table: seq<Exchange>, turns: seq<Turn>, n: nat, open: Pendings)
    requires n <= |turns|
  {
    forall key | key in open :: ListOk(table, turns, n, key, open[key])
  }

  /** A request and a later reply of the same peer, the other way, with a reply
      command of the exchange the request opened, inside that exchange's window. */
  ghost predicate TieOk(table: seq<Exchange>, turns: seq<Turn>, tie: Tie) {
    && tie.request < tie.reply < |turns|
    && var q, a := turns[tie.request], turns[tie.reply];
    && Directed(q) && Directed(a) && q.peer == a.peer && q.inbound.value != a.inbound.value
    && Opens(table, q.command).Some?
    && var exchange := table[Opens(table, q.command).value];
    && a.command in exchange.replies
    && tie.elapsedMs == Elapsed(a.timestamp, q.timestamp) <= exchange.windowMs
  }

  /** Whether the request at `position` can be answered more than once. */
  predicate MultiAt(table: seq<Exchange>, turns: seq<Turn>, position: nat)
    requires position < |turns|
  {
    var e := Opens(table, turns[position].command);
    e.Some? && table[e.value].multi
  }

  ghost predicate TiesOk(table: seq<Exchange>, turns: seq<Turn>, n: nat, ties: seq<Tie>) {
    && (forall i | 0 <= i < |ties| :: TieOk(table, turns, ties[i]) && ties[i].reply < n)
    && (forall i, j | 0 <= i < j < |ties| :: ties[i].reply < ties[j].reply)
    && (forall i, j | 0 <= i < j < |ties| && ties[i].request == ties[j].request ::
          MultiAt(table, turns, ties[i].request))
  }

  /** No request in `list` has been answered. */
  ghost predicate Untied(list: seq<Pending>, ties: seq<Tie>) {
    forall i, j | 0 <= i < |list| && 0 <= j < |ties| :: ties[j].request != list[i].position
  }

  /** Open single-reply requests have not been answered. */
  ghost predicate SinglesUntied(table: seq<Exchange>, open: Pendings, ties: seq<Tie>) {
    forall key | key in open && key.exchange < |table| && !table[key.exchange].multi :: Untied(open[key], ties)
  }

  ghost predicate Sound(table: seq<Exchange>, turns: seq<Turn>, n: nat, st: Matching)
    requires n <= |turns|
  {
    && OpenOk(table, turns, n, st.open)
    && TiesOk(table, turns, n, st.ties)
    && SinglesUntied(table, st.open, st.ties)
  }

  lemma AnsweredListOk(table: seq<Exchange>, turns: seq<Turn>, n: nat, key: Key, list: seq<Pending>,
                       slot: nat, hashed: bool, turn: Turn, multi: bool)
    requires n <= |turns| && ListOk(table, turns, n, key, list) && slot < |list|
    ensures ListOk(table, turns, n, key, Answered(list, slot, hashed, turn, multi))
  {
    var after := Answered(list, slot, hashed, turn, multi);
    forall i | 0 <= i < |after| ensures Remembers(table, turns, n, key, after[i]) {
      var from := if |after| < |list| && i >= slot then i + 1 else i;
      assert Remembers(table, turns, n, key, list[from]);
    }
  }

  lemma AnsweredUntied(list: seq<Pending>, slot: nat, hashed: bool, turn: Turn, ties: seq<Tie>, tie: Tie)
    requires slot < |list| && tie.request == list[slot].position
    requires forall i, j | 0 <= i < j < |list| :: list[i].position < list[j].position
    requires Untied(list, ties)
    ensures Untied(Answered(list, slot, hashed, turn, false), ties + [tie])
  {
    var after := Answered(list, slot, hashed, turn, false);
    forall i, j | 0 <= i < |after| && 0 <= j < |ties| + 1 ensures (ties + [tie])[j].request != after[i].position {
      var from := if i >= slot then i + 1 else i;
      assert after[i] == list[from];
    }
  }

  lemma AnswerKeepsLists(table: seq<Exchange>, turns: seq<Turn>, n: nat, st: Matching)
    requires n < |turns| && Directed(turns[n]) && OpenOk(table, turns, n, st.open)
    ensures OpenOk(table, turns, n, Answer(table, st, turns[n], n).open)
  {
    var turn, after := turns[n], Answer(table, st, turns[n], n);
    BestIsCandidate(table, st.open, turn);
    var best := Best(table, st.open, turn, |table|);
    if best.Some? {
      var Pick(e, slot, hashed, _) := best.value;
      var key := Key(turn.peer, e, !turn.inbound.value);
      AnsweredListOk(table, turns, n, key, st.open[key], slot, hashed, turn, table[e].multi);
    }
  }

  /** The tie made of the best candidate is sound, and answers a request that
      had no answer or may have several. */
  lemma BestTieIsOk(table: seq<Exchange>, turns: seq<Turn>, n: nat, st: Matching)
    requires n < |turns| && Directed(turns[n]) && Sound(table, turns, n, st)
    requires Best(table, st.open, turns[n], |table|).Some?
    ensures var after := Answer(table, st, turns[n], n);
            && |after.ties| == |st.ties| + 1
            && var tie := after.ties[|st.ties|];
            && after.ties == st.ties + [tie]
            && TieOk(table, turns, tie) && tie.reply == n
            && forall j | 0 <= j < |st.ties| && st.ties[j].request == tie.request :: MultiAt(table, turns, tie.request)
  {
    var turn, after := turns[n], Answer(table, st, turns[n], n);
    BestIsCandidate(table, st.open, turn);
    var Pick(e, slot, hashed, _) := Best(table, st.open, turn, |table|).value;
    var key := Key(turn.peer, e, !turn.inbound.value);
    assert Remembers(table, turns, n, key, st.open[key][slot]);
    assert table[e].multi || Untied(st.open[key], st.ties);
  }

  lemma OneMoreTieOk(table: seq<Exchange>, turns: seq<Turn>, n: nat, ties: seq<Tie>, tie: Tie)
    requires TiesOk(table, turns, n, ties) && TieOk(table, turns, tie) && tie.reply == n
    requires forall j | 0 <= j < |ties| && ties[j].request == tie.request :: MultiAt(table, turns, tie.request)
    ensures TiesOk(table, turns, n + 1, ties + [tie])
  {
  }

  /** The tie an answer adds is sound, and no other tie answers the same reply
      or, unless the exchange is multi-reply, the same request. */
  lemma AnswerKeepsTies(table: seq<Exchange>, turns: seq<Turn>, n: nat, st: Matching)
    requires n < |turns| && Directed(turns[n]) && Sound(table, turns, n, st)
    ensures TiesOk(table, turns, n + 1, Answer(table, st, turns[n], n).ties)
  {
    if Best(table, st.open, turns[n], |table|).Some? {
      BestTieIsOk(table, turns, n, st);
      var after := Answer(table, st, turns[n], n).ties;
      OneMoreTieOk(table, turns, n, st.ties, after[|st.ties|]);
    }
  }

  lemma AnswerKeepsSingles(table: seq<Exchange>, turns: seq<Turn>, n: nat, st: Matching)
    requires n < |turns| && Directed(turns[n]) && Sound(table, turns, n, st)
    ensures var after := Answer(table, st, turns[n], n); SinglesUntied(table, after.open, after.ties)
  {
    var turn, after := turns[n], Answer(table, st, turns[n], n);
    BestIsCandidate(table, st.open, turn);
    var best := Best(table, st.open, turn, |table|);
    if best.Some? {
      var Pick(e, slot, hashed, _) := best.value;
      var key := Key(turn.peer, e, !turn.inbound.value);
      var tie := after.ties[|st.ties|];
      assert Remembers(table, turns, n, key, st.open[key][slot]);
      forall other | other in after.open && other.exchange < |table| && !table[other.exchange].multi
        ensures Untied(after.open[other], after.ties)
      {
        if other == key {
          AnsweredUntied(st.open[key], slot, hashed, turn, st.ties, tie);
        } else {
          var list := st.open[other];
          assert ListOk(table, turns, n, other, list) && Untied(list, st.ties);
          forall i | 0 <= i < |list| ensures list[i].position != tie.request {
            assert Remembers(table, turns, n, other, list[i]);
          }
        }
      }
    }
  }

  lemma ListGrows(table: seq<Exchange>, turns: seq<Turn>, n: nat, key: Key, list: seq<Pending>)
    requires n < |turns| && ListOk(table, turns, n, key, list)
    ensures ListOk(table, turns, n + 1, key, list)
  {
    forall i | 0 <= i < |list| ensures Remembers(table, turns, n + 1, key, list[i]) {
      assert Remembers(table, turns, n, key, list[i]);
    }
  }

  lemma PushedListOk(table: seq<Exchange>, turns: seq<Turn>, n: nat, key: Key, list: seq<Pending>, added: Pending)
    requires n < |turns| && ListOk(table, turns, n, key, list)
    requires added.position == n && Remembers(table, turns, n + 1, key, added)
    ensures ListOk(table, turns, n + 1, key, Pushed(list, added))
  {
    var after := Pushed(list, added);
    var dropped := |list| + 1 - |after|;
    forall i | 0 <= i < |after| - 1 ensures after[i] == list[i + dropped] && Remembers(table, turns, n, key, after[i]) {
      assert Remembers(table, turns, n, key, list[i + dropped]);
    }
  }

  lemma RegisterKeepsLists(table: seq<Exchange>, turns: seq<Turn>, n: nat, open: Pendings)
    requires n < |turns| && Directed(turns[n]) && OpenOk(table, turns, n, open)
    ensures OpenOk(table, turns, n + 1, Register(table, open, turns[n], n))
  {
    var turn := turns[n];
    forall key | key in open {
      ListGrows(table, turns, n, key, open[key]);
    }
    var e := Opens(table, turn.command);
    if e.Some? {
      var key := Key(turn.peer, e.value, turn.inbound.value);
      PushedListOk(table, turns, n, key, PendingAt(open, key),
                   Pending(n, turn.timestamp, turn.keys, turn.keys != [], 0));
    }
  }

  lemma RegisterKeepsSingles(table: seq<Exchange>, turns: seq<Turn>, n: nat, st: Matching)
    requires n < |turns| && Directed(turns[n]) && SinglesUntied(table, st.open, st.ties)
    requires TiesOk(table, turns, n + 1, st.ties)
    ensures SinglesUntied(table, Register(table, st.open, turns[n], n), st.ties)
  {
    var after := Register(table, st.open, turns[n], n);
    forall key | key in after && key.exchange < |table| && !table[key.exchange].multi
      ensures Untied(after[key], st.ties)
    {
      var before := PendingAt(st.open, key);
      assert Untied(before, st.ties);
      assert forall j | 0 <= j < |st.ties| :: TieOk(table, turns, st.ties[j]);
    }
  }

  lemma DirectedTurnIsSound(table: seq<Exchange>, turns: seq<Turn>, n: nat, st: Matching)
    requires n < |turns| && Directed(turns[n]) && Sound(table, turns, n, st)
    ensures Sound(table, turns, n + 1, Step(table, st, turns[n], n))
  {
    var answered := Answer(table, st, turns[n], n);
    AnswerKeepsLists(table, turns, n, st);
    AnswerKeepsTies(table, turns, n, st);
    AnswerKeepsSingles(table, turns, n, st);
    RegisterKeepsLists(table, turns, n, answered.open);
    RegisterKeepsSingles(table, turns, n, answered);
  }

  lemma OtherTurnIsSound(table: seq<Exchange>, turns: seq<Turn>, n: nat, st: Matching)
    requires n < |turns| && !Directed(turns[n]) && Sound(table, turns, n, st)
    ensures Sound(table, turns, n + 1, Step(table, st, turns[n], n))
  {
    forall key | key in st.open {
      ListGrows(table, turns, n, key, st.open[key]);
    }
  }

  lemma NothingIsSound(table: seq<Exchange>, turns: seq<Turn>, st: Matching)
    requires st.open.Keys == {} && |st.ties| == 0
    ensures Sound(table, turns, 0, st)
  {
  }

  /** Soundness in every reachable state: each tie joins an earlier request to a
      later reply of the same peer, the other way, with a reply command of its
      exchange, inside its window; no reply is tied twice, and no request of a
      single-reply exchange is. */
  lemma {:induction false} RunIsSound(table: seq<Exchange>, turns: seq<Turn>, n: nat)
    requires n <= |turns|
    ensures Sound(table, turns, n, Run(table, turns, n))
  {
    if n == 0 {
      NothingIsSound(table, turns, Run(table, turns, n));
    } else {
      RunIsSound(table, turns, n - 1);
      if Directed(turns[n - 1]) {
        DirectedTurnIsSound(table, turns, n - 1, Run(table, turns, n - 1));
      } else {
        OtherTurnIsSound(table, turns, n - 1, Run(table, turns, n - 1));
      }
    }
  }

  // ------------------------------------------------------------- optimality

  /** A turn is tied exactly when some open request is eligible, and then to
      the one that beats or ties every other by (hash match, age); so a tie made
      without a hash means that no eligible request was named by the reply. */
  lemma EachTieIsTheBestChoice(table: seq<Exchange>, turns: seq<Turn>, n: nat)
    requires n < |turns| && Directed(turns[n])
    ensures var before, after, turn := Run(table, turns, n), Run(table, turns, n + 1), turns[n];
            if after.ties == before.ties
            then forall e: nat, s: nat :: !Candidate(table, before.open, turn, e, s)
            else exists pick: Pick ::
                && IsCandidate(table, before.open, turn, pick)
                && Unbeaten(table, before.open, turn, pick, |table|, 0)
                && (var request := Answerable(table, before.open, turn, pick.exchange)[pick.slot];
                    after.ties == before.ties + [Tie(request.position, n, Elapsed(turn.timestamp, request.timestamp))])
                && (pick.hashed || forall e: nat, s: nat | Candidate(table, before.open, turn, e, s) ::
                      !Hashes(Answerable(table, before.open, turn, e)[s], turn))
  {
    BestIsBest(table, Run(table, turns, n).open, turns[n], |table|);
  }

  lemma {:induction false} TiesOnlyGrow(table: seq<Exchange>, turns: seq<Turn>, n: nat, m: nat)
    requires n <= m <= |turns|
    ensures Run(table, turns, n).ties <= Run(table, turns, m).ties
  {
    if n < m {
      TiesOnlyGrow(table, turns, n, m - 1);
    }
  }

  /** Over the whole window: turn `n` is a reply in the result exactly when, at
      that point, an open request was eligible for it. */
  lemma TiedExactlyWhenEligible(table: seq<Exchange>, turns: seq<Turn>, n: nat)
    requires n < |turns|
    ensures (exists tie | tie in RunAll(table, turns) :: tie.reply == n)
       <==> Directed(turns[n]) && exists e: nat, s: nat :: Candidate(table, Run(table, turns, n).open, turns[n], e, s)
  {
    var before, after, all := Run(table, turns, n).ties, Run(table, turns, n + 1).ties, RunAll(table, turns);
    TiesOnlyGrow(table, turns, n + 1, |turns|);
    RunIsSound(table, turns, n);
    RunIsSound(table, turns, n + 1);
    RunIsSound(table, turns, |turns|);
    if Directed(turns[n]) {
      EachTieIsTheBestChoice(table, turns, n);
    }
    if |after| > |before| {
      assert all[|before|] == after[|before|] && all[|before|].reply == n;
    } else {
      assert after == before;
      forall i | 0 <= i < |all| ensures all[i].reply != n {
        if i < |after| {
          assert all[i] == before[i];
        } else {
          RepliesAfter(table, turns, n + 1, |turns|, i);
        }
      }
    }
  }

  /** Ties made from turn `n` on have replies from `n` on. */
  lemma {:induction false} RepliesAfter(table: seq<Exchange>, turns: seq<Turn>, n: nat, m: nat, i: nat)
    requires n <= m <= |turns|
    requires |Run(table, turns, n).ties| <= i < |Run(table, turns, m).ties|
    ensures Run(table, turns, m).ties[i].reply >= n
  {
    if n < m && i < |Run(table, turns, m - 1).ties| {
      RepliesAfter(table, turns, n, m - 1, i);
    }
  }
}
