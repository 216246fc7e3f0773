/** What the windowed matcher still expects of each request that named hashes. */
module MatcherKeys {
  import opened Exchanges
  import opened Matcher
  import opened MatcherSoundness

  predicate InRange(turns: seq<Turn>, ties: seq<Tie>) {
    forall i | 0 <= i < |ties| :: ties[i].request < |turns| && ties[i].reply < |turns|
  }

  /** The keys of the request at `position`, less those of every reply tied to it. */
  function Remaining(turns: seq<Turn>, ties: seq<Tie>, position: nat): seq<nat>
    requires position < |turns| && InRange(turns, ties)
  {
    if ties == [] then turns[position].keys
    else
      var last := |ties| - 1;
      var left := Remaining(turns, ties[..last], position);
      if ties[last].request == position then Without(left, turns[ties[last].reply].keys) else left
  }

  lemma {:induction false} RemainingMeans(turns: seq<Turn>, ties: seq<Tie>, position: nat)
    requires position < |turns| && InRange(turns, ties)
    ensures forall k :: k in Remaining(turns, ties, position) <==>
              k in turns[position].keys &&
              forall i | 0 <= i < |ties| && ties[i].request == position :: k !in turns[ties[i].reply].keys
  {
    if ties != [] {
      RemainingMeans(turns, ties[..|ties| - 1], position);
    }
  }

  /** Both ends name something, so the tie was made by hash. */
  predicate NamesBoth(turns: seq<Turn>, tie: Tie) {
    && tie.request < |turns| && tie.reply < |turns|
    && turns[tie.request].keys != [] && turns[tie.reply].keys != []
  }

  function HashTies(turns: seq<Turn>, ties: seq<Tie>, position: nat): nat {
    if ties == [] then 0
    else
      var last := ties[|ties| - 1];
      HashTies(turns, ties[..|ties| - 1], position)
      + if last.request == position && NamesBoth(turns, last) then 1 else 0
  }

  /** A request still wants exactly what it named and has not been sent; if it
      named something, it still wants something. */
  ghost predicate StillOwed(turns: seq<Turn>, ties: seq<Tie>, request: Pending)
    requires InRange(turns, ties)
  {
    && request.position < |turns|
    && request.wanted == Remaining(turns, ties, request.position)
    && (request.keyed ==> request.wanted != [])
  }

  ghost predicate ListOwed(turns: seq<Turn>, ties: seq<Tie>, list: seq<Pending>)
    requires InRange(turns, ties)
  {
    forall i | 0 <= i < |list| :: StillOwed(turns, ties, list[i])
  }

  ghost predicate Owed(turns: seq<Turn>, st: Matching)
    requires InRange(turns, st.ties)
  {
    forall key | key in st.open :: ListOwed(turns, st.ties, st.open[key])
  }

  /** A tie between two messages that name something delivers a key that the
      request named and no earlier tie of that request had delivered. */
  ghost predicate SharesNewKey(turns: seq<Turn>, ties: seq<Tie>, j: nat)
    requires InRange(turns, ties) && j < |ties|
  {
    NamesBoth(turns, ties[j]) ==>
      exists k :: k in turns[ties[j].reply].keys && k in Remaining(turns, ties[..j], ties[j].request)
  }

  ghost predicate TiesShare(turns: seq<Turn>, ties: seq<Tie>)
    requires InRange(turns, ties)
  {
    forall j | 0 <= j < |ties| :: SharesNewKey(turns, ties, j)
  }

  lemma TiesInRange(table: seq<Exchange>, turns: seq<Turn>, n: nat)
    requires n <= |turns|
    ensures InRange(turns, Run(table, turns, n).ties)
  {
    RunIsSound(table, turns, n);
    var ties := Run(table, turns, n).ties;
    assert forall i | 0 <= i < |ties| :: TieOk(table, turns, ties[i]);
  }

  lemma RemainingAfter(turns: seq<Turn>, ties: seq<Tie>, tie: Tie, position: nat)
    requires position < |turns| && InRange(turns, ties) && tie.request < |turns| && tie.reply < |turns|
    ensures InRange(turns, ties + [tie])
    ensures Remaining(turns, ties + [tie], position) ==
            if tie.request == position then Without(Remaining(turns, ties, position), turns[tie.reply].keys)
            else Remaining(turns, ties, position)
  {
    assert (ties + [tie])[..|ties|] == ties;
    assert forall i | 0 <= i < |ties| :: (ties + [tie])[i] == ties[i];
  }

  /** The request that answered has what arrived struck off. */
  lemma SlotOwed(turns: seq<Turn>, ties: seq<Tie>, request: Pending, hashed: bool, tie: Tie)
    requires InRange(turns, ties) && tie.request < |turns| && tie.reply < |turns|
    requires request.position == tie.request && request.wanted == Remaining(turns, ties, tie.request)
    requires request.keyed == (turns[tie.request].keys != [])
    requires hashed || !request.keyed || turns[tie.reply].keys == []
    ensures InRange(turns, ties + [tie])
    ensures Remaining(turns, ties + [tie], tie.request) ==
            if hashed then Without(request.wanted, turns[tie.reply].keys) else request.wanted
  {
    RemainingAfter(turns, ties, tie, tie.request);
    RemainingMeans(turns, ties, tie.request);
  }

  lemma OtherOwed(turns: seq<Turn>, ties: seq<Tie>, request: Pending, tie: Tie)
    requires InRange(turns, ties) && tie.request < |turns| && tie.reply < |turns|
    requires StillOwed(turns, ties, request) && request.position != tie.request
    ensures InRange(turns, ties + [tie])
    ensures StillOwed(turns, ties + [tie], request)
  {
    RemainingAfter(turns, ties, tie, request.position);
  }

  lemma OthersOwed(turns: seq<Turn>, ties: seq<Tie>, list: seq<Pending>, slot: nat, tie: Tie)
    requires InRange(turns, ties) && tie.request < |turns| && tie.reply < |turns|
    requires ListOwed(turns, ties, list) && slot < |list| && tie.request == list[slot].position
    requires forall i, j | 0 <= i < j < |list| :: list[i].position < list[j].position
    ensures InRange(turns, ties + [tie])
    ensures forall i | 0 <= i < |list| && i != slot :: StillOwed(turns, ties + [tie], list[i])
  {
    RemainingAfter(turns, ties, tie, tie.request);
    forall i | 0 <= i < |list| && i != slot ensures StillOwed(turns, ties + [tie], list[i]) {
      assert StillOwed(turns, ties, list[i]);
      OtherOwed(turns, ties, list[i], tie);
    }
  }

  lemma AnsweredOwed(turns: seq<Turn>, ties: seq<Tie>, list: seq<Pending>, slot: nat, hashed: bool, multi: bool,
                     tie: Tie)
    requires InRange(turns, ties) && tie.request < |turns| && tie.reply < |turns|
    requires ListOwed(turns, ties, list) && slot < |list|
    requires forall i, j | 0 <= i < j < |list| :: list[i].position < list[j].position
    requires tie.request == list[slot].position && list[slot].keyed == (turns[tie.request].keys != [])
    requires hashed || !list[slot].keyed || turns[tie.reply].keys == []
    ensures InRange(turns, ties + [tie])
    ensures ListOwed(turns, ties + [tie], Answered(list, slot, hashed, turns[tie.reply], multi))
  {
    assert StillOwed(turns, ties, list[slot]);
    SlotOwed(turns, ties, list[slot], hashed, tie);
    OthersOwed(turns, ties, list, slot, tie);
    var request := list[slot];
    var wanted := if hashed then Without(request.wanted, turns[tie.reply].keys) else request.wanted;
    if !multi || (request.keyed && wanted == []) {
      RemovedOwed(turns, ties + [tie], list, slot);
    } else {
      UpdatedOwed(turns, ties + [tie], list, slot, request.(wanted := wanted, replies := request.replies + 1));
    }
  }

  lemma RemovedOwed(turns: seq<Turn>, ties: seq<Tie>, list: seq<Pending>, slot: nat)
    requires InRange(turns, ties) && slot < |list|
    requires forall i | 0 <= i < |list| && i != slot :: StillOwed(turns, ties, list[i])
    ensures ListOwed(turns, ties, Removed(list, slot))
  {
    var after := Removed(list, slot);
    forall i | 0 <= i < |after| ensures StillOwed(turns, ties, after[i]) {
      assert after[i] == list[if i < slot then i else i + 1];
    }
  }

  lemma UpdatedOwed(turns: seq<Turn>, ties: seq<Tie>, list: seq<Pending>, slot: nat, request: Pending)
    requires InRange(turns, ties) && slot < |list| && StillOwed(turns, ties, request)
    requires forall i | 0 <= i < |list| && i != slot :: StillOwed(turns, ties, list[i])
    ensures ListOwed(turns, ties, list[slot := request])
  {
  }

  lemma AnswerKeepsOwed(table: seq<Exchange>, turns: seq<Turn>, n: nat, st: Matching)
    requires n < |turns| && Directed(turns[n])
    requires Sound(table, turns, n, st) && InRange(turns, st.ties) && Owed(turns, st)
    ensures var after := Answer(table, st, turns[n], n); InRange(turns, after.ties) && Owed(turns, after)
  {
    var turn, after := turns[n], Answer(table, st, turns[n], n);
    BestIsCandidate(table, st.open, turn);
    var best := Best(table, st.open, turn, |table|);
    if best.Some? {
      var Pick(e, slot, hashed, _) := best.value;
      var key := Key(turn.peer, e, !turn.inbound.value);
      var list, tie := st.open[key], after.ties[|st.ties|];
      assert ListOk(table, turns, n, key, list) && Remembers(table, turns, n, key, list[slot]);
      AnsweredOwed(turns, st.ties, list, slot, hashed, table[e].multi, tie);
      forall other | other in st.open && other != key ensures ListOwed(turns, after.ties, st.open[other]) {
        OtherKeysOwed(table, turns, n, st, key, slot, tie, other);
      }
    }
  }

  lemma OtherKeysOwed(table: seq<Exchange>, turns: seq<Turn>, n: nat, st: Matching, key: Key, slot: nat, tie: Tie,
                      other: Key)
    requires n < |turns| && OpenOk(table, turns, n, st.open) && InRange(turns, st.ties)
    requires key in st.open && other in st.open && other != key && slot < |st.open[key]|
    requires tie.request == st.open[key][slot].position && tie.request < |turns| && tie.reply < |turns|
    requires ListOwed(turns, st.ties, st.open[other])
    ensures InRange(turns, st.ties + [tie])
    ensures ListOwed(turns, st.ties + [tie], st.open[other])
  {
    var list := st.open[other];
    assert ListOk(table, turns, n, key, st.open[key]) && Remembers(table, turns, n, key, st.open[key][slot]);
    assert InRange(turns, st.ties + [tie]);
    forall i | 0 <= i < |list| ensures StillOwed(turns, st.ties + [tie], list[i]) {
      assert ListOk(table, turns, n, other, list) && Remembers(table, turns, n, other, list[i]);
      OtherOwed(turns, st.ties, list[i], tie);
    }
  }

  lemma {:induction false} Untouched(turns: seq<Turn>, ties: seq<Tie>, position: nat)
    requires position < |turns| && InRange(turns, ties)
    requires forall i | 0 <= i < |ties| :: ties[i].request != position
    ensures Remaining(turns, ties, position) == turns[position].keys
  {
    if ties != [] {
      Untouched(turns, ties[..|ties| - 1], position);
    }
  }

  lemma RegisterKeepsOwed(table: seq<Exchange>, turns: seq<Turn>, n: nat, st: Matching)
    requires n < |turns| && Directed(turns[n])
    requires TiesOk(table, turns, n + 1, st.ties) && InRange(turns, st.ties) && Owed(turns, st)
    ensures Owed(turns, st.(open := Register(table, st.open, turns[n], n)))
  {
    assert forall i | 0 <= i < |st.ties| :: TieOk(table, turns, st.ties[i]);
    Untouched(turns, st.ties, n);
    var after := Register(table, st.open, turns[n], n);
    forall key | key in after ensures ListOwed(turns, st.ties, after[key]) {
      assert ListOwed(turns, st.ties, PendingAt(st.open, key));
    }
  }

  lemma AnswerKeepsSharing(table: seq<Exchange>, turns: seq<Turn>, n: nat, st: Matching)
    requires n < |turns| && Directed(turns[n])
    requires Sound(table, turns, n, st) && InRange(turns, st.ties) && Owed(turns, st) && TiesShare(turns, st.ties)
    ensures var after := Answer(table, st, turns[n], n); InRange(turns, after.ties) && TiesShare(turns, after.ties)
  {
    var turn, after := turns[n], Answer(table, st, turns[n], n);
    AnswerKeepsOwed(table, turns, n, st);
    BestIsCandidate(table, st.open, turn);
    var best := Best(table, st.open, turn, |table|);
    if best.Some? {
      var Pick(e, slot, hashed, _) := best.value;
      var key := Key(turn.peer, e, !turn.inbound.value);
      var request := st.open[key][slot];
      assert ListOwed(turns, st.ties, st.open[key]) && Remembers(table, turns, n, key, request);
      forall j | 0 <= j < |after.ties| ensures SharesNewKey(turns, after.ties, j) {
        if j < |st.ties| {
          assert after.ties[..j] == st.ties[..j] && SharesNewKey(turns, st.ties, j);
        } else {
          assert after.ties[..j] == st.ties;
        }
      }
    }
  }

  /** In every reachable state, given sorted keys: what a request wants is what
      it named less what was delivered to it, in order, and not empty while a
      keyed request is open -- so the matcher's test for a keyed request with
      nothing left never fires. Every tie between two messages that name
      something shares a key not delivered before. */
  lemma {:induction false} KeysAreAccountedFor(table: seq<Exchange>, turns: seq<Turn>, n: nat)
    requires n <= |turns|
    ensures var st := Run(table, turns, n);
            InRange(turns, st.ties) && Owed(turns, st) && TiesShare(turns, st.ties)
    ensures KeysSorted(turns) ==> WantedSorted(Run(table, turns, n).open)
  {
    if KeysSorted(turns) {
      WantedStaysSorted(table, turns, n);
    }
    TiesInRange(table, turns, n);
    if n > 0 {
      KeysAreAccountedFor(table, turns, n - 1);
      var st, turn := Run(table, turns, n - 1), turns[n - 1];
      if Directed(turn) {
        RunIsSound(table, turns, n - 1);
        AnswerKeepsOwed(table, turns, n - 1, st);
        AnswerKeepsSharing(table, turns, n - 1, st);
        AnswerKeepsTies(table, turns, n - 1, st);
        RegisterKeepsOwed(table, turns, n - 1, Answer(table, st, turn, n - 1));
      }
    }
  }

  /** Each tie by hash delivers at least one of the keys still wanted, so a
      request has at most as many of them as it named keys. */
  lemma {:induction false} HashTiesAreBounded(turns: seq<Turn>, ties: seq<Tie>, position: nat)
    requires InRange(turns, ties) && TiesShare(turns, ties) && position < |turns|
    ensures HashTies(turns, ties, position) + |Remaining(turns, ties, position)| <= |turns[position].keys|
  {
    if ties != [] {
      var last := |ties| - 1;
      var before := ties[..last];
      forall j | 0 <= j < last ensures SharesNewKey(turns, before, j) {
        assert before[..j] == ties[..j] && SharesNewKey(turns, ties, j);
      }
      HashTiesAreBounded(turns, before, position);
      assert SharesNewKey(turns, ties, last);
    }
  }

  /** The bound over a whole run; sorted keys are distinct keys. */
  lemma {:induction false} HashTiesAtMostKeys(table: seq<Exchange>, turns: seq<Turn>, position: nat)
    requires position < |turns| && KeysSorted(turns)
    ensures HashTies(turns, RunAll(table, turns), position) <= |KeySet(turns[position].keys)|
  {
    KeysAreAccountedFor(table, turns, |turns|);
    HashTiesAreBounded(turns, RunAll(table, turns), position);
    assert Ascending(turns[position].keys);
    AscendingIsDistinct(turns[position].keys);
  }

  ghost function KeySet(keys: seq<nat>): set<nat> {
    set k | k in keys
  }

  lemma {:induction false} AscendingIsDistinct(s: seq<nat>)
    requires Ascending(s)
    ensures |KeySet(s)| == |s|
  {
    if s != [] {
      var front, top := s[..|s| - 1], s[|s| - 1];
      AscendingIsDistinct(front);
      assert top !in front;
      assert s == front + [top];
      assert KeySet(s) == KeySet(front) + {top};
    }
  }
}
