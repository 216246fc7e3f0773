/** Which turns are answers, and of what, told over the turns alone: no list, no
    candidate, no cursor of the matcher's. */
module MatcherAnswers {
  import opened Basics
  import opened Exchanges
  import opened Matcher
  import opened MatcherSoundness
  import opened MatcherKeys
  import opened MatcherMemory

  /** What turn `p` would have asked for turn `n` to answer it in exchange `e`. */
  function KindAnswered(turn: Turn, e: nat): Key
    requires turn.inbound.Some?
  {
    Key(turn.peer, e, !turn.inbound.value)
  }

  /** Turn `n` names something that turn `p` asked for and has not been sent. */
  predicate Delivers(turns: seq<Turn>, ties: seq<Tie>, n: nat, p: nat)
    requires InRange(turns, ties) && p < |turns| && n < |turns|
  {
    exists k | k in turns[n].keys :: k in Remaining(turns, ties, p)
  }

  /** Whether turn `n` is what the request of turn `p` waits for, after `ties`: it
      is a reply of that exchange from the same peer, the other way and in time;
      the request needs a reply still; and where both name something, the reply
      has something the request has not been sent. */
  predicate Awaited(table: seq<Exchange>, turns: seq<Turn>, ties: seq<Tie>, n: nat, e: nat, p: nat)
    requires InRange(turns, ties) && n < |turns|
  {
    && p < n && e < |table|
    && turns[n].inbound.Some? && turns[n].peer != NO_PEER
    && Asks(table, turns, p, KindAnswered(turns[n], e))
    && turns[n].command in table[e].replies
    && Elapsed(turns[n].timestamp, turns[p].timestamp) <= table[e].windowMs
    && !Done(table, turns, ties, e, p)
    && (turns[p].keys == [] || turns[n].keys == [] || Delivers(turns, ties, n, p))
  }

  /** Fewer than thirty-two more of its kind were sent between `p` and `n`. */
  predicate Remembered(table: seq<Exchange>, turns: seq<Turn>, n: nat, e: nat, p: nat)
    requires n < |turns| && turns[n].inbound.Some?
  {
    AsksBetween(table, turns, KindAnswered(turns[n], e), p, n) < LOCAL_OPEN
  }

  /** Reply `n` goes to `p` of exchange `e` no worse than to `q` of exchange `f`:
      a request it delivers to comes before one it does not, then the older, then
      the earlier in the table, then the earlier sent. */
  predicate NoWorse(turns: seq<Turn>, ties: seq<Tie>, n: nat, e: nat, p: nat, f: nat, q: nat)
    requires InRange(turns, ties) && n < |turns| && p < |turns| && q < |turns|
  {
    var mine, theirs := Delivers(turns, ties, n, p), Delivers(turns, ties, n, q);
    || (mine && !theirs)
    || (mine == theirs && turns[p].timestamp < turns[q].timestamp)
    || (mine == theirs && turns[p].timestamp == turns[q].timestamp && (e < f || (e == f && p <= q)))
  }

  // ------------------------------------------------ what an open request is

  /** Where turn `p` is in its list. */
  lemma SlotOf(list: seq<Pending>, p: nat) returns (slot: nat)
    requires Listed(list, p)
    ensures slot < |list| && list[slot].position == p
  {
    slot :| 0 <= slot < |list| && list[slot].position == p;
  }

  /** An open request, looked up by its turn, hashes when the reply delivers to it
      and is eligible when the reply is awaited. */
  lemma OpenMeans(table: seq<Exchange>, turns: seq<Turn>, n: nat, st: Matching, e: nat, slot: nat)
    requires n < |turns| && Directed(turns[n]) && e < |table| && Healthy(table, turns, n, st)
    requires slot < |Answerable(table, st.open, turns[n], e)|
    ensures var request := Answerable(table, st.open, turns[n], e)[slot];
            && request.position < n && request.timestamp == turns[request.position].timestamp
            && (Hashes(request, turns[n]) <==> Delivers(turns, st.ties, n, request.position))
            && (Candidate(table, st.open, turns[n], e, slot) <==>
                Awaited(table, turns, st.ties, n, e, request.position))
  {
    var key := KindAnswered(turns[n], e);
    var list := st.open[key];
    var request := list[slot];
    assert ListOk(table, turns, n, key, list) && Remembers(table, turns, n, key, request);
    assert ListOwed(turns, st.ties, list) && StillOwed(turns, st.ties, request);
    RemainingMeans(turns, st.ties, request.position);
    ListedIsNotDone(table, turns, n, st, key, request.position);
  }

  lemma RunIsHealthy(table: seq<Exchange>, turns: seq<Turn>, n: nat)
    requires n <= |turns|
    ensures Healthy(table, turns, n, Run(table, turns, n))
  {
    RunIsSound(table, turns, n);
    KeysAreAccountedFor(table, turns, n);
  }

  /** An awaited turn whose request is remembered has it as a candidate. */
  lemma AwaitedIsCandidate(table: seq<Exchange>, turns: seq<Turn>, n: nat, e: nat, p: nat) returns (slot: nat)
    requires n < |turns| && turns[n].inbound.Some? && InRange(turns, Run(table, turns, n).ties)
    requires Awaited(table, turns, Run(table, turns, n).ties, n, e, p) && Remembered(table, turns, n, e, p)
    ensures Directed(turns[n]) && Candidate(table, Run(table, turns, n).open, turns[n], e, slot)
    ensures Answerable(table, Run(table, turns, n).open, turns[n], e)[slot].position == p
  {
    var st := Run(table, turns, n);
    RunIsHealthy(table, turns, n);
    WaitsExactlyWhileNeeded(table, turns, n, KindAnswered(turns[n], e), p);
    slot := SlotOf(Answerable(table, st.open, turns[n], e), p);
    OpenMeans(table, turns, n, st, e, slot);
  }

  // ------------------------------------------------------------- completeness

  /** No reply goes unanswered for: over the whole page, a turn that some
      remembered request waits for is a reply in the result. */
  lemma AwaitedIsTied(table: seq<Exchange>, turns: seq<Turn>, n: nat, e: nat, p: nat)
    requires n < |turns| && turns[n].inbound.Some? && InRange(turns, Run(table, turns, n).ties)
    requires Awaited(table, turns, Run(table, turns, n).ties, n, e, p) && Remembered(table, turns, n, e, p)
    ensures exists tie | tie in RunAll(table, turns) :: tie.reply == n
  {
    var slot := AwaitedIsCandidate(table, turns, n, e, p);
    TiedExactlyWhenEligible(table, turns, n);
  }

  // ---------------------------------------------------- soundness and choice

  lemma OneTurnOneTie(table: seq<Exchange>, turns: seq<Turn>, n: nat)
    requires n < |turns|
    ensures var before, after := Run(table, turns, n).ties, Run(table, turns, n + 1).ties;
            |before| <= |after| <= |before| + 1 && after[..|before|] == before
  {
  }

  lemma RepliesBefore(table: seq<Exchange>, turns: seq<Turn>, n: nat, i: nat)
    requires n <= |turns| && i < |Run(table, turns, n).ties|
    ensures Run(table, turns, n).ties[i].reply < n
  {
    RunIsSound(table, turns, n);
    assert TieOk(table, turns, Run(table, turns, n).ties[i]);
  }

  /** A tie of the page was made by turn `n` if and only if it has that reply. */
  lemma {:induction false} MadeByItsReply(table: seq<Exchange>, turns: seq<Turn>, n: nat, i: nat)
    requires n < |turns| && i < |RunAll(table, turns)| && RunAll(table, turns)[i].reply == n
    ensures |Run(table, turns, n).ties| <= i < |Run(table, turns, n + 1).ties|
  {
    if i < |Run(table, turns, n).ties| {
      TiesOnlyGrow(table, turns, n, |turns|);
      RepliesBefore(table, turns, n, i);
    }
    if i >= |Run(table, turns, n + 1).ties| {
      RepliesAfter(table, turns, n + 1, |turns|, i);
    }
  }

  /** A tie was made at its reply's turn. */
  lemma {:induction false} TieMadeAt(table: seq<Exchange>, turns: seq<Turn>, tie: Tie)
    requires tie in RunAll(table, turns)
    ensures tie.reply < |turns| && Directed(turns[tie.reply])
    ensures Run(table, turns, tie.reply + 1).ties == Run(table, turns, tie.reply).ties + [tie]
  {
    var all, n := RunAll(table, turns), tie.reply;
    var i :| 0 <= i < |all| && all[i] == tie;
    RunIsSound(table, turns, |turns|);
    assert TieOk(table, turns, all[i]);
    MadeByItsReply(table, turns, n, i);
    OneTurnOneTie(table, turns, n);
    TiesOnlyGrow(table, turns, n + 1, |turns|);
    assert Run(table, turns, n + 1).ties[i] == tie;
  }

  /** Every tie of the page goes to a request that waited for that reply, and to
      none worse than any that is remembered and waited for it. */
  lemma TieIsTheBestAnswer(table: seq<Exchange>, turns: seq<Turn>, tie: Tie)
    requires tie in RunAll(table, turns)
    ensures tie.request < tie.reply < |turns| && turns[tie.reply].inbound.Some?
    ensures tie.elapsedMs == Elapsed(turns[tie.reply].timestamp, turns[tie.request].timestamp)
    ensures var n, p, asked := tie.reply, tie.request, Opens(table, turns[tie.request].command);
            var ties := Run(table, turns, n).ties;
            && InRange(turns, ties) && asked.Some? && Awaited(table, turns, ties, n, asked.value, p)
            && forall f: nat, q: nat | Awaited(table, turns, ties, n, f, q) && Remembered(table, turns, n, f, q) ::
                 NoWorse(turns, ties, n, asked.value, p, f, q)
  {
    TieMadeAt(table, turns, tie);
    var n := tie.reply;
    var st := Run(table, turns, n);
    RunIsHealthy(table, turns, n);
    BestIsBest(table, st.open, turns[n], |table|);
    var pick := Best(table, st.open, turns[n], |table|).value;
    assert tie == Run(table, turns, n + 1).ties[|st.ties|];
    OpenMeans(table, turns, n, st, pick.exchange, pick.slot);
    forall f: nat, q: nat | Awaited(table, turns, st.ties, n, f, q) && Remembered(table, turns, n, f, q)
      ensures NoWorse(turns, st.ties, n, pick.exchange, tie.request, f, q)
    {
      var slot := AwaitedIsCandidate(table, turns, n, f, q);
      OpenMeans(table, turns, n, st, f, slot);
      PickIsNoWorse(table, turns, n, st, pick, f, slot);
    }
  }

  /** Lists are in the order of their turns, so an earlier slot is an earlier turn. */
  lemma PickIsNoWorse(table: seq<Exchange>, turns: seq<Turn>, n: nat, st: Matching, pick: Pick, f: nat, slot: nat)
    requires n < |turns| && Directed(turns[n]) && Healthy(table, turns, n, st)
    requires IsCandidate(table, st.open, turns[n], pick)
    requires Unbeaten(table, st.open, turns[n], pick, |table|, 0)
    requires Candidate(table, st.open, turns[n], f, slot)
    ensures var p := Answerable(table, st.open, turns[n], pick.exchange)[pick.slot].position;
            var q := Answerable(table, st.open, turns[n], f)[slot].position;
            p < |turns| && q < |turns| && NoWorse(turns, st.ties, n, pick.exchange, p, f, q)
  {
    OpenMeans(table, turns, n, st, pick.exchange, pick.slot);
    OpenMeans(table, turns, n, st, f, slot);
    if pick.exchange == f {
      var list := st.open[KindAnswered(turns[n], f)];
      assert ListOk(table, turns, n, KindAnswered(turns[n], f), list);
      assert pick.slot < slot ==> list[pick.slot].position < list[slot].position;
    }
  }
}
