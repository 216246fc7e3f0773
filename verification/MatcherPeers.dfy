/** Peers do not interfere: the windowed matcher treats an interleaved stream as
    if each peer's messages were all it had been given. */
module MatcherPeers {
  import opened Basics
  import opened Exchanges
  import opened Matcher
  import opened MatcherSoundness

  predicate Kept(turn: Turn, who: nat -> bool) {
    Directed(turn) && who(turn.peer)
  }

  predicate Anyone(peer: nat) {
    true
  }

  /** Where, among the first `n` turns, the directed messages of `who` are. */
  function Positions(turns: seq<Turn>, who: nat -> bool, n: nat): (at: seq<nat>)
    requires n <= |turns|
    ensures forall i | 0 <= i < |at| :: at[i] < n && Kept(turns[at[i]], who)
  {
    if n == 0 then []
    else
      var at := Positions(turns, who, n - 1);
      if Kept(turns[n - 1], who) then at + [n - 1] else at
  }

  /** Those messages alone. */
  function Selected(turns: seq<Turn>, who: nat -> bool): (sub: seq<Turn>) {
    var at := Positions(turns, who, |turns|);
    seq(|at|, i requires 0 <= i < |at| => turns[at[i]])
  }

  function Place(at: seq<nat>, i: nat): nat {
    if i < |at| then at[i] else 0
  }

  function Renamed(list: seq<Pending>, at: seq<nat>): seq<Pending> {
    seq(|list|, i requires 0 <= i < |list| => list[i].(position := Place(at, list[i].position)))
  }

  function RenamedTies(ties: seq<Tie>, at: seq<nat>): seq<Tie> {
    seq(|ties|, i requires 0 <= i < |ties| =>
      ties[i].(request := Place(at, ties[i].request), reply := Place(at, ties[i].reply)))
  }

  /** The ties whose reply came from `who`. */
  function TiesOf(turns: seq<Turn>, ties: seq<Tie>, who: nat -> bool): seq<Tie> {
    if ties == [] then []
    else
      var last := ties[|ties| - 1];
      TiesOf(turns, ties[..|ties| - 1], who)
      + if last.reply < |turns| && who(turns[last.reply].peer) then [last] else []
  }

  /** `small` is what `big` looks like to `who`. */
  ghost predicate Mirrors(turns: seq<Turn>, who: nat -> bool, at: seq<nat>, big: Matching, small: Matching) {
    && OpenMirrors(who, at, big.open, small.open)
    && TiesOf(turns, big.ties, who) == RenamedTies(small.ties, at)
  }

  lemma {:induction false} RenamingDoesNotMatterInList(windowMs: nat, e: nat, list: seq<Pending>, at: seq<nat>,
                                                       turn: Turn, best: Option<Pick>, n: nat)
    requires n <= |list|
    ensures BestInList(windowMs, e, Renamed(list, at), turn, best, n) == BestInList(windowMs, e, list, turn, best, n)
  {
    if n > 0 {
      RenamingDoesNotMatterInList(windowMs, e, list, at, turn, best, n - 1);
    }
  }

  /** Exchange `e` adds the same to the choice on both sides. */
  lemma RenamedExchange(table: seq<Exchange>, big: Pendings, small: Pendings, at: seq<nat>, turn: Turn, e: nat,
                        best: Option<Pick>)
    requires Directed(turn) && e < |table|
    requires forall key: Key | key.peer == turn.peer :: PendingAt(big, key) == Renamed(PendingAt(small, key), at)
    ensures var a, b := Answerable(table, big, turn, e), Answerable(table, small, turn, e);
            BestInList(table[e].windowMs, e, a, turn, best, |a|) == BestInList(table[e].windowMs, e, b, turn, best, |b|)
  {
    var list := Answerable(table, small, turn, e);
    assert Answerable(table, big, turn, e) == Renamed(list, at);
    RenamingDoesNotMatterInList(table[e].windowMs, e, list, at, turn, best, |list|);
  }

  lemma {:induction false} RenamingDoesNotMatter(table: seq<Exchange>, big: Pendings, small: Pendings, at: seq<nat>,
                                                 turn: Turn, n: nat)
    requires Directed(turn) && n <= |table|
    requires forall key: Key | key.peer == turn.peer :: PendingAt(big, key) == Renamed(PendingAt(small, key), at)
    ensures Best(table, big, turn, n) == Best(table, small, turn, n)
  {
    if n > 0 {
      RenamingDoesNotMatter(table, big, small, at, turn, n - 1);
      RenamedExchange(table, big, small, at, turn, n - 1, Best(table, small, turn, n - 1));
    }
  }

  lemma AnsweredMirrors(list: seq<Pending>, at: seq<nat>, slot: nat, hashed: bool, turn: Turn, multi: bool)
    requires slot < |list|
    ensures Answered(Renamed(list, at), slot, hashed, turn, multi)
            == Renamed(Answered(list, slot, hashed, turn, multi), at)
  {
    var request := list[slot];
    var wanted := if hashed then Without(request.wanted, turn.keys) else request.wanted;
    assert Renamed(list, at)[slot] == request.(position := Place(at, request.position));
    RenamedRemoval(list, at, slot);
    RenamedUpdate(list, at, slot, request.(wanted := wanted, replies := request.replies + 1));
  }

  lemma RenamedSlices(list: seq<Pending>, at: seq<nat>, slot: nat)
    requires slot < |list|
    ensures Renamed(list, at)[..slot] == Renamed(list[..slot], at)
    ensures Renamed(list, at)[slot + 1..] == Renamed(list[slot + 1..], at)
  {
  }

  lemma RenamedJoin(a: seq<Pending>, b: seq<Pending>, at: seq<nat>)
    ensures Renamed(a, at) + Renamed(b, at) == Renamed(a + b, at)
  {
  }

  lemma RenamedRemoval(list: seq<Pending>, at: seq<nat>, slot: nat)
    requires slot < |list|
    ensures Removed(Renamed(list, at), slot) == Renamed(Removed(list, slot), at)
  {
    RenamedSlices(list, at, slot);
    RenamedJoin(list[..slot], list[slot + 1..], at);
  }

  lemma RenamedUpdate(list: seq<Pending>, at: seq<nat>, slot: nat, request: Pending)
    requires slot < |list|
    ensures Renamed(list, at)[slot := request.(position := Place(at, request.position))]
            == Renamed(list[slot := request], at)
  {
  }

  lemma TiesOfOneMore(turns: seq<Turn>, ties: seq<Tie>, who: nat -> bool, tie: Tie)
    ensures TiesOf(turns, ties + [tie], who) ==
            TiesOf(turns, ties, who) + if tie.reply < |turns| && who(turns[tie.reply].peer) then [tie] else []
  {
    assert (ties + [tie])[..|ties|] == ties;
  }

  /** `small`, seen through the renaming, has the same open requests as `big`. */
  ghost predicate OpenMirrors(who: nat -> bool, at: seq<nat>, big: Pendings, small: Pendings) {
    forall key: Key | who(key.peer) :: PendingAt(big, key) == Renamed(PendingAt(small, key), at)
  }

  lemma OneListMirrors(who: nat -> bool, at: seq<nat>, big: Pendings, small: Pendings, key: Key, list: seq<Pending>)
    requires OpenMirrors(who, at, big, small)
    ensures OpenMirrors(who, at, big[key := Renamed(list, at)], small[key := list])
  {
  }

  lemma SameChoice(table: seq<Exchange>, turn: Turn, who: nat -> bool, at: seq<nat>, big: Pendings, small: Pendings)
    requires Kept(turn, who) && OpenMirrors(who, at, big, small)
    ensures Best(table, big, turn, |table|) == Best(table, small, turn, |table|)
  {
    RenamingDoesNotMatter(table, big, small, at, turn, |table|);
  }

  lemma AnswerMirrorsOpen(table: seq<Exchange>, turn: Turn, who: nat -> bool, at: seq<nat>, n: nat, m: nat,
                          big: Matching, small: Matching)
    requires Kept(turn, who) && OpenMirrors(who, at, big.open, small.open)
    ensures OpenMirrors(who, at, Answer(table, big, turn, n).open, Answer(table, small, turn, m).open)
  {
    SameChoice(table, turn, who, at, big.open, small.open);
    BestIsCandidate(table, small.open, turn);
    var best := Best(table, small.open, turn, |table|);
    if best.Some? {
      var Pick(e, slot, hashed, _) := best.value;
      var key := Key(turn.peer, e, !turn.inbound.value);
      var list := PendingAt(small.open, key);
      assert PendingAt(big.open, key) == Renamed(list, at);
      AnsweredMirrors(list, at, slot, hashed, turn, table[e].multi);
      OneListMirrors(who, at, big.open, small.open, key, Answered(list, slot, hashed, turn, table[e].multi));
    }
  }

  lemma RenamedOneMore(ties: seq<Tie>, tie: Tie, at: seq<nat>)
    ensures RenamedTies(ties + [tie], at)
         == RenamedTies(ties, at) + [tie.(request := Place(at, tie.request), reply := Place(at, tie.reply))]
  {
  }

  lemma AnswerMirrorsTies(table: seq<Exchange>, turns: seq<Turn>, who: nat -> bool, at: seq<nat>, n: nat, m: nat,
                          big: Matching, small: Matching)
    requires n < |turns| && Kept(turns[n], who) && m < |at| && at[m] == n
    requires Mirrors(turns, who, at, big, small)
    ensures TiesOf(turns, Answer(table, big, turns[n], n).ties, who)
            == RenamedTies(Answer(table, small, turns[n], m).ties, at)
  {
    var turn := turns[n];
    SameChoice(table, turn, who, at, big.open, small.open);
    BestIsCandidate(table, small.open, turn);
    var best := Best(table, small.open, turn, |table|);
    if best.Some? {
      var list := PendingAt(small.open, Key(turn.peer, best.value.exchange, !turn.inbound.value));
      assert PendingAt(big.open, Key(turn.peer, best.value.exchange, !turn.inbound.value)) == Renamed(list, at);
      var request := list[best.value.slot];
      var tie := Tie(request.position, m, Elapsed(turn.timestamp, request.timestamp));
      TiesOfOneMore(turns, big.ties, who, Tie(Place(at, request.position), n, tie.elapsedMs));
      RenamedOneMore(small.ties, tie, at);
    }
  }

  lemma AnswerMirrors(table: seq<Exchange>, turns: seq<Turn>, who: nat -> bool, at: seq<nat>, n: nat, m: nat,
                      big: Matching, small: Matching)
    requires n < |turns| && Kept(turns[n], who) && m < |at| && at[m] == n
    requires Mirrors(turns, who, at, big, small)
    ensures Mirrors(turns, who, at, Answer(table, big, turns[n], n), Answer(table, small, turns[n], m))
  {
    AnswerMirrorsOpen(table, turns[n], who, at, n, m, big, small);
    AnswerMirrorsTies(table, turns, who, at, n, m, big, small);
  }

  lemma RegisterMirrors(table: seq<Exchange>, turn: Turn, who: nat -> bool, at: seq<nat>, n: nat, m: nat,
                        big: Pendings, small: Pendings)
    requires Kept(turn, who) && m < |at| && at[m] == n
    requires OpenMirrors(who, at, big, small)
    ensures OpenMirrors(who, at, Register(table, big, turn, n), Register(table, small, turn, m))
  {
    var e := Opens(table, turn.command);
    if e.Some? {
      var key := Key(turn.peer, e.value, turn.inbound.value);
      var added := Pending(m, turn.timestamp, turn.keys, turn.keys != [], 0);
      var list := PendingAt(small, key);
      assert Pushed(Renamed(list, at), added.(position := n)) == Renamed(Pushed(list, added), at);
      OneListMirrors(who, at, big, small, key, Pushed(list, added));
    }
  }

  /** A kept turn is the next of the selected ones. */
  lemma KeptIsNext(turns: seq<Turn>, who: nat -> bool, n: nat, m: nat)
    requires 0 < n <= |turns| && Kept(turns[n - 1], who) && m == |Positions(turns, who, n - 1)|
    ensures |Positions(turns, who, n)| == m + 1 <= |Positions(turns, who, |turns|)| == |Selected(turns, who)|
    ensures Positions(turns, who, |turns|)[m] == n - 1 && Selected(turns, who)[m] == turns[n - 1]
  {
    PositionsGrow(turns, who, n, |turns|);
    assert Positions(turns, who, n)[m] == n - 1;
  }

  lemma StepMirrors(table: seq<Exchange>, turns: seq<Turn>, who: nat -> bool, at: seq<nat>, n: nat, m: nat,
                    big: Matching, small: Matching)
    requires n < |turns| && Kept(turns[n], who) && m < |at| && at[m] == n
    requires Mirrors(turns, who, at, big, small)
    ensures Mirrors(turns, who, at, Step(table, big, turns[n], n), Step(table, small, turns[n], m))
  {
    AnswerMirrors(table, turns, who, at, n, m, big, small);
    RegisterMirrors(table, turns[n], who, at, n, m,
                    Answer(table, big, turns[n], n).open, Answer(table, small, turns[n], m).open);
  }

  /** A message of someone else changes nothing `who` can see. */
  lemma OthersAreInvisible(table: seq<Exchange>, turns: seq<Turn>, who: nat -> bool, at: seq<nat>, n: nat,
                           big: Matching, small: Matching)
    requires n < |turns| && !Kept(turns[n], who)
    requires Mirrors(turns, who, at, big, small)
    ensures Mirrors(turns, who, at, Step(table, big, turns[n], n), small)
  {
    var turn := turns[n];
    if Directed(turn) {
      BestIsCandidate(table, big.open, turn);
      var after := Answer(table, big, turn, n);
      var best := Best(table, big.open, turn, |table|);
      if best.Some? {
        var key := Key(turn.peer, best.value.exchange, !turn.inbound.value);
        ElsewhereMirrors(who, at, big.open, small.open, key, after.open[key]);
        TiesOfOneMore(turns, big.ties, who, after.ties[|big.ties|]);
      }
      var e := Opens(table, turn.command);
      if e.Some? {
        var key := Key(turn.peer, e.value, turn.inbound.value);
        ElsewhereMirrors(who, at, after.open, small.open, key, Register(table, after.open, turn, n)[key]);
      }
    }
  }

  lemma ElsewhereMirrors(who: nat -> bool, at: seq<nat>, big: Pendings, small: Pendings, key: Key, list: seq<Pending>)
    requires OpenMirrors(who, at, big, small) && !who(key.peer)
    ensures OpenMirrors(who, at, big[key := list], small)
  {
  }

  lemma {:induction false} RunMirrorsAt(table: seq<Exchange>, turns: seq<Turn>, who: nat -> bool, n: nat, m: nat,
                                        at: seq<nat>, sub: seq<Turn>)
    requires n <= |turns| && at == Positions(turns, who, |turns|) && sub == Selected(turns, who)
    requires m == |Positions(turns, who, n)| <= |sub|
    ensures Mirrors(turns, who, at, Run(table, turns, n), Run(table, sub, m))
  {
    if n == 0 {
      NothingMirrors(turns, who, at, Run(table, turns, n), Run(table, sub, m));
    } else if Kept(turns[n - 1], who) {
      RunMirrorsAt(table, turns, who, n - 1, m - 1, at, sub);
      KeptIsNext(turns, who, n, m - 1);
      StepMirrors(table, turns, who, at, n - 1, m - 1, Run(table, turns, n - 1), Run(table, sub, m - 1));
    } else {
      RunMirrorsAt(table, turns, who, n - 1, m, at, sub);
      OthersAreInvisible(table, turns, who, at, n - 1, Run(table, turns, n - 1), Run(table, sub, m));
    }
  }

  lemma RunMirrors(table: seq<Exchange>, turns: seq<Turn>, who: nat -> bool, n: nat)
    requires n <= |turns|
    ensures var m := |Positions(turns, who, n)|;
            && m <= |Selected(turns, who)|
            && Positions(turns, who, n) <= Positions(turns, who, |turns|)
            && Mirrors(turns, who, Positions(turns, who, |turns|), Run(table, turns, n),
                       Run(table, Selected(turns, who), m))
  {
    PositionsGrow(turns, who, n, |turns|);
    RunMirrorsAt(table, turns, who, n, |Positions(turns, who, n)|, Positions(turns, who, |turns|),
                 Selected(turns, who));
  }

  lemma NothingMirrors(turns: seq<Turn>, who: nat -> bool, at: seq<nat>, big: Matching, small: Matching)
    requires big.open.Keys == {} && small.open.Keys == {} && |big.ties| == 0 && |small.ties| == 0
    ensures Mirrors(turns, who, at, big, small)
  {
  }

  lemma {:induction false} PositionsGrow(turns: seq<Turn>, who: nat -> bool, n: nat, m: nat)
    requires n <= m <= |turns|
    ensures Positions(turns, who, n) <= Positions(turns, who, m)
  {
    if n < m {
      PositionsGrow(turns, who, n, m - 1);
    }
  }

  /** For any set of peers: the ties found for them in the whole stream are, with
      positions renamed, exactly the ties found in their own messages alone. */
  lemma PeersDoNotInterfere(table: seq<Exchange>, turns: seq<Turn>, who: nat -> bool)
    ensures TiesOf(turns, RunAll(table, turns), who)
         == RenamedTies(RunAll(table, Selected(turns, who)), Positions(turns, who, |turns|))
    ensures forall tie | tie in RunAll(table, Selected(turns, who)) ::
              tie.request < |Positions(turns, who, |turns|)| && tie.reply < |Positions(turns, who, |turns|)|
  {
    RunMirrors(table, turns, who, |turns|);
    var sub := Selected(turns, who);
    RunIsSound(table, sub, |sub|);
    assert forall i | 0 <= i < |RunAll(table, sub)| :: TieOk(table, sub, RunAll(table, sub)[i]);
  }

  lemma {:induction false} EveryTieIsSomeones(turns: seq<Turn>, ties: seq<Tie>)
    requires forall i | 0 <= i < |ties| :: ties[i].reply < |turns|
    ensures TiesOf(turns, ties, Anyone) == ties
  {
    if ties != [] {
      EveryTieIsSomeones(turns, ties[..|ties| - 1]);
    }
  }

  /** Deleting the turns that have no peer or no direction changes nothing but
      positions. */
  lemma UndirectedTurnsDoNotMatter(table: seq<Exchange>, turns: seq<Turn>)
    ensures RunAll(table, turns)
            == RenamedTies(RunAll(table, Selected(turns, Anyone)), Positions(turns, Anyone, |turns|))
  {
    RunIsSound(table, turns, |turns|);
    assert forall i | 0 <= i < |RunAll(table, turns)| :: TieOk(table, turns, RunAll(table, turns)[i]);
    PeersDoNotInterfere(table, turns, Anyone);
    EveryTieIsSomeones(turns, RunAll(table, turns));
  }
}
