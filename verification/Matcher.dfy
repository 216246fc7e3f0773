/** The windowed matcher of one page: a search over lists of open requests, with a
    hash match preferred to age, and what it does to the lists. */
module Matcher {
  import opened Basics
  import opened Exchanges

  const NO_PEER := 0xFFFF_FFFF

  /** The longest an open list may get. */
  const LOCAL_OPEN := 32

  datatype Turn = Turn(peer: nat, command: string, inbound: Option<bool>, timestamp: nat, keys: seq<nat>)

  datatype Tie = Tie(request: nat, reply: nat, elapsedMs: nat)

  datatype Pending = Pending(position: nat, timestamp: nat, wanted: seq<nat>, keyed: bool, replies: nat)

  /** The best candidate so far, with the time its request was sent. */
  datatype Pick = Pick(exchange: nat, slot: nat, hashed: bool, at: nat)

  type Pendings = map<Key, seq<Pending>>

  datatype Matching = Matching(open: Pendings, ties: seq<Tie>)

  predicate Directed(turn: Turn) {
    turn.inbound.Some? && turn.peer != NO_PEER
  }

  function PendingAt(open: Pendings, key: Key): seq<Pending> {
    if key in open then open[key] else []
  }

  ghost predicate Ascending(s: seq<nat>) {
    forall i, j | 0 <= i < j < |s| :: s[i] < s[j]
  }

  function BinarySearch(sorted: seq<nat>, key: nat): (found: bool)
    requires Ascending(sorted)
    ensures found <==> key in sorted
  {
    if sorted == [] then false
    else
      var mid := |sorted| / 2;
      assert sorted == sorted[..mid] + [sorted[mid]] + sorted[mid + 1..];
      if key == sorted[mid] then true
      else if key < sorted[mid] then BinarySearch(sorted[..mid], key)
      else BinarySearch(sorted[mid + 1..], key)
  }

  /** What is left of `wanted` once `delivered` has arrived. */
  function Without(wanted: seq<nat>, delivered: seq<nat>): (left: seq<nat>)
    ensures forall k :: k in left <==> k in wanted && k !in delivered
    ensures |left| <= |wanted|
    ensures (exists k :: k in wanted && k in delivered) ==> |left| < |wanted|
    ensures (forall k | k in wanted :: k !in delivered) ==> left == wanted
  {
    if wanted == [] then []
    else
      var rest := Without(wanted[1..], delivered);
      assert wanted == [wanted[0]] + wanted[1..];
      if wanted[0] in delivered then rest else [wanted[0]] + rest
  }

  // ---------------------------------------------------------------- choosing

  predicate Hashes(request: Pending, turn: Turn) {
    request.keyed && exists k | k in turn.keys :: k in request.wanted
  }

  predicate Eligible(windowMs: nat, request: Pending, turn: Turn) {
    && Elapsed(turn.timestamp, request.timestamp) <= windowMs
    && (Hashes(request, turn) || !request.keyed || (turn.keys == [] && request.wanted != []))
  }

  predicate Beats(hashed: bool, at: nat, best: Option<Pick>) {
    || best.None?
    || (hashed && !best.value.hashed)
    || (hashed == best.value.hashed && at < best.value.at)
  }

  /** The best candidate once the request in `slot` has been looked at too. */
  function Preferred(windowMs: nat, exchange: nat, slot: nat, request: Pending, turn: Turn,
                     sofar: Option<Pick>): Option<Pick> {
    var hashed := Hashes(request, turn);
    if Eligible(windowMs, request, turn) && Beats(hashed, request.timestamp, sofar)
    then Some(Pick(exchange, slot, hashed, request.timestamp))
    else sofar
  }

  /** The best candidate among the first `n` requests of one list. */
  function BestInList(windowMs: nat, exchange: nat, list: seq<Pending>, turn: Turn, best: Option<Pick>,
                      n: nat): Option<Pick>
    requires n <= |list|
  {
    if n == 0 then best
    else Preferred(windowMs, exchange, n - 1, list[n - 1], turn,
                   BestInList(windowMs, exchange, list, turn, best, n - 1))
  }

  /** The list a turn would answer from, in exchange `e`; empty if it answers
      nothing there. */
  function Answerable(table: seq<Exchange>, open: Pendings, turn: Turn, e: nat): seq<Pending>
    requires Directed(turn) && e < |table|
  {
    if turn.command in table[e].replies then PendingAt(open, Key(turn.peer, e, !turn.inbound.value)) else []
  }

  /** The best candidate among the first `n` exchanges. */
  function Best(table: seq<Exchange>, open: Pendings, turn: Turn, n: nat): Option<Pick>
    requires Directed(turn) && n <= |table|
  {
    if n == 0 then None
    else
      var list := Answerable(table, open, turn, n - 1);
      BestInList(table[n - 1].windowMs, n - 1, list, turn, Best(table, open, turn, n - 1), |list|)
  }

  ghost predicate Candidate(table: seq<Exchange>, open: Pendings, turn: Turn, e: nat, slot: nat)
    requires Directed(turn)
  {
    && e < |table|
    && slot < |Answerable(table, open, turn, e)|
    && Eligible(table[e].windowMs, Answerable(table, open, turn, e)[slot], turn)
  }

  /** `pick` describes a candidate truthfully. */
  ghost predicate IsCandidate(table: seq<Exchange>, open: Pendings, turn: Turn, pick: Pick)
    requires Directed(turn)
  {
    && Candidate(table, open, turn, pick.exchange, pick.slot)
    && var request := Answerable(table, open, turn, pick.exchange)[pick.slot];
       pick.hashed == Hashes(request, turn) && pick.at == request.timestamp
  }

  /** No candidate is preferred to `pick`: not by naming a hash where it does
      not, nor by being older at the same standing, nor by coming earlier in the
      table at the same age. */
  ghost predicate Unbeaten(table: seq<Exchange>, open: Pendings, turn: Turn, pick: Pick, n: nat, m: nat)
    requires Directed(turn)
  {
    forall e: nat, s: nat | Candidate(table, open, turn, e, s) && (e < n || (e == n && s < m)) ::
      var request := Answerable(table, open, turn, e)[s];
      var hashed := Hashes(request, turn);
      || (pick.hashed && !hashed)
      || (pick.hashed == hashed && pick.at < request.timestamp)
      || (pick.hashed == hashed && pick.at == request.timestamp &&
          (pick.exchange < e || (pick.exchange == e && pick.slot <= s)))
  }

  ghost predicate BestUpTo(table: seq<Exchange>, open: Pendings, turn: Turn, best: Option<Pick>, n: nat, m: nat)
    requires Directed(turn)
  {
    match best
    case None => forall e: nat, s: nat | Candidate(table, open, turn, e, s) :: n < e || (n == e && m <= s)
    case Some(pick) =>
      && (pick.exchange < n || (pick.exchange == n && pick.slot < m))
      && IsCandidate(table, open, turn, pick)
      && Unbeaten(table, open, turn, pick, n, m)
  }

  lemma OneMoreIsBest(table: seq<Exchange>, open: Pendings, turn: Turn, sofar: Option<Pick>, e: nat, m: nat)
    requires Directed(turn) && e < |table| && m < |Answerable(table, open, turn, e)|
    requires BestUpTo(table, open, turn, sofar, e, m)
    ensures BestUpTo(table, open, turn,
                     Preferred(table[e].windowMs, e, m, Answerable(table, open, turn, e)[m], turn, sofar), e, m + 1)
  {
    var request := Answerable(table, open, turn, e)[m];
    assert Eligible(table[e].windowMs, request, turn) <==> Candidate(table, open, turn, e, m);
  }

  lemma {:induction false} BestInListIsBest(table: seq<Exchange>, open: Pendings, turn: Turn, best: Option<Pick>,
                                            e: nat, m: nat, list: seq<Pending>, picked: Option<Pick>)
    requires Directed(turn) && e < |table| && list == Answerable(table, open, turn, e) && m <= |list|
    requires BestUpTo(table, open, turn, best, e, 0)
    requires picked == BestInList(table[e].windowMs, e, list, turn, best, m)
    ensures BestUpTo(table, open, turn, picked, e, m)
  {
    if m > 0 {
      var sofar := BestInList(table[e].windowMs, e, list, turn, best, m - 1);
      BestInListIsBest(table, open, turn, best, e, m - 1, list, sofar);
      OneMoreIsBest(table, open, turn, sofar, e, m - 1);
    }
  }

  lemma ListIsDone(table: seq<Exchange>, open: Pendings, turn: Turn, best: Option<Pick>, e: nat)
    requires Directed(turn) && e < |table| && BestUpTo(table, open, turn, best, e, |Answerable(table, open, turn, e)|)
    ensures BestUpTo(table, open, turn, best, e + 1, 0)
  {
  }

  lemma OneMoreExchange(table: seq<Exchange>, open: Pendings, turn: Turn, best: Option<Pick>, e: nat,
                        picked: Option<Pick>)
    requires Directed(turn) && e < |table| && BestUpTo(table, open, turn, best, e, 0)
    requires var list := Answerable(table, open, turn, e);
             picked == BestInList(table[e].windowMs, e, list, turn, best, |list|)
    ensures BestUpTo(table, open, turn, picked, e + 1, 0)
  {
    var list := Answerable(table, open, turn, e);
    BestInListIsBest(table, open, turn, best, e, |list|, list, picked);
    ListIsDone(table, open, turn, picked, e);
  }

  /** The chosen request is the maximum over every eligible open one, by (hash
      match, then age); nothing is chosen only when nothing is eligible. */
  lemma {:induction false} BestIsBest(table: seq<Exchange>, open: Pendings, turn: Turn, n: nat)
    requires Directed(turn) && n <= |table|
    ensures BestUpTo(table, open, turn, Best(table, open, turn, n), n, 0)
  {
    if n > 0 {
      BestIsBest(table, open, turn, n - 1);
      OneMoreExchange(table, open, turn, Best(table, open, turn, n - 1), n - 1, Best(table, open, turn, n));
    }
  }

  lemma BestIsCandidate(table: seq<Exchange>, open: Pendings, turn: Turn)
    requires Directed(turn)
    ensures var best := Best(table, open, turn, |table|);
            best.Some? ==> IsCandidate(table, open, turn, best.value)
  {
    BestIsBest(table, open, turn, |table|);
  }

  // ---------------------------------------------------------------- one turn

  function Removed(list: seq<Pending>, slot: nat): seq<Pending>
    requires slot < |list|
  {
    list[..slot] + list[slot + 1..]
  }

  /** The list after its `slot` answered: shrunk by what arrived, and closed by
      the answer when the exchange is single-reply or nothing is left to come. */
  function Answered(list: seq<Pending>, slot: nat, hashed: bool, turn: Turn, multi: bool): seq<Pending>
    requires slot < |list|
  {
    var request := list[slot];
    var wanted := if hashed then Without(request.wanted, turn.keys) else request.wanted;
    if !multi || (request.keyed && wanted == [])
    then Removed(list, slot)
    else list[slot := request.(wanted := wanted, replies := request.replies + 1)]
  }

  function Answer(table: seq<Exchange>, st: Matching, turn: Turn, position: nat): Matching
    requires Directed(turn)
  {
    BestIsCandidate(table, st.open, turn);
    match Best(table, st.open, turn, |table|)
    case None => st
    case Some(pick) =>
      var key := Key(turn.peer, pick.exchange, !turn.inbound.value);
      var list := PendingAt(st.open, key);
      Matching(
        st.open[key := Answered(list, pick.slot, pick.hashed, turn, table[pick.exchange].multi)],
        st.ties + [Tie(list[pick.slot].position, position, Elapsed(turn.timestamp, list[pick.slot].timestamp))])
  }

  /** Past the locality bound the oldest request is forgotten. */
  function Pushed(list: seq<Pending>, request: Pending): seq<Pending> {
    (if |list| >= LOCAL_OPEN then list[1..] else list) + [request]
  }

  function Register(table: seq<Exchange>, open: Pendings, turn: Turn, position: nat): Pendings
    requires Directed(turn)
  {
    match Opens(table, turn.command)
    case None => open
    case Some(e) =>
      var key := Key(turn.peer, e, turn.inbound.value);
      open[key := Pushed(PendingAt(open, key), Pending(position, turn.timestamp, turn.keys, turn.keys != [], 0))]
  }

  function Step(table: seq<Exchange>, st: Matching, turn: Turn, position: nat): Matching {
    if !Directed(turn) then st
    else
      var answered := Answer(table, st, turn, position);
      answered.(open := Register(table, answered.open, turn, position))
  }

  /** The matcher after the first `n` turns. */
  function Run(table: seq<Exchange>, turns: seq<Turn>, n: nat): Matching
    requires n <= |turns|
  {
    if n == 0 then Matching(map[], [])
    else Step(table, Run(table, turns, n - 1), turns[n - 1], n - 1)
  }

  /** What the matcher finds in a whole window. */
  function RunAll(table: seq<Exchange>, turns: seq<Turn>): seq<Tie> {
    Run(table, turns, |turns|).ties
  }

  // -------------------------------------------------------------- the matcher

  ghost predicate KeysSorted(turns: seq<Turn>) {
    forall i | 0 <= i < |turns| :: Ascending(turns[i].keys)
  }

  ghost predicate WantedSorted(open: Pendings) {
    forall key | key in open :: forall i | 0 <= i < |open[key]| :: Ascending(open[key][i].wanted)
  }

  lemma {:induction false} WithoutKeepsOrder(wanted: seq<nat>, delivered: seq<nat>)
    requires Ascending(wanted)
    ensures Ascending(Without(wanted, delivered))
  {
    if wanted != [] {
      var rest := Without(wanted[1..], delivered);
      WithoutKeepsOrder(wanted[1..], delivered);
      forall i | 0 <= i < |rest| ensures wanted[0] < rest[i] {
        assert rest[i] in rest;
        var j :| 0 <= j < |wanted[1..]| && wanted[1..][j] == rest[i];
        assert wanted[j + 1] == rest[i];
      }
    }
  }

  /** Every list the matcher searches by bisection is in order. */
  lemma {:induction false} WantedStaysSorted(table: seq<Exchange>, turns: seq<Turn>, n: nat)
    requires KeysSorted(turns) && n <= |turns|
    ensures WantedSorted(Run(table, turns, n).open)
  {
    if n > 0 {
      WantedStaysSorted(table, turns, n - 1);
      assert Ascending(turns[n - 1].keys);
      StepKeepsOrder(table, Run(table, turns, n - 1), turns[n - 1], n - 1);
    }
  }

  lemma StepKeepsOrder(table: seq<Exchange>, st: Matching, turn: Turn, position: nat)
    requires WantedSorted(st.open) && Ascending(turn.keys)
    ensures WantedSorted(Step(table, st, turn, position).open)
  {
    if Directed(turn) {
      AnswerKeepsOrder(table, st, turn, position);
      RegisterKeepsOrder(table, Answer(table, st, turn, position).open, turn, position);
    }
  }

  lemma RegisterKeepsOrder(table: seq<Exchange>, open: Pendings, turn: Turn, position: nat)
    requires Directed(turn) && WantedSorted(open) && Ascending(turn.keys)
    ensures WantedSorted(Register(table, open, turn, position))
  {
  }

  lemma AnswerKeepsOrder(table: seq<Exchange>, st: Matching, turn: Turn, position: nat)
    requires Directed(turn) && WantedSorted(st.open)
    ensures WantedSorted(Answer(table, st, turn, position).open)
  {
    BestIsCandidate(table, st.open, turn);
    var best := Best(table, st.open, turn, |table|);
    if best.Some? {
      var list := Answerable(table, st.open, turn, best.value.exchange);
      WithoutKeepsOrder(list[best.value.slot].wanted, turn.keys);
    }
  }

  /** The matcher's loop over a page, computing what `RunAll` specifies. Bisecting
      needs the sorted keys that messages are decoded with. */
  method MatchTurns(table: seq<Exchange>, turns: seq<Turn>) returns (ties: seq<Tie>)
    requires KeysSorted(turns)
    ensures ties == RunAll(table, turns)
  {
    var open: Pendings := map[];
    ties := [];
    for position := 0 to |turns|
      invariant Matching(open, ties) == Run(table, turns, position)
    {
      var turn := turns[position];
      if turn.inbound.None? || turn.peer == NO_PEER {
        continue;
      }

      // Answering comes first, so that no turn can tie to itself.
      WantedStaysSorted(table, turns, position);
      open, ties := AnswerTurn(table, open, ties, turn, position);

      var request := Opens(table, turn.command);
      if request.Some? {
        var key := Key(turn.peer, request.value, turn.inbound.value);
        var list := if key in open then open[key] else [];
        if |list| >= LOCAL_OPEN {
          list := list[1..];
        }
        list := list + [Pending(position, turn.timestamp, turn.keys, turn.keys != [], 0)];
        open := open[key := list];
      }
    }
  }

  /** The reply half of the loop body. */
  method AnswerTurn(table: seq<Exchange>, open: Pendings, ties: seq<Tie>, turn: Turn, position: nat)
    returns (open': Pendings, ties': seq<Tie>)
    requires Directed(turn) && WantedSorted(open)
    ensures Matching(open', ties') == Answer(table, Matching(open, ties), turn, position)
  {
    open', ties' := open, ties;
    var best := FindBest(table, open, turn);
    BestIsCandidate(table, open, turn);
    if best.Some? {
      var Pick(index, slot, hashed, _) := best.value;
      var key := Key(turn.peer, index, !turn.inbound.value);
      var list := open[key];
      var request := list[slot];
      ties' := ties + [Tie(request.position, position, Elapsed(turn.timestamp, request.timestamp))];
      request := request.(replies := request.replies + 1);
      if hashed {
        request := request.(wanted := Without(request.wanted, turn.keys));
      }
      if !table[index].multi || (request.keyed && request.wanted == []) {
        list := list[..slot] + list[slot + 1..];
      } else {
        list := list[slot := request];
      }
      open' := open[key := list];
    }
  }

  /** The selection loop of `MatchTurns`. */
  method FindBest(table: seq<Exchange>, open: Pendings, turn: Turn) returns (best: Option<Pick>)
    requires Directed(turn) && WantedSorted(open)
    ensures best == Best(table, open, turn, |table|)
  {
    best := None;
    for index := 0 to |table|
      invariant best == Best(table, open, turn, index)
    {
      if turn.command !in table[index].replies {
        continue;
      }
      var key := Key(turn.peer, index, !turn.inbound.value);
      if key !in open {
        continue;
      }
      var pending := open[key];
      var before := best;
      for slot := 0 to |pending|
        invariant best == BestInList(table[index].windowMs, index, pending, turn, before, slot)
      {
        var request := pending[slot];
        if Elapsed(turn.timestamp, request.timestamp) > table[index].windowMs {
          continue;
        }
        var hashed := request.keyed && turn.keys != [] && AnyFound(turn.keys, request.wanted);
        // Without a hash match, a pair in which both ends name keys is no pair.
        if !hashed && request.keyed && turn.keys != [] {
          continue;
        }
        if !hashed && request.keyed && request.wanted == [] {
          continue;
        }
        var better := match best
          case None => true
          case Some(other) =>
            (hashed && !other.hashed) || (hashed == other.hashed && request.timestamp < other.at);
        if better {
          best := Some(Pick(index, slot, hashed, request.timestamp));
        }
      }
    }
  }

  function AnyFound(keys: seq<nat>, wanted: seq<nat>): (any: bool)
    requires Ascending(wanted)
    ensures any <==> exists k | k in keys :: k in wanted
  {
    keys != [] && (BinarySearch(wanted, keys[0]) || AnyFound(keys[1..], wanted))
  }
}
