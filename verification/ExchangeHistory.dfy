/** The tracker and its account told from the history alone: what was asked, what
    was answered, what was swept. No map of open requests, no running figures. */
module ExchangeHistory {
  import opened Basics
  import opened Exchanges
  import opened Tracking
  import opened Ledger
  import S = TrackerSoundness

  /** The message asks what `key` files. */
  predicate Asks(table: seq<Exchange>, message: Message, key: Key) {
    message.peer == key.peer && message.inbound == key.inbound && Opens(table, message.command) == Some(key.exchange)
  }

  /** The last event of the history is a request of `key` that the cap did not
      turn away. */
  ghost predicate JustAsked(table: seq<Exchange>, ops: seq<Op>, key: Key) {
    && ops != []
    && var front, last := ops[..|ops| - 1], ops[|ops| - 1];
    && last.Heard? && Asks(table, last.message, key)
    && Run(table, ops).slots.dropped == Run(table, front).slots.dropped
  }

  /** When `key` was last asked. */
  ghost function AskedAt(table: seq<Exchange>, ops: seq<Op>, key: Key): Option<nat> {
    if ops == [] then None
    else if JustAsked(table, ops, key) then Some(ops[|ops| - 1].message.timestamp)
    else AskedAt(table, ops[..|ops| - 1], key)
  }

  ghost function Since(table: seq<Exchange>, ops: seq<Op>, key: Key): nat {
    match AskedAt(table, ops, key)
    case None => 0
    case Some(at) => at
  }

  /** Asked first, or as early and earlier in the table. */
  ghost predicate Comes(table: seq<Exchange>, ops: seq<Op>, key: Key, other: Key) {
    var mine, theirs := Since(table, ops, key), Since(table, ops, other);
    mine < theirs || (mine == theirs && key.exchange <= other.exchange)
  }

  /** Whether a sweep has come, since it was last asked, when its window was over. */
  ghost predicate TimedOut(table: seq<Exchange>, ops: seq<Op>, key: Key) {
    && ops != [] && !JustAsked(table, ops, key)
    && var front, last := ops[..|ops| - 1], ops[|ops| - 1];
    || TimedOut(table, front, key)
    || (last.Sweep? && Overdue(table, front, key, last.now))
  }

  ghost predicate Overdue(table: seq<Exchange>, ops: seq<Op>, key: Key, now: nat) {
    var asked := AskedAt(table, ops, key);
    asked.Some? && key.exchange < |table| && Elapsed(now, asked.value) > table[key.exchange].windowMs
  }

  /** How many answers it has had since. */
  ghost function AnswersSince(table: seq<Exchange>, ops: seq<Op>, key: Key): nat
    decreases |ops|, 0
  {
    if ops == [] || JustAsked(table, ops, key) then 0
    else
      var front, last := ops[..|ops| - 1], ops[|ops| - 1];
      AnswersSince(table, front, key) + if last.Heard? && IsAnswer(table, front, last.message, key) then 1 else 0
  }

  /** Asked, not timed out, and with an answer still to come. */
  ghost predicate Waits(table: seq<Exchange>, ops: seq<Op>, key: Key)
    decreases |ops|, 1
  {
    && key.exchange < |table| && AskedAt(table, ops, key).Some? && !TimedOut(table, ops, key)
    && (table[key.exchange].multi || AnswersSince(table, ops, key) == 0)
  }

  /** The message is one that the request of `key` waits for. */
  ghost predicate Awaited(table: seq<Exchange>, ops: seq<Op>, message: Message, key: Key)
    decreases |ops|, 2
  {
    && Waits(table, ops, key)
    && key.peer == message.peer && key.inbound != message.inbound
    && message.command in table[key.exchange].replies
    && Elapsed(message.timestamp, Since(table, ops, key)) <= table[key.exchange].windowMs
  }

  /** The message answers `key`: of those that wait for it, the one asked first, or
      the first in the table among those asked at once. */
  ghost predicate IsAnswer(table: seq<Exchange>, ops: seq<Op>, message: Message, key: Key)
    decreases |ops|, 3
  {
    && Awaited(table, ops, message, key)
    && forall other: Key | Awaited(table, ops, message, other) :: Comes(table, ops, key, other)
  }

  // ---------------------------------------------------------- the open requests

  /** The tracker's map holds a key exactly while it waits, with when it was asked
      and how often it was answered. */
  ghost predicate SlotTells(table: seq<Exchange>, ops: seq<Op>, open: OpenRequests, key: Key) {
    if Waits(table, ops, key)
    then key in open && open[key] == Open(0, Since(table, ops, key), AnswersSince(table, ops, key))
    else key !in open
  }

  ghost predicate SlotsTell(table: seq<Exchange>, ops: seq<Op>, open: OpenRequests) {
    forall key: Key :: SlotTells(table, ops, open, key)
  }

  lemma AwaitedMeans(table: seq<Exchange>, ops: seq<Op>, open: OpenRequests, message: Message, key: Key)
    requires SlotTells(table, ops, open, key)
    ensures Awaited(table, ops, message, key) <==>
            && key.exchange < |table| && key == Key(message.peer, key.exchange, !message.inbound)
            && CanAnswer(table, open, message, key.exchange)
    ensures Awaited(table, ops, message, key) ==> open[key].timestamp == Since(table, ops, key)
  {
  }

  lemma {:induction false} FoundComesFirst(table: seq<Exchange>, ops: seq<Op>, open: OpenRequests, message: Message,
                                           other: Key)
    requires SlotsTell(table, ops, open) && Awaited(table, ops, message, other)
    ensures var best := BestOpen(table, open, message, |table|);
            best.Some? && Awaited(table, ops, message, best.value) && Comes(table, ops, best.value, other)
  {
    AwaitedMeans(table, ops, open, message, other);
    S.BestIsOldest(table, open, message, |table|, other.exchange);
    AwaitedMeans(table, ops, open, message, BestOpen(table, open, message, |table|).value);
  }

  /** A message answers a key exactly when the search finds it. */
  lemma {:induction false} SearchAnswers(table: seq<Exchange>, ops: seq<Op>, open: OpenRequests, message: Message,
                                         key: Key)
    requires SlotsTell(table, ops, open)
    ensures IsAnswer(table, ops, message, key) <==> BestOpen(table, open, message, |table|) == Some(key)
  {
    var best := BestOpen(table, open, message, |table|);
    if best.Some? {
      AwaitedMeans(table, ops, open, message, best.value);
      forall other: Key | Awaited(table, ops, message, other) ensures Comes(table, ops, best.value, other) {
        FoundComesFirst(table, ops, open, message, other);
      }
    }
    if IsAnswer(table, ops, message, key) {
      FoundComesFirst(table, ops, open, message, key);
      AwaitedMeans(table, ops, open, message, key);
      assert Comes(table, ops, key, best.value);
    }
  }

  lemma {:induction false} AskedWhenOpened(table: seq<Exchange>, front: seq<Op>, message: Message, key: Key)
    ensures var b := Run(table, front);
            var asked := Opened(table, Answer(table, b.slots.open, message), message);
            JustAsked(table, front + [Heard(message)], key) <==>
              asked.Some? && key == Key(message.peer, asked.value, message.inbound)
  {
    RunOneMore(table, front, Heard(message));
    assert (front + [Heard(message)])[..|front|] == front;
  }

  /** A message more, for a key it does not ask. */
  lemma {:induction false} HeardElsewhere(table: seq<Exchange>, front: seq<Op>, message: Message, key: Key)
    requires !JustAsked(table, front + [Heard(message)], key)
    ensures var ops := front + [Heard(message)];
            && AskedAt(table, ops, key) == AskedAt(table, front, key)
            && (TimedOut(table, ops, key) <==> TimedOut(table, front, key))
            && AnswersSince(table, ops, key)
               == AnswersSince(table, front, key) + if IsAnswer(table, front, message, key) then 1 else 0
  {
    assert (front + [Heard(message)])[..|front|] == front;
  }

  lemma {:induction false} JustAskedWaits(table: seq<Exchange>, ops: seq<Op>, key: Key)
    requires JustAsked(table, ops, key)
    ensures Waits(table, ops, key) && AnswersSince(table, ops, key) == 0
    ensures Since(table, ops, key) == ops[|ops| - 1].message.timestamp
  {
  }

  /** Opening a request touches its own key alone. */
  lemma OpensOneKey(table: seq<Exchange>, st: Slots, message: Message, key: Key)
    ensures var answered, after := Answer(table, st.open, message), After(table, st, message, 0).open;
            var asked := Opened(table, answered, message);
            if asked.Some? && key == Key(message.peer, asked.value, message.inbound)
            then key in after && after[key] == Open(0, message.timestamp, 0)
            else (key in after <==> key in answered) && (key in after ==> after[key] == answered[key])
  {
  }

  lemma {:induction false} HeardTells(table: seq<Exchange>, front: seq<Op>, message: Message, key: Key)
    requires SlotsTell(table, front, Run(table, front).slots.open)
    ensures SlotTells(table, front + [Heard(message)], After(table, Run(table, front).slots, message, 0).open, key)
  {
    var st, ops := Run(table, front).slots, front + [Heard(message)];
    AskedWhenOpened(table, front, message, key);
    OpensOneKey(table, st, message, key);
    if JustAsked(table, ops, key) {
      JustAskedWaits(table, ops, key);
    } else {
      assert SlotTells(table, front, st.open, key);
      SearchAnswers(table, front, st.open, message, key);
      HeardElsewhere(table, front, message, key);
      AnsweredTells(table, front, st.open, message, key);
      WaitsOn(table, front, message, key);
    }
  }

  /** A key that is not asked waits on if it waited, and the answer, if it had one,
      may have others after it. */
  lemma {:induction false} WaitsOn(table: seq<Exchange>, front: seq<Op>, message: Message, key: Key)
    requires !JustAsked(table, front + [Heard(message)], key)
    ensures var ops := front + [Heard(message)];
            && Since(table, ops, key) == Since(table, front, key)
            && (Waits(table, ops, key) <==>
                  Waits(table, front, key) && (table[key.exchange].multi || AnswersSince(table, ops, key) == 0))
  {
    HeardElsewhere(table, front, message, key);
  }

  /** What the answer leaves under a key. */
  lemma {:induction false} AnsweredTells(table: seq<Exchange>, front: seq<Op>, open: OpenRequests, message: Message,
                                         key: Key)
    requires SlotTells(table, front, open, key)
    requires IsAnswer(table, front, message, key) <==> BestOpen(table, open, message, |table|) == Some(key)
    ensures var answered := Answer(table, open, message);
            var answers := AnswersSince(table, front, key) + if IsAnswer(table, front, message, key) then 1 else 0;
            if Waits(table, front, key) && (table[key.exchange].multi || answers == 0)
            then key in answered && answered[key] == Open(0, Since(table, front, key), answers)
            else key !in answered
  {
  }

  lemma {:induction false} SweptHistory(table: seq<Exchange>, front: seq<Op>, now: nat, key: Key)
    ensures var ops := front + [Sweep(now)];
            && AskedAt(table, ops, key) == AskedAt(table, front, key)
            && (TimedOut(table, ops, key) <==> TimedOut(table, front, key) || Overdue(table, front, key, now))
            && AnswersSince(table, ops, key) == AnswersSince(table, front, key)
  {
    assert (front + [Sweep(now)])[..|front|] == front;
  }

  lemma {:induction false} SweepTells(table: seq<Exchange>, front: seq<Op>, now: nat, key: Key)
    requires SlotTells(table, front, Run(table, front).slots.open, key)
    ensures SlotTells(table, front + [Sweep(now)], Swept(table, Run(table, front).slots.open, now), key)
  {
    SweptHistory(table, front, now, key);
    assert Waits(table, front + [Sweep(now)], key) <==> Waits(table, front, key) && !Overdue(table, front, key, now);
  }

  /** In every reachable state, after any messages and sweeps, the cap reached or
      not: a key is open exactly while it waits, and its slot says when it was
      asked and how often it has been answered. */
  lemma {:induction false} OpenExactlyWhileWaiting(table: seq<Exchange>, ops: seq<Op>)
    ensures SlotsTell(table, ops, Run(table, ops).slots.open)
  {
    if ops != [] {
      var front, last := ops[..|ops| - 1], ops[|ops| - 1];
      OpenExactlyWhileWaiting(table, front);
      assert ops == front + [last];
      forall key: Key ensures SlotTells(table, ops, Run(table, ops).slots.open, key) {
        match last
        case Heard(message) => HeardTells(table, front, message, key);
        case Sweep(now) => SweepTells(table, front, now, key);
      }
    }
  }

  // -------------------------------------------------------- what a message finds

  /** What a message answers is the key it answers in the history, timed from when
      that was asked, and first exactly when nothing had answered it since. */
  lemma {:induction false} AnswerTellsHistory(table: seq<Exchange>, ops: seq<Op>, message: Message, key: Key)
    ensures var seen := Observation(table, Run(table, ops).slots, message);
            if IsAnswer(table, ops, message, key)
            then && seen.answered == Some(Reply(key.exchange, 0, Elapsed(message.timestamp, Since(table, ops, key))))
                 && (seen.firstReply <==> AnswersSince(table, ops, key) == 0)
            else seen.answered.Some? ==> key != Key(message.peer, seen.answered.value.exchange, !message.inbound)
  {
    var open := Run(table, ops).slots.open;
    OpenExactlyWhileWaiting(table, ops);
    SearchAnswers(table, ops, open, message, key);
    assert SlotTells(table, ops, open, key);
  }

  /** Waits, and has had no answer at all. */
  ghost predicate Neglected(table: seq<Exchange>, ops: seq<Op>, key: Key) {
    Waits(table, ops, key) && AnswersSince(table, ops, key) == 0
  }

  /** What a message displaces is an unanswered request of its own key, if one
      still waits there and silence is judged at once. */
  lemma {:induction false} DisplacedTellsHistory(table: seq<Exchange>, ops: seq<Op>, message: Message, key: Key)
    requires JustAsked(table, ops + [Heard(message)], key)
    ensures var seen := Observation(table, Run(table, ops).slots, message);
            && key.exchange < |table| && seen.openedExchange == Some(key.exchange)
            && seen.displaced ==
               if Neglected(table, ops, key) && !table[key.exchange].optional && !table[key.exchange].multi
               then Some(Unanswered(key.exchange, 0, Elapsed(message.timestamp, Since(table, ops, key)), key.inbound))
               else None
  {
    var st := Run(table, ops).slots;
    OpenExactlyWhileWaiting(table, ops);
    AskedWhenOpened(table, ops, message, key);
    assert SlotTells(table, ops, st.open, key);
    OwnKeyIsKept(table, st.open, message, key);
    OpenedDisplaces(table, st, message, key.exchange);
  }

  lemma OpenedDisplaces(table: seq<Exchange>, st: Slots, message: Message, e: nat)
    requires Opened(table, Answer(table, st.open, message), message) == Some(e)
    ensures e < |table| && Observation(table, st, message).openedExchange == Some(e)
    ensures Observation(table, st, message).displaced == Displaced(table, Answer(table, st.open, message), message, e)
  {
  }

  /** A message that asks nothing opens and displaces nothing. */
  lemma {:induction false} NothingAsked(table: seq<Exchange>, ops: seq<Op>, message: Message, e: nat)
    requires !JustAsked(table, ops + [Heard(message)], Key(message.peer, e, message.inbound))
    ensures var seen := Observation(table, Run(table, ops).slots, message);
            seen.openedExchange != Some(e) && (seen.displaced.Some? ==> seen.displaced.value.exchange != e)
  {
    AskedWhenOpened(table, ops, message, Key(message.peer, e, message.inbound));
  }

  /** A message never answers a request of its own direction. */
  lemma OwnKeyIsKept(table: seq<Exchange>, open: OpenRequests, message: Message, key: Key)
    requires key.inbound == message.inbound
    ensures key in Answer(table, open, message) <==> key in open
    ensures key in open ==> Answer(table, open, message)[key] == open[key]
  {
  }

  // --------------------------------------------------------------------- the cap

  /** Whoever has asked anything. */
  function Askers(table: seq<Exchange>, ops: seq<Op>): set<Key> {
    set i | 0 <= i < |ops| && ops[i].Heard? && Opens(table, ops[i].message.command).Some? ::
      Key(ops[i].message.peer, Opens(table, ops[i].message.command).value, ops[i].message.inbound)
  }

  lemma {:induction false} WaitersAsked(table: seq<Exchange>, ops: seq<Op>, key: Key)
    requires AskedAt(table, ops, key).Some?
    ensures key in Askers(table, ops)
  {
    var front, last := ops[..|ops| - 1], ops[|ops| - 1];
    if JustAsked(table, ops, key) {
      assert ops[|ops| - 1] == last && key == Key(last.message.peer, key.exchange, last.message.inbound);
    } else {
      WaitersAsked(table, front, key);
      var i :| 0 <= i < |front| && front[i].Heard? && Opens(table, front[i].message.command).Some?
        && key == Key(front[i].message.peer, Opens(table, front[i].message.command).value, front[i].message.inbound);
      assert ops[i] == front[i];
    }
  }

  /** What waits still once a message has been answered for. */
  ghost function StillWaiting(table: seq<Exchange>, ops: seq<Op>, message: Message): set<Key> {
    set key | key in Askers(table, ops) && Waits(table, ops, key)
              && (IsAnswer(table, ops, message, key) ==> table[key.exchange].multi)
  }

  lemma {:induction false} StillWaitingIsOpen(table: seq<Exchange>, ops: seq<Op>, message: Message)
    ensures StillWaiting(table, ops, message) == Answer(table, Run(table, ops).slots.open, message).Keys
  {
    var open := Run(table, ops).slots.open;
    OpenExactlyWhileWaiting(table, ops);
    forall key: Key ensures key in StillWaiting(table, ops, message) <==> key in Answer(table, open, message) {
      assert SlotTells(table, ops, open, key);
      SearchAnswers(table, ops, open, message, key);
      if Waits(table, ops, key) {
        WaitersAsked(table, ops, key);
      }
    }
  }

  /** A request is turned away, and counted, exactly when 500,000 others wait. */
  lemma {:induction false} TurnedAwayExactlyWhenFull(table: seq<Exchange>, ops: seq<Op>, message: Message)
    ensures var turnedAway := Opens(table, message.command).Some? && |StillWaiting(table, ops, message)| >= MAX_OPEN;
            Run(table, ops + [Heard(message)]).slots.dropped
              == Run(table, ops).slots.dropped + if turnedAway then 1 else 0
  {
    RunOneMore(table, ops, Heard(message));
    StillWaitingIsOpen(table, ops, message);
    var open := Answer(table, Run(table, ops).slots.open, message);
    assert |open| == |open.Keys|;
  }

  /** How many requests the history holds. */
  function RequestsIn(table: seq<Exchange>, ops: seq<Op>): nat {
    if ops == [] then 0
    else
      var last := ops[|ops| - 1];
      RequestsIn(table, ops[..|ops| - 1])
      + if last.Heard? && Opens(table, last.message.command).Some? then 1 else 0
  }

  /** The map never outgrows the cap, nor the requests made; so a history of at
      most 500,000 requests has none turned away. */
  lemma {:induction false} FewRequestsAreAllKept(table: seq<Exchange>, ops: seq<Op>)
    ensures var st := Run(table, ops).slots;
            && |st.open| <= MAX_OPEN && |st.open| <= RequestsIn(table, ops)
            && (RequestsIn(table, ops) <= MAX_OPEN ==> st.dropped == 0)
  {
    if ops != [] {
      var front, last := ops[..|ops| - 1], ops[|ops| - 1];
      FewRequestsAreAllKept(table, front);
      var open := Run(table, front).slots.open;
      match last
      case Heard(message) => OpensAtMostOne(table, Run(table, front).slots, message);
      case Sweep(now) => SweptIsSmaller(table, open, now);
    }
  }

  lemma OpensAtMostOne(table: seq<Exchange>, st: Slots, message: Message)
    requires |st.open| <= MAX_OPEN
    ensures var after := After(table, st, message, 0);
            && |after.open| <= MAX_OPEN
            && |after.open| <= |st.open| + (if Opens(table, message.command).Some? then 1 else 0)
            && (after.dropped == st.dropped || (Opens(table, message.command).Some? && |st.open| == MAX_OPEN))
  {
    var answered := Answer(table, st.open, message);
    FewerKeys(answered, st.open);
    var e := Opened(table, answered, message);
    if e.Some? {
      var key := Key(message.peer, e.value, message.inbound);
      assert answered[key := Open(0, message.timestamp, 0)].Keys == answered.Keys + {key};
    }
  }

  lemma FewerKeys(a: OpenRequests, b: OpenRequests)
    requires a.Keys <= b.Keys
    ensures |a| <= |b|
  {
    assert b.Keys == a.Keys + (b.Keys - a.Keys);
    assert |a| == |a.Keys| && |b| == |b.Keys|;
  }

  lemma SweptIsSmaller(table: seq<Exchange>, open: OpenRequests, now: nat)
    ensures |Swept(table, open, now)| <= |open|
  {
    FewerKeys(Swept(table, open, now), open);
  }
}
