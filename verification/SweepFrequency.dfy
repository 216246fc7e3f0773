/** What the sweep period can and cannot change for every exchange, multi-reply
    ones included. */
module SweepFrequency {
  import opened Basics
  import opened Exchanges
  import opened Tracking
  import opened Ledger
  import opened SweepTransparency

  /** Requests of exchange `e` with no answer: charged, silently retired, or still
      open. */
  function Unaccounted(b: Books, e: nat): nat
    requires e < |b.stats| == |b.silent|
  {
    b.stats[e].Unanswered() + b.silent[e] + |Waiting(b.slots.open, e)|
  }

  lemma SameLeftOver(table: seq<Exchange>, a: Books, b: Books, free: Free, e: nat)
    requires Sized(table, a) && Sized(table, b) && |free.stats| == |table| && e < |table|
    requires RequestsBalance(table, a, e) && RequestsBalance(table, b, e)
    requires LineTrails(table, a, free, e) && LineTrails(table, b, free, e)
    ensures a.stats[e].requests == b.stats[e].requests && a.stats[e].answered == b.stats[e].answered
    ensures Unaccounted(a, e) == Unaccounted(b, e) == a.stats[e].requests - a.stats[e].answered
  {
  }

  /** Of two runs over the same messages, swept at any points, in which no request
      was turned away: every exchange has the same requests, the same answered, and
      the same left over, however those are split between charged, silently
      retired and still open. */
  lemma LeftOverDoesNotDependOnThePeriod(table: seq<Exchange>, ops: seq<Op>, others: seq<Op>, e: nat)
    requires InOrder(ops) && InOrder(others) && Messages(ops) == Messages(others)
    requires Run(table, ops).slots.dropped == 0 && Run(table, others).slots.dropped == 0
    requires e < |table|
    ensures var a, b := Run(table, ops), Run(table, others);
            && a.stats[e].requests == b.stats[e].requests && a.stats[e].answered == b.stats[e].answered
            && Unaccounted(a, e) == Unaccounted(b, e) == a.stats[e].requests - a.stats[e].answered
  {
    RunTrails(table, ops);
    RunTrails(table, others);
    EveryLineBalances(table, ops, e);
    EveryLineBalances(table, others, e);
    SameLeftOver(table, Run(table, ops), Run(table, others), FreeRun(table, Messages(ops)), e);
  }

  // -------------------------------------------------------- sweeping more often

  /** A step of two runs side by side, the first of which may sweep alone. */
  datatype Joint = Both(op: Op) | Extra(now: nat) {
    function Mine(): Op {
      if Both? then op else Sweep(now)
    }
  }

  /** What the first run does. */
  function First(steps: seq<Joint>): seq<Op> {
    if steps == [] then [] else First(steps[..|steps| - 1]) + [steps[|steps| - 1].Mine()]
  }

  /** What the second run does. */
  function Second(steps: seq<Joint>): seq<Op> {
    if steps == [] then []
    else
      var front, last := Second(steps[..|steps| - 1]), steps[|steps| - 1];
      if last.Both? then front + [last.op] else front
  }

  /** `a`, swept more often, holds what `b` holds less what has expired, and has
      charged at least as much, with all that only `b` still holds. */
  ghost predicate Ahead(table: seq<Exchange>, a: Books, b: Books, now: nat, e: nat)
    requires Sized(table, a) && Sized(table, b) && e < |table|
  {
    && Trails(table, a.slots.open, b.slots.open, now)
    && ChargesNoLess(a, b, e, false)
    && ChargesNoLess(a, b, e, true)
  }

  predicate ChargesNoLess(a: Books, b: Books, e: nat, inbound: bool)
    requires e < |a.stats| && e < |b.stats|
  {
    Charged(a.stats[e], inbound) >= Charged(b.stats[e], inbound) + |Gone(a.slots.open, b.slots.open, e, inbound)|
  }

  lemma NothingIsAhead(table: seq<Exchange>, a: Books, b: Books, now: nat, e: nat)
    requires Sized(table, a) && Sized(table, b) && e < |table|
    requires a.slots.open.Keys == {} && b.slots.open.Keys == {} && a.stats[e] == b.stats[e]
    ensures Ahead(table, a, b, now, e)
  {
    assert Gone(a.slots.open, b.slots.open, e, false) == {} == Gone(a.slots.open, b.slots.open, e, true);
  }

  /** A message more takes from what only `b` holds no more than `b` charges. */
  lemma ObserveShrinksGone(table: seq<Exchange>, a: OpenRequests, b: OpenRequests, since: nat, message: Message, e: nat,
                           inbound: bool)
    requires Trails(table, a, b, since) && since <= message.timestamp && e < |table| && !table[e].optional
    ensures Charge(FreeObservation(table, a, message).displaced, e, inbound) + |Gone(a, b, e, inbound)|
         >= Charge(FreeObservation(table, b, message).displaced, e, inbound)
            + |Gone(FreeAfter(table, a, message), FreeAfter(table, b, message), e, inbound)|
  {
    if Judged(table[e]) {
      ObserveDisplaces(table, a, b, since, message, e, inbound);
    } else {
      GoneOnlyShrinks(table, a, b, since, message, e, inbound);
    }
  }

  lemma GoneOnlyShrinks(table: seq<Exchange>, a: OpenRequests, b: OpenRequests, since: nat, message: Message, e: nat,
                        inbound: bool)
    requires Trails(table, a, b, since) && since <= message.timestamp
    ensures |Gone(FreeAfter(table, a, message), FreeAfter(table, b, message), e, inbound)| <= |Gone(a, b, e, inbound)|
  {
    AnswerTrails(table, a, b, since, message);
    var asked := Opens(table, message.command);
    if asked.Some? {
      var key := Key(message.peer, asked.value, message.inbound);
      var a', b' := Answer(table, a, message), Answer(table, b, message);
      GoneAfterOpening(a', b', key, Open(0, message.timestamp, 0), e, inbound);
      OneLessAtMost(Gone(a, b, e, inbound), key);
    }
  }

  lemma OneLessAtMost(keys: set<Key>, key: Key)
    ensures |keys - {key}| <= |keys|
  {
    if key !in keys {
      assert keys - {key} == keys;
    }
  }

  lemma {:induction false} ObserveChargesNoLess(table: seq<Exchange>, a: Books, b: Books, since: nat, message: Message,
                                                e: nat, inbound: bool)
    requires Sized(table, a) && Sized(table, b) && e < |table| && !table[e].optional
    requires Trails(table, a.slots.open, b.slots.open, since) && since <= message.timestamp
    requires ChargesNoLess(a, b, e, inbound)
    requires After(table, a.slots, message, 0).dropped == a.slots.dropped
    requires After(table, b.slots, message, 0).dropped == b.slots.dropped
    requires Sized(table, Observe(table, a, message)) && Sized(table, Observe(table, b, message))
    ensures ChargesNoLess(Observe(table, a, message), Observe(table, b, message), e, inbound)
  {
    OpensFreely(table, a.slots, message);
    OpensFreely(table, b.slots, message);
    ChargedByObserving(a.stats[e], Observation(table, a.slots, message), e, inbound);
    ChargedByObserving(b.stats[e], Observation(table, b.slots, message), e, inbound);
    ObserveShrinksGone(table, a.slots.open, b.slots.open, since, message, e, inbound);
  }

  lemma {:induction false} ObserveStaysAhead(table: seq<Exchange>, a: Books, b: Books, since: nat, message: Message,
                                             e: nat)
    requires Sized(table, a) && Sized(table, b) && e < |table| && !table[e].optional
    requires Ahead(table, a, b, since, e) && since <= message.timestamp
    requires After(table, a.slots, message, 0).dropped == a.slots.dropped
    requires After(table, b.slots, message, 0).dropped == b.slots.dropped
    requires Sized(table, Observe(table, a, message)) && Sized(table, Observe(table, b, message))
    ensures Ahead(table, Observe(table, a, message), Observe(table, b, message), message.timestamp, e)
  {
    OpensFreely(table, a.slots, message);
    OpensFreely(table, b.slots, message);
    ObserveTrails(table, a.slots, b.slots.open, since, message);
    ObserveChargesNoLess(table, a, b, since, message, e, false);
    ObserveChargesNoLess(table, a, b, since, message, e, true);
  }

  lemma ExtraSweepStaysAhead(table: seq<Exchange>, a: Books, b: Books, since: nat, now: nat, e: nat)
    requires Sized(table, a) && Sized(table, b) && e < |table| && !table[e].optional
    requires Ahead(table, a, b, since, e) && since <= now && Sized(table, SweepBooks(table, a, now))
    ensures Ahead(table, SweepBooks(table, a, now), b, now, e)
  {
    SweepTrails(table, a.slots.open, b.slots.open, since, now);
  }

  /** After a sweep of both they hold the same. */
  lemma SweptAlike(table: seq<Exchange>, a: OpenRequests, b: OpenRequests, since: nat, now: nat)
    requires Trails(table, a, b, since) && since <= now
    ensures Trails(table, Swept(table, a, now), Swept(table, b, now), now)
    ensures forall e: nat, inbound: bool :: Gone(Swept(table, a, now), Swept(table, b, now), e, inbound) == {}
  {
  }

  lemma SweepStaysAhead(table: seq<Exchange>, a: Books, b: Books, since: nat, now: nat, e: nat)
    requires Sized(table, a) && Sized(table, b) && e < |table| && !table[e].optional
    requires Ahead(table, a, b, since, e) && since <= now
    requires Sized(table, SweepBooks(table, a, now)) && Sized(table, SweepBooks(table, b, now))
    ensures Ahead(table, SweepBooks(table, a, now), SweepBooks(table, b, now), now, e)
  {
    SweptAlike(table, a.slots.open, b.slots.open, since, now);
    BothExpire(table, a.slots.open, b.slots.open, since, now, e, false);
    BothExpire(table, a.slots.open, b.slots.open, since, now, e, true);
  }

  /** The second run after a step. */
  function Other(table: seq<Exchange>, b: Books, step: Joint): (after: Books)
    requires Sized(table, b)
    ensures Sized(table, after)
  {
    if step.Extra? then b
    else
      StaysSized(table, b, step.op);
      Apply(table, b, step.op)
  }

  lemma {:induction false} StepStaysAhead(table: seq<Exchange>, a: Books, b: Books, since: nat, step: Joint, e: nat)
    requires Sized(table, a) && Sized(table, b) && e < |table| && !table[e].optional
    requires Sized(table, Apply(table, a, step.Mine()))
    requires Ahead(table, a, b, since, e) && since <= TimeOf(step.Mine())
    requires Apply(table, a, step.Mine()).slots.dropped == a.slots.dropped
    requires Other(table, b, step).slots.dropped == b.slots.dropped
    ensures Ahead(table, Apply(table, a, step.Mine()), Other(table, b, step), TimeOf(step.Mine()), e)
  {
    match step
    case Extra(now) => ExtraSweepStaysAhead(table, a, b, since, now, e);
    case Both(Sweep(now)) => SweepStaysAhead(table, a, b, since, now, e);
    case Both(Heard(message)) => ObserveStaysAhead(table, a, b, since, message, e);
  }

  /** The last step of both runs. */
  lemma {:induction false} StepSplits(table: seq<Exchange>, steps: seq<Joint>)
    requires steps != []
    ensures var front, last := steps[..|steps| - 1], steps[|steps| - 1];
            && Run(table, First(steps)) == Apply(table, Run(table, First(front)), last.Mine())
            && Run(table, Second(steps)) == Other(table, Run(table, Second(front)), last)
            && LastTime(First(steps)) == TimeOf(last.Mine())
  {
    var front, last := steps[..|steps| - 1], steps[|steps| - 1];
    RunOneMore(table, First(front), last.Mine());
    if last.Both? {
      RunOneMore(table, Second(front), last.op);
    }
  }

  lemma DroppedEarlier(table: seq<Exchange>, b: Books, op: Op)
    requires Sized(table, b)
    ensures b.slots.dropped <= Apply(table, b, op).slots.dropped
  {
  }

  lemma {:induction false} FrontInOrder(ops: seq<Op>, op: Op)
    requires InOrder(ops + [op])
    ensures InOrder(ops) && LastTime(ops) <= TimeOf(op)
  {
    var all := ops + [op];
    forall i, j | 0 <= i <= j < |ops| ensures TimeOf(ops[i]) <= TimeOf(ops[j]) {
      assert TimeOf(all[i]) <= TimeOf(all[j]);
    }
    if ops != [] {
      assert TimeOf(all[|ops| - 1]) <= TimeOf(all[|ops|]);
    }
  }

  ghost predicate RunsAhead(table: seq<Exchange>, steps: seq<Joint>, e: nat)
    requires e < |table|
  {
    Ahead(table, Run(table, First(steps)), Run(table, Second(steps)), LastTime(First(steps)), e)
  }

  lemma {:induction false} RunStaysAhead(table: seq<Exchange>, steps: seq<Joint>, e: nat)
    requires InOrder(First(steps)) && e < |table| && !table[e].optional
    requires Run(table, First(steps)).slots.dropped == 0 && Run(table, Second(steps)).slots.dropped == 0
    ensures RunsAhead(table, steps, e)
  {
    if steps == [] {
      NothingIsAhead(table, Run(table, First(steps)), Run(table, Second(steps)), 0, e);
    } else {
      var front, last := steps[..|steps| - 1], steps[|steps| - 1];
      var a, b := Run(table, First(front)), Run(table, Second(front));
      StepSplits(table, steps);
      FrontInOrder(First(front), last.Mine());
      StaysSized(table, a, last.Mine());
      DroppedEarlier(table, a, last.Mine());
      if last.Both? {
        DroppedEarlier(table, b, last.op);
      }
      RunStaysAhead(table, front, e);
      StepStaysAhead(table, a, b, LastTime(First(front)), last, e);
    }
  }

  lemma AheadChargesNoLess(table: seq<Exchange>, a: Books, b: Books, now: nat, e: nat)
    requires Sized(table, a) && Sized(table, b) && e < |table| && Ahead(table, a, b, now, e)
    ensures a.stats[e].byPeers >= b.stats[e].byPeers && a.stats[e].byUs >= b.stats[e].byUs
  {
    assert Charged(a.stats[e], false) >= Charged(b.stats[e], false);
    assert Charged(a.stats[e], true) >= Charged(b.stats[e], true);
  }

  /** Sweeping more often never lowers what is charged to either side. */
  lemma {:induction false} MoreSweepsChargeNoLess(table: seq<Exchange>, steps: seq<Joint>, e: nat)
    requires InOrder(First(steps)) && e < |table|
    requires Run(table, First(steps)).slots.dropped == 0 && Run(table, Second(steps)).slots.dropped == 0
    ensures var a, b := Run(table, First(steps)).stats[e], Run(table, Second(steps)).stats[e];
            a.byPeers >= b.byPeers && a.byUs >= b.byUs
  {
    var a, b := Run(table, First(steps)), Run(table, Second(steps));
    if table[e].optional {
      EveryLineBalances(table, Second(steps), e);
      assert RequestsBalance(table, b, e);
    } else {
      RunStaysAhead(table, steps, e);
      AheadChargesNoLess(table, a, b, LastTime(First(steps)), e);
    }
  }

  // ----------------------------------------------------- and it can charge more

  predicate IsNoReply(table: seq<Exchange>, command: string) {
    forall e | 0 <= e < |table| :: command !in table[e].replies
  }

  lemma {:induction false} NothingAnswered(table: seq<Exchange>, open: OpenRequests, message: Message, n: nat)
    requires IsNoReply(table, message.command) && n <= |table|
    ensures BestOpen(table, open, message, n) == None
  {
    if n > 0 {
      NothingAnswered(table, open, message, n - 1);
    }
  }

  /** A request with nothing to answer joins what is open, in place of its like. */
  lemma Asked(table: seq<Exchange>, b: Books, message: Message, e: nat)
    requires Sized(table, b) && |b.slots.open| < MAX_OPEN
    requires Opens(table, message.command) == Some(e) && e < |table| && table[e].multi
    requires IsNoReply(table, message.command)
    ensures var after := Observe(table, b, message);
            && after.slots.dropped == b.slots.dropped
            && after.slots.open == b.slots.open[Key(message.peer, e, message.inbound) := Open(0, message.timestamp, 0)]
            && Charged(after.stats[e], message.inbound) == Charged(b.stats[e], message.inbound)
  {
    NothingAnswered(table, b.slots.open, message, |table|);
  }

  /** One request that has expired is charged to its side. */
  lemma SweptOne(table: seq<Exchange>, b: Books, key: Key, now: nat)
    requires Sized(table, b) && b.slots.open.Keys == {key} && b.slots.open[key].replies == 0
    requires key.exchange < |table| && !table[key.exchange].optional && Expired(table, key, b.slots.open[key], now)
    ensures var after := SweepBooks(table, b, now);
            && after.slots.dropped == b.slots.dropped && after.slots.open == map[]
            && Charged(after.stats[key.exchange], key.inbound) == Charged(b.stats[key.exchange], key.inbound) + 1
  {
    var e := key.exchange;
    assert SilentlyExpired(table, b.slots.open, now, e, key.inbound) == {key};
  }

  /** A request nothing answers, of exchange `e`. */
  predicate Asks(table: seq<Exchange>, message: Message, e: nat) {
    && Opens(table, message.command) == Some(e)
    && e < |table| && table[e].multi && !table[e].optional
    && IsNoReply(table, message.command)
  }

  /** The account holds `message` alone, with `charged` to its side. */
  predicate HoldsOnly(table: seq<Exchange>, b: Books, message: Message, e: nat, charged: nat)
    requires Sized(table, b) && e < |table|
  {
    && b.slots == Slots(map[Key(message.peer, e, message.inbound) := Open(0, message.timestamp, 0)], 0)
    && Charged(b.stats[e], message.inbound) == charged
  }

  lemma {:induction false} AskedOnce(table: seq<Exchange>, first: Message, e: nat)
    requires Asks(table, first, e)
    ensures HoldsOnly(table, Run(table, [Heard(first)]), first, e, 0)
  {
    RunOneMore(table, [], Heard(first));
    Asked(table, Run(table, []), first, e);
    assert [] + [Heard(first)] == [Heard(first)];
  }

  lemma OneReplaced(key: Key, before: Open, after: Open)
    ensures map[key := before][key := after] == map[key := after] && |map[key := before]| == 1
  {
  }

  lemma {:induction false} AskedAgain(table: seq<Exchange>, b: Books, first: Message, second: Message, e: nat)
    requires Sized(table, b) && Asks(table, first, e) && second == first.(timestamp := second.timestamp)
    requires HoldsOnly(table, b, first, e, 0)
    ensures Sized(table, Observe(table, b, second)) && HoldsOnly(table, Observe(table, b, second), second, e, 0)
  {
    OneReplaced(Key(first.peer, e, first.inbound), Open(0, first.timestamp, 0), Open(0, second.timestamp, 0));
    StaysSized(table, b, Heard(second));
    Asked(table, b, second, e);
  }

  lemma {:induction false} AskedAfterSweep(table: seq<Exchange>, ops: seq<Op>, first: Message, second: Message, e: nat)
    requires Asks(table, first, e) && second == first.(timestamp := second.timestamp)
    requires second.timestamp > first.timestamp + table[e].windowMs
    requires HoldsOnly(table, Run(table, ops), first, e, 0)
    ensures HoldsOnly(table, Run(table, ops + [Sweep(second.timestamp)] + [Heard(second)]), second, e, 1)
  {
    RunOneMore(table, ops, Sweep(second.timestamp));
    SweptOne(table, Run(table, ops), Key(first.peer, e, first.inbound), second.timestamp);
    RunOneMore(table, ops + [Sweep(second.timestamp)], Heard(second));
    Asked(table, Run(table, ops + [Sweep(second.timestamp)]), second, e);
  }

  /** A multi-reply exchange asked twice, more than its window apart: a sweep
      between the two charges the first, and without one the second replaces it
      unseen. What is left open is the same. */
  lemma {:induction false} ASweepBetweenCharges(table: seq<Exchange>, first: Message, second: Message, e: nat)
    requires Asks(table, first, e) && second == first.(timestamp := second.timestamp)
    requires second.timestamp > first.timestamp + table[e].windowMs
    ensures HoldsOnly(table, Run(table, [Heard(first), Heard(second)]), second, e, 0)
    ensures HoldsOnly(table, Run(table, [Heard(first), Sweep(second.timestamp), Heard(second)]), second, e, 1)
  {
    AskedOnce(table, first, e);
    RunOneMore(table, [Heard(first)], Heard(second));
    AskedAgain(table, Run(table, [Heard(first)]), first, second, e);
    AskedAfterSweep(table, [Heard(first)], first, second, e);
    assert [Heard(first)] + [Heard(second)] == [Heard(first), Heard(second)];
    assert [Heard(first)] + [Sweep(second.timestamp)] + [Heard(second)]
        == [Heard(first), Sweep(second.timestamp), Heard(second)];
  }
}
