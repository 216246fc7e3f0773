/** Sweeping the tracker early, late or never changes nothing a message finds,
    and nothing a common closing sweep leaves in the account of the exchanges
    that silence reflects on. Runs are compared through a reference that keeps
    every request for ever: no sweep, and no cap. */
module SweepTransparency {
  import opened Basics
  import opened Exchanges
  import opened Tracking
  import opened Ledger

  function TimeOf(op: Op): nat {
    match op
    case Heard(message) => message.timestamp
    case Sweep(now) => now
  }

  /** The messages come in order of time, and each sweep is made at a time
      between those of the messages around it. */
  ghost predicate InOrder(ops: seq<Op>) {
    forall i, j | 0 <= i <= j < |ops| :: TimeOf(ops[i]) <= TimeOf(ops[j])
  }

  /** The messages alone. */
  function Messages(ops: seq<Op>): seq<Message> {
    if ops == [] then []
    else
      var front, last := Messages(ops[..|ops| - 1]), ops[|ops| - 1];
      if last.Heard? then front + [last.message] else front
  }

  /** What each message found, less what it displaced. */
  datatype Finding = Finding(answered: Option<Reply>, firstReply: bool, openedExchange: Option<nat>)

  function Find(table: seq<Exchange>, st: Slots, message: Message): Finding {
    var seen := Observation(table, st, message);
    Finding(seen.answered, seen.firstReply, seen.openedExchange)
  }

  function Findings(table: seq<Exchange>, ops: seq<Op>): seq<Finding> {
    if ops == [] then []
    else
      var front, last := ops[..|ops| - 1], ops[|ops| - 1];
      if last.Heard? then Findings(table, front) + [Find(table, Run(table, front).slots, last.message)]
      else Findings(table, front)
  }

  // --------------------------------------------------------------- reference

  /** What a message does where there is no cap. */
  function FreeObservation(table: seq<Exchange>, open: OpenRequests, message: Message): Observed {
    var e := Opens(table, message.command);
    Observed(
      ReplyTo(table, open, message),
      IsFirstReply(table, open, message),
      if e.Some? then Displaced(table, Answer(table, open, message), message, e.value) else None,
      e)
  }

  function FreeAfter(table: seq<Exchange>, open: OpenRequests, message: Message): OpenRequests {
    var answered := Answer(table, open, message);
    match Opens(table, message.command)
    case None => answered
    case Some(e) => answered[Key(message.peer, e, message.inbound) := Open(0, message.timestamp, 0)]
  }

  /** The reference account: requests, answers and charges of each exchange. */
  datatype Free = Free(open: OpenRequests, stats: seq<ExchangeStats>)

  function FreeObserve(table: seq<Exchange>, b: Free, message: Message): Free
    requires |b.stats| == |table|
  {
    var seen := FreeObservation(table, b.open, message);
    Free(FreeAfter(table, b.open, message), seq(|table|, e requires 0 <= e < |table| => Entered(b.stats[e], seen, e)))
  }

  function FreeRun(table: seq<Exchange>, messages: seq<Message>): (b: Free)
    ensures |b.stats| == |table|
  {
    if messages == [] then Free(map[], Blank(table).stats)
    else FreeObserve(table, FreeRun(table, messages[..|messages| - 1]), messages[|messages| - 1])
  }

  function FreeFind(table: seq<Exchange>, open: OpenRequests, message: Message): Finding {
    var seen := FreeObservation(table, open, message);
    Finding(seen.answered, seen.firstReply, seen.openedExchange)
  }

  function FreeFindings(table: seq<Exchange>, messages: seq<Message>): seq<Finding> {
    if messages == [] then []
    else
      var front, last := messages[..|messages| - 1], messages[|messages| - 1];
      FreeFindings(table, front) + [FreeFind(table, FreeRun(table, front).open, last)]
  }

  // ------------------------------------------------------------------ trails

  /** Requests only the reference `b` still holds. */
  function Gone(a: OpenRequests, b: OpenRequests, e: nat, inbound: bool): set<Key> {
    set key | key in b && key !in a && key.exchange == e && key.inbound == inbound && b[key].replies == 0
  }

  /** The tracker `a` holds what the reference `b` holds, less requests that are
      past answering for good. */
  ghost predicate Trails(table: seq<Exchange>, a: OpenRequests, b: OpenRequests, now: nat) {
    && (forall key | key in a :: key in b && a[key] == b[key])
    && (forall key | key in b && key !in a :: Expired(table, key, b[key], now))
  }

  function Charged(line: ExchangeStats, inbound: bool): nat {
    if inbound then line.byUs else line.byPeers
  }

  predicate Judged(exchange: Exchange) {
    !exchange.optional && !exchange.multi
  }

  /** Every silence already charged by a sweep of `a` is one `b` still holds. */
  ghost predicate LineTrails(table: seq<Exchange>, a: Books, b: Free, e: nat)
    requires Sized(table, a) && |b.stats| == |table| && e < |table|
  {
    && a.stats[e].requests == b.stats[e].requests
    && a.stats[e].answered == b.stats[e].answered
    && (Judged(table[e]) ==> forall inbound: bool ::
          Charged(a.stats[e], inbound) == Charged(b.stats[e], inbound) + |Gone(a.slots.open, b.open, e, inbound)|)
  }

  lemma {:induction false} SameBest(table: seq<Exchange>, a: OpenRequests, b: OpenRequests, since: nat,
                                    message: Message, n: nat)
    requires Trails(table, a, b, since) && since <= message.timestamp && n <= |table|
    ensures BestOpen(table, a, message, n) == BestOpen(table, b, message, n)
  {
    if n > 0 {
      SameBest(table, a, b, since, message, n - 1);
    }
  }

  lemma AnswerTrails(table: seq<Exchange>, a: OpenRequests, b: OpenRequests, since: nat, message: Message)
    requires Trails(table, a, b, since) && since <= message.timestamp
    ensures Trails(table, Answer(table, a, message), Answer(table, b, message), message.timestamp)
    ensures forall e: nat, inbound: bool ::
      Gone(Answer(table, a, message), Answer(table, b, message), e, inbound) == Gone(a, b, e, inbound)
  {
    SameBest(table, a, b, since, message, |table|);
    var best := BestOpen(table, a, message, |table|);
    if best.Some? {
      assert best.value in a && best.value in b && a[best.value] == b[best.value];
    }
  }

  /** A message that is not turned away finds and does what it would uncapped. */
  lemma OpensFreely(table: seq<Exchange>, st: Slots, message: Message)
    requires After(table, st, message, 0).dropped == st.dropped
    ensures After(table, st, message, 0).open == FreeAfter(table, st.open, message)
    ensures Observation(table, st, message) == FreeObservation(table, st.open, message)
  {
  }

  /** Replacing a request that a sweep had already charged moves the charge from
      what `b` holds to what `b` has displaced. */
  lemma GoneAfterOpening(a: OpenRequests, b: OpenRequests, key: Key, request: Open, e: nat, inbound: bool)
    ensures Gone(a[key := request], b[key := request], e, inbound) == Gone(a, b, e, inbound) - {key}
  {
  }

  lemma ObserveTrails(table: seq<Exchange>, a: Slots, b: OpenRequests, since: nat, message: Message)
    requires Trails(table, a.open, b, since) && since <= message.timestamp
    requires After(table, a, message, 0).dropped == a.dropped
    ensures Find(table, a, message) == FreeFind(table, b, message)
    ensures Trails(table, After(table, a, message, 0).open, FreeAfter(table, b, message), message.timestamp)
  {
    OpensFreely(table, a, message);
    SameBest(table, a.open, b, since, message, |table|);
    AnswerTrails(table, a.open, b, since, message);
  }

  /** What a displaced request charges to a side. */
  function Charge(displaced: Option<Unanswered>, e: nat, inbound: bool): nat {
    One(displaced.Some? && displaced.value.exchange == e && displaced.value.requestInbound == inbound)
  }

  lemma ChargedByObserving(line: ExchangeStats, seen: Observed, e: nat, inbound: bool)
    ensures Charged(Entered(line, seen, e), inbound) == Charged(line, inbound) + Charge(seen.displaced, e, inbound)
  {
  }

  /** The request displaced in `b` alone is one a sweep of `a` charged before. */
  lemma DisplacedOrGone(table: seq<Exchange>, a: OpenRequests, b: OpenRequests, message: Message, asked: nat, e: nat,
                        inbound: bool)
    requires Trails(table, a, b, message.timestamp) && asked < |table| && e < |table| && Judged(table[e])
    ensures var key, request := Key(message.peer, asked, message.inbound), Open(0, message.timestamp, 0);
            var after := Gone(a[key := request], b[key := request], e, inbound);
            Charge(Displaced(table, a, message, asked), e, inbound) + |Gone(a, b, e, inbound)|
              == Charge(Displaced(table, b, message, asked), e, inbound) + |after|
  {
    var key := Key(message.peer, asked, message.inbound);
    GoneAfterOpening(a, b, key, Open(0, message.timestamp, 0), e, inbound);
    var gone := Gone(a, b, e, inbound);
    assert key in gone <==> key in b && key !in a && asked == e && message.inbound == inbound && b[key].replies == 0;
    if key !in gone {
      assert gone - {key} == gone;
    }
  }

  lemma ObserveDisplaces(table: seq<Exchange>, a: OpenRequests, b: OpenRequests, since: nat, message: Message, e: nat,
                         inbound: bool)
    requires Trails(table, a, b, since) && since <= message.timestamp && e < |table| && Judged(table[e])
    ensures Charge(FreeObservation(table, a, message).displaced, e, inbound) + |Gone(a, b, e, inbound)|
         == Charge(FreeObservation(table, b, message).displaced, e, inbound)
            + |Gone(FreeAfter(table, a, message), FreeAfter(table, b, message), e, inbound)|
  {
    AnswerTrails(table, a, b, since, message);
    var asked := Opens(table, message.command);
    if asked.Some? {
      DisplacedOrGone(table, Answer(table, a, message), Answer(table, b, message), message, asked.value, e, inbound);
    }
  }

  lemma ObserveLineTrails(table: seq<Exchange>, a: Books, b: Free, since: nat, message: Message, e: nat)
    requires Sized(table, a) && |b.stats| == |table| && since <= message.timestamp && e < |table|
    requires Trails(table, a.slots.open, b.open, since) && LineTrails(table, a, b, e)
    requires After(table, a.slots, message, 0).dropped == a.slots.dropped
    requires Sized(table, Observe(table, a, message))
    ensures LineTrails(table, Observe(table, a, message), FreeObserve(table, b, message), e)
  {
    OpensFreely(table, a.slots, message);
    ObserveTrails(table, a.slots, b.open, since, message);
    var a', b' := Observe(table, a, message), FreeObserve(table, b, message);
    var seen, freely := Observation(table, a.slots, message), FreeObservation(table, b.open, message);
    assert a'.stats[e] == Entered(a.stats[e], seen, e) && b'.stats[e] == Entered(b.stats[e], freely, e);
    if Judged(table[e]) {
      forall inbound: bool
        ensures Charged(a'.stats[e], inbound)
                == Charged(b'.stats[e], inbound) + |Gone(a'.slots.open, b'.open, e, inbound)|
      {
        ChargedByObserving(a.stats[e], seen, e, inbound);
        ChargedByObserving(b.stats[e], freely, e, inbound);
        ObserveDisplaces(table, a.slots.open, b.open, since, message, e, inbound);
      }
    }
  }

  lemma SweepTrails(table: seq<Exchange>, a: OpenRequests, b: OpenRequests, since: nat, now: nat)
    requires Trails(table, a, b, since) && since <= now
    ensures Trails(table, Swept(table, a, now), b, now)
    ensures forall e: nat, inbound: bool ::
      Gone(Swept(table, a, now), b, e, inbound) == Gone(a, b, e, inbound) + SilentlyExpired(table, a, now, e, inbound)
    ensures forall e: nat, inbound: bool :: Gone(a, b, e, inbound) !! SilentlyExpired(table, a, now, e, inbound)
  {
  }

  lemma SweepLineTrails(table: seq<Exchange>, a: Books, b: Free, since: nat, now: nat, e: nat)
    requires Sized(table, a) && |b.stats| == |table| && since <= now && e < |table|
    requires Trails(table, a.slots.open, b.open, since) && LineTrails(table, a, b, e)
    ensures Sized(table, SweepBooks(table, a, now)) && LineTrails(table, SweepBooks(table, a, now), b, e)
  {
    StaysSized(table, a, Sweep(now));
    SweepTrails(table, a.slots.open, b.open, since, now);
  }

  ghost predicate BooksTrail(table: seq<Exchange>, a: Books, b: Free, now: nat)
    requires Sized(table, a) && |b.stats| == |table|
  {
    && Trails(table, a.slots.open, b.open, now)
    && forall e | 0 <= e < |table| :: LineTrails(table, a, b, e)
  }

  lemma {:induction false} DroppedOnlyGrows(table: seq<Exchange>, ops: seq<Op>)
    requires ops != []
    ensures Run(table, ops[..|ops| - 1]).slots.dropped <= Run(table, ops).slots.dropped
  {
  }

  lemma ObserveBooksTrail(table: seq<Exchange>, a: Books, b: Free, since: nat, message: Message)
    requires Sized(table, a) && |b.stats| == |table| && BooksTrail(table, a, b, since) && since <= message.timestamp
    requires After(table, a.slots, message, 0).dropped == a.slots.dropped
    requires Sized(table, Observe(table, a, message))
    ensures BooksTrail(table, Observe(table, a, message), FreeObserve(table, b, message), message.timestamp)
    ensures Find(table, a.slots, message) == FreeFind(table, b.open, message)
  {
    ObserveTrails(table, a.slots, b.open, since, message);
    forall e | 0 <= e < |table|
      ensures LineTrails(table, Observe(table, a, message), FreeObserve(table, b, message), e)
    {
      ObserveLineTrails(table, a, b, since, message, e);
    }
  }

  lemma SweepBooksTrail(table: seq<Exchange>, a: Books, b: Free, since: nat, now: nat)
    requires Sized(table, a) && |b.stats| == |table| && BooksTrail(table, a, b, since) && since <= now
    requires Sized(table, SweepBooks(table, a, now))
    ensures BooksTrail(table, SweepBooks(table, a, now), b, now)
  {
    SweepTrails(table, a.slots.open, b.open, since, now);
    forall e | 0 <= e < |table| ensures LineTrails(table, SweepBooks(table, a, now), b, e) {
      SweepLineTrails(table, a, b, since, now, e);
    }
  }

  function LastTime(ops: seq<Op>): nat {
    if ops == [] then 0 else TimeOf(ops[|ops| - 1])
  }

  /** A message more, in a run and in the reference. */
  lemma HeardOneMore(table: seq<Exchange>, ops: seq<Op>)
    requires ops != [] && ops[|ops| - 1].Heard?
    ensures var front, message := ops[..|ops| - 1], ops[|ops| - 1].message;
            && Messages(ops) == Messages(front) + [message]
            && Run(table, ops) == Observe(table, Run(table, front), message)
            && FreeRun(table, Messages(ops)) == FreeObserve(table, FreeRun(table, Messages(front)), message)
            && Findings(table, ops) == Findings(table, front) + [Find(table, Run(table, front).slots, message)]
            && FreeFindings(table, Messages(ops))
            == FreeFindings(table, Messages(front)) + [FreeFind(table, FreeRun(table, Messages(front)).open, message)]
  {
    var before, message := Messages(ops[..|ops| - 1]), ops[|ops| - 1].message;
    assert (before + [message])[..|before|] == before;
  }

  /** A run that turns no request away finds what the reference finds, and its
      account trails the reference's, whenever it was swept. */
  lemma {:induction false} RunTrails(table: seq<Exchange>, ops: seq<Op>)
    requires InOrder(ops) && Run(table, ops).slots.dropped == 0
    ensures BooksTrail(table, Run(table, ops), FreeRun(table, Messages(ops)), LastTime(ops))
    ensures Findings(table, ops) == FreeFindings(table, Messages(ops))
  {
    if ops != [] {
      var front, last := ops[..|ops| - 1], ops[|ops| - 1];
      var a, b := Run(table, front), FreeRun(table, Messages(front));
      StaysSized(table, a, last);
      DroppedOnlyGrows(table, ops);
      RunTrails(table, front);
      match last
      case Heard(message) =>
        HeardOneMore(table, ops);
        ObserveBooksTrail(table, a, b, LastTime(front), message);
      case Sweep(now) =>
        SweepBooksTrail(table, a, b, LastTime(front), now);
    }
  }

  /** Of two runs over the same messages, swept at any points, in which no request
      was turned away: no message answers, first-replies or opens differently. */
  lemma SweepsDoNotChangeFindings(table: seq<Exchange>, ops: seq<Op>, others: seq<Op>)
    requires InOrder(ops) && InOrder(others) && Messages(ops) == Messages(others)
    requires Run(table, ops).slots.dropped == 0 && Run(table, others).slots.dropped == 0
    ensures Findings(table, ops) == Findings(table, others)
  {
    RunTrails(table, ops);
    RunTrails(table, others);
  }

  /** What a closing sweep leaves charged is what the reference would charge. */
  lemma ClosingSweep(table: seq<Exchange>, ops: seq<Op>, now: nat, e: nat, inbound: bool)
    requires InOrder(ops) && LastTime(ops) <= now
    requires Run(table, ops).slots.dropped == 0 && e < |table| && Judged(table[e])
    ensures var reference := FreeRun(table, Messages(ops));
            Charged(SweepBooks(table, Run(table, ops), now).stats[e], inbound)
            == Charged(reference.stats[e], inbound) + |SilentlyExpired(table, reference.open, now, e, inbound)|
  {
    RunTrails(table, ops);
    var a, b := Run(table, ops), FreeRun(table, Messages(ops));
    assert LineTrails(table, a, b, e);
    BothExpire(table, a.slots.open, b.open, LastTime(ops), now, e, inbound);
  }

  lemma BothExpire(table: seq<Exchange>, a: OpenRequests, b: OpenRequests, since: nat, now: nat, e: nat, inbound: bool)
    requires Trails(table, a, b, since) && since <= now
    ensures SilentlyExpired(table, b, now, e, inbound)
            == Gone(a, b, e, inbound) + SilentlyExpired(table, a, now, e, inbound)
    ensures Gone(a, b, e, inbound) !! SilentlyExpired(table, a, now, e, inbound)
  {
  }

  /** Of two such runs, after a common closing sweep the unanswered totals of the
      exchanges that silence reflects on at once are the same: they do not depend
      on the sweep period. */
  lemma TotalsDoNotDependOnThePeriod(table: seq<Exchange>, ops: seq<Op>, others: seq<Op>, now: nat, e: nat)
    requires InOrder(ops) && InOrder(others) && LastTime(ops) <= now && LastTime(others) <= now
    requires Messages(ops) == Messages(others)
    requires Run(table, ops).slots.dropped == 0 && Run(table, others).slots.dropped == 0
    requires e < |table| && Judged(table[e])
    ensures var a, b := Run(table, ops + [Sweep(now)]).stats[e], Run(table, others + [Sweep(now)]).stats[e];
            a.byPeers == b.byPeers && a.byUs == b.byUs
  {
    RunOneMore(table, ops, Sweep(now));
    RunOneMore(table, others, Sweep(now));
    ClosingSweep(table, ops, now, e, true);
    ClosingSweep(table, ops, now, e, false);
    ClosingSweep(table, others, now, e, true);
    ClosingSweep(table, others, now, e, false);
  }
}
