/** The per-exchange account of how every request fared, kept over a whole
    archive while the tracker is swept from time to time. */
module Ledger {
  import opened Basics
  import opened Exchanges
  import opened Latency
  import opened Tracking

  /** Messages between two sweeps. */
  const SWEEP_EVERY := 32_768

  datatype ExchangeStats = ExchangeStats(requests: nat, answered: nat, byPeers: nat, byUs: nat) {
    function Unanswered(): nat {
      byPeers + byUs
    }

    /** What neither an answer nor a charge accounts for; each subtraction stops
        at zero. */
    function Undetermined(): nat {
      Elapsed(Elapsed(requests, answered), Unanswered())
    }
  }

  /** The account in full. `silent` is kept for the proof alone: requests that
      left the tracker unanswered without being reported to anyone. */
  datatype Books = Books(
    slots: Slots, stats: seq<ExchangeStats>, theirs: seq<Sketch>, ours: seq<Sketch>, silent: seq<nat>)

  datatype Op = Heard(message: Message) | Sweep(now: nat)

  function Blank(table: seq<Exchange>): Books {
    Books(Slots(map[], 0),
          seq(|table|, _ => ExchangeStats(0, 0, 0, 0)), seq(|table|, _ => Empty()), seq(|table|, _ => Empty()),
          seq(|table|, _ => 0))
  }

  ghost predicate Sized(table: seq<Exchange>, b: Books) {
    && |b.stats| == |b.theirs| == |b.ours| == |b.silent| == |table|
    && Filed(table, b.slots.open)
  }

  function One(yes: bool): nat {
    if yes then 1 else 0
  }

  /** What one observation adds to the line of exchange `e`. */
  function Entered(line: ExchangeStats, seen: Observed, e: nat): ExchangeStats {
    ExchangeStats(
      line.requests + One(seen.openedExchange == Some(e)),
      line.answered + One(seen.answered.Some? && seen.answered.value.exchange == e && seen.firstReply),
      line.byPeers + One(seen.displaced.Some? && seen.displaced.value.exchange == e
                         && !seen.displaced.value.requestInbound),
      line.byUs + One(seen.displaced.Some? && seen.displaced.value.exchange == e
                      && seen.displaced.value.requestInbound))
  }

  /** The sketches of one side, with the elapsed time of an answer from it. */
  function Timed(side: seq<Sketch>, seen: Observed, mine: bool): seq<Sketch> {
    if mine && seen.answered.Some? && seen.answered.value.exchange < |side|
    then side[seen.answered.value.exchange := Added(side[seen.answered.value.exchange], seen.answered.value.elapsedMs)]
    else side
  }

  /** Whether a message replaces an unanswered request nobody may judge yet. */
  function SilentlyReplaced(table: seq<Exchange>, st: Slots, message: Message, e: nat): nat {
    var open := Answer(table, st.open, message);
    var key := Key(message.peer, e, message.inbound);
    One(Opened(table, open, message) == Some(e) && key in open && open[key].replies == 0
        && Displaced(table, open, message, e).None?)
  }

  function Observe(table: seq<Exchange>, b: Books, message: Message): Books
    requires Sized(table, b)
  {
    var seen := Observation(table, b.slots, message);
    Books(
      After(table, b.slots, message, 0),
      seq(|table|, e requires 0 <= e < |table| => Entered(b.stats[e], seen, e)),
      Timed(b.theirs, seen, message.inbound),
      Timed(b.ours, seen, !message.inbound),
      seq(|table|, e requires 0 <= e < |table| => b.silent[e] + SilentlyReplaced(table, b.slots, message, e)))
  }

  function SweptLine(table: seq<Exchange>, line: ExchangeStats, open: OpenRequests, now: nat, e: nat): ExchangeStats
    requires e < |table|
  {
    if table[e].optional then line
    else line.(byPeers := line.byPeers + |SilentlyExpired(table, open, now, e, false)|,
               byUs := line.byUs + |SilentlyExpired(table, open, now, e, true)|)
  }

  function SweptSilent(table: seq<Exchange>, open: OpenRequests, now: nat, e: nat): nat
    requires e < |table|
  {
    if table[e].optional
    then |SilentlyExpired(table, open, now, e, false)| + |SilentlyExpired(table, open, now, e, true)|
    else 0
  }

  function SweepBooks(table: seq<Exchange>, b: Books, now: nat): Books
    requires Sized(table, b)
  {
    b.(slots := b.slots.(open := Swept(table, b.slots.open, now)),
       stats := seq(|table|, e requires 0 <= e < |table| => SweptLine(table, b.stats[e], b.slots.open, now, e)),
       silent := seq(|table|, e requires 0 <= e < |table| => b.silent[e] + SweptSilent(table, b.slots.open, now, e)))
  }

  lemma StaysSized(table: seq<Exchange>, b: Books, op: Op)
    requires Sized(table, b)
    ensures Sized(table, Apply(table, b, op))
  {
    if op.Heard? {
      StaysFiled(table, b.slots, op.message, 0);
    }
  }

  function Apply(table: seq<Exchange>, b: Books, op: Op): Books
    requires Sized(table, b)
  {
    match op
    case Heard(message) => Observe(table, b, message)
    case Sweep(now) => SweepBooks(table, b, now)
  }

  /** The account after any run of messages and sweeps. */
  function Run(table: seq<Exchange>, ops: seq<Op>): (b: Books)
    ensures Sized(table, b)
  {
    if ops == [] then Blank(table)
    else
      var b := Run(table, ops[..|ops| - 1]);
      StaysSized(table, b, ops[|ops| - 1]);
      Apply(table, b, ops[|ops| - 1])
  }

  lemma RunOneMore(table: seq<Exchange>, ops: seq<Op>, op: Op)
    ensures Run(table, ops + [op]) == Apply(table, Run(table, ops), op)
  {
    assert (ops + [op])[..|ops|] == ops;
  }

  // ------------------------------------------------------------- the balance

  /** Open requests of one exchange that have had no reply. */
  function Waiting(open: OpenRequests, e: nat): set<Key> {
    set key | key in open && key.exchange == e && open[key].replies == 0
  }

  ghost predicate LineBalances(table: seq<Exchange>, b: Books, e: nat)
    requires Sized(table, b) && e < |table|
  {
    RequestsBalance(table, b, e) && AnswersBalance(table, b, e)
  }

  ghost predicate RequestsBalance(table: seq<Exchange>, b: Books, e: nat)
    requires Sized(table, b) && e < |table|
  {
    var line := b.stats[e];
    && line.requests == line.answered + line.Unanswered() + |Waiting(b.slots.open, e)| + b.silent[e]
    && (!table[e].optional && !table[e].multi ==> b.silent[e] == 0)
    && (table[e].optional ==> line.Unanswered() == 0)
  }

  /** Each first answer was timed on one side or the other. */
  ghost predicate AnswersBalance(table: seq<Exchange>, b: Books, e: nat)
    requires Sized(table, b) && e < |table|
  {
    var line := b.stats[e];
    && line.answered <= b.theirs[e].count + b.ours[e].count
    && (!table[e].multi ==> line.answered == b.theirs[e].count + b.ours[e].count)
  }

  lemma WaitingAfterReply(table: seq<Exchange>, open: OpenRequests, key: Key, e: nat)
    requires key in open && key.exchange < |table| && Filed(table, open)
    ensures Waiting(AfterReply(table, open, Some(key)), e) == Waiting(open, e) - {key}
    ensures key in Waiting(open, e) <==> key.exchange == e && open[key].replies == 0
  {
  }

  lemma WaitingAfterOpening(open: OpenRequests, key: Key, request: Open, e: nat)
    requires request.replies == 0
    ensures Waiting(open[key := request], e) == if key.exchange == e then Waiting(open, e) + {key} else Waiting(open, e)
  {
  }

  lemma ReplyWaiting(table: seq<Exchange>, open: OpenRequests, message: Message, e: nat)
    requires Filed(table, open) && e < |table|
    ensures Filed(table, Answer(table, open, message))
    ensures |Waiting(Answer(table, open, message), e)| + FirstAnswers(table, open, message, e) == |Waiting(open, e)|
  {
    StaysFiled(table, Slots(open, 0), message, 0);
    var best := BestOpen(table, open, message, |table|);
    if best.Some? {
      WaitingAfterReply(table, open, best.value, e);
    }
  }

  function FirstAnswers(table: seq<Exchange>, open: OpenRequests, message: Message, e: nat): nat {
    var reply := ReplyTo(table, open, message);
    One(reply.Some? && reply.value.exchange == e && IsFirstReply(table, open, message))
  }

  lemma OpeningWaiting(table: seq<Exchange>, b: Books, message: Message, e: nat)
    requires Sized(table, b) && e < |table|
    ensures var seen := Observation(table, b.slots, message);
            var gone := SilentlyReplaced(table, b.slots, message, e)
                        + One(seen.displaced.Some? && seen.displaced.value.exchange == e);
            var waiting := |Waiting(Answer(table, b.slots.open, message), e)|;
            |Waiting(After(table, b.slots, message, 0).open, e)| + gone == waiting + One(seen.openedExchange == Some(e))
  {
    var answered := Answer(table, b.slots.open, message);
    var asked := Opened(table, answered, message);
    if asked.Some? {
      var key := Key(message.peer, asked.value, message.inbound);
      WaitingAfterOpening(answered, key, Open(0, message.timestamp, 0), e);
      var waiting := Waiting(answered, e);
      if key in waiting {
        assert waiting + {key} == waiting;
      }
    }
  }

  lemma ObserveBalances(table: seq<Exchange>, b: Books, message: Message, e: nat)
    requires Sized(table, b) && e < |table| && LineBalances(table, b, e)
    ensures Sized(table, Observe(table, b, message)) && LineBalances(table, Observe(table, b, message), e)
  {
    StaysSized(table, b, Heard(message));
    ObserveBalancesRequests(table, b, message, e);
    ObserveBalancesAnswers(table, b, message, e);
  }

  lemma ObserveBalancesRequests(table: seq<Exchange>, b: Books, message: Message, e: nat)
    requires Sized(table, b) && e < |table| && RequestsBalance(table, b, e) && Sized(table, Observe(table, b, message))
    ensures RequestsBalance(table, Observe(table, b, message), e)
  {
    ReplyWaiting(table, b.slots.open, message, e);
    OpeningWaiting(table, b, message, e);
  }

  lemma ObserveBalancesAnswers(table: seq<Exchange>, b: Books, message: Message, e: nat)
    requires Sized(table, b) && e < |table| && AnswersBalance(table, b, e) && Sized(table, Observe(table, b, message))
    ensures AnswersBalance(table, Observe(table, b, message), e)
  {
  }

  /** A sweep parts the waiting requests into those that stay and, by direction,
      those that go. */
  lemma SweptWaiting(table: seq<Exchange>, open: OpenRequests, now: nat, e: nat)
    ensures |Waiting(open, e)| == |Waiting(Swept(table, open, now), e)|
                                  + |SilentlyExpired(table, open, now, e, false)|
                                  + |SilentlyExpired(table, open, now, e, true)|
  {
    var out, in_ := SilentlyExpired(table, open, now, e, false), SilentlyExpired(table, open, now, e, true);
    assert Waiting(open, e) == Waiting(Swept(table, open, now), e) + (out + in_);
    assert Waiting(Swept(table, open, now), e) !! (out + in_) && out !! in_;
  }

  lemma SweepBalances(table: seq<Exchange>, b: Books, now: nat, e: nat)
    requires Sized(table, b) && e < |table| && LineBalances(table, b, e)
    ensures Sized(table, SweepBooks(table, b, now)) && LineBalances(table, SweepBooks(table, b, now), e)
  {
    StaysSized(table, b, Sweep(now));
    SweptWaiting(table, b.slots.open, now, e);
  }

  lemma BlankBalances(table: seq<Exchange>, b: Books, e: nat)
    requires Sized(table, b) && e < |table| && b.slots.open.Keys == {}
    requires b.stats[e] == ExchangeStats(0, 0, 0, 0) && b.silent[e] == 0
    requires b.theirs[e].count == 0 && b.ours[e].count == 0
    ensures LineBalances(table, b, e)
  {
    assert Waiting(b.slots.open, e) == {};
  }

  lemma StepBalances(table: seq<Exchange>, b: Books, op: Op, e: nat)
    requires Sized(table, b) && e < |table| && LineBalances(table, b, e)
    ensures Sized(table, Apply(table, b, op)) && LineBalances(table, Apply(table, b, op), e)
  {
    match op
    case Heard(message) => ObserveBalances(table, b, message, e);
    case Sweep(now) => SweepBalances(table, b, now, e);
  }

  /** In every reachable state, whatever the messages and whenever the sweeps:
      each request opened is counted once, as answered, unanswered, still open
      or silently retired. No single-reply request that silence reflects on is
      retired silently, and no optional one is called unanswered. */
  lemma {:induction false} EveryLineBalances(table: seq<Exchange>, ops: seq<Op>, e: nat)
    requires e < |table|
    ensures LineBalances(table, Run(table, ops), e)
  {
    if ops == [] {
      BlankBalances(table, Run(table, ops), e);
    } else {
      EveryLineBalances(table, ops[..|ops| - 1], e);
      StepBalances(table, Run(table, ops[..|ops| - 1]), ops[|ops| - 1], e);
    }
  }

  /** The undetermined remainder is what is still open without a reply and what
      was silently retired: neither of its subtractions ever stops short. */
  lemma UndeterminedIsExact(table: seq<Exchange>, ops: seq<Op>, e: nat)
    requires e < |table|
    ensures var b := Run(table, ops); var line := b.stats[e];
            && line.requests >= line.answered + line.Unanswered()
            && line.Undetermined() == |Waiting(b.slots.open, e)| + b.silent[e]
  {
    EveryLineBalances(table, ops, e);
  }

  // -------------------------------------------------------------- the object

  class Analysis {
    const table: seq<Exchange>
    const tracker: Tracker
    var exchanges: seq<ExchangeStats>
    var replyLatency: seq<Sketch>
    var ourReplyLatency: seq<Sketch>
    var sinceSweep: nat
    ghost var silent: seq<nat>
    ghost var history: seq<Op>

    ghost predicate Sound()
      reads this, tracker
    {
      tracker.table == table && Sized(table, Value())
    }

    /** The object is the account of its history. */
    ghost predicate Valid()
      reads this, tracker
    {
      Sound() && sinceSweep < SWEEP_EVERY && Value() == Run(table, history)
    }

    ghost function Value(): Books
      reads this, tracker
    {
      Books(tracker.Value(), exchanges, replyLatency, ourReplyLatency, silent)
    }

    constructor (table: seq<Exchange>)
      ensures Valid() && this.table == table && history == [] && sinceSweep == 0 && fresh(tracker)
    {
      this.table := table;
      tracker := new Tracker(table);
      exchanges := seq(|table|, _ => ExchangeStats(0, 0, 0, 0));
      replyLatency := seq(|table|, _ => Empty());
      ourReplyLatency := seq(|table|, _ => Empty());
      sinceSweep := 0;
      silent := seq(|table|, _ => 0);
      history := [];
    }

    /** Enter one message in the books, and sweep them if that is due. */
    method ObserveExchange(message: Message)
      requires Valid()
      modifies this, tracker
      ensures Valid()
      ensures var due := old(sinceSweep) + 1 >= SWEEP_EVERY;
              && history == old(history) + [Heard(message)] + (if due then [Sweep(message.timestamp)] else [])
              && sinceSweep == if due then 0 else old(sinceSweep) + 1
    {
      RecordMessage(message);
      RunOneMore(table, history, Heard(message));
      history := history + [Heard(message)];
      assert history + [] == history;
      sinceSweep := sinceSweep + 1;
      if sinceSweep >= SWEEP_EVERY {
        sinceSweep := 0;
        SweepAt(message.timestamp);
      }
    }

    /** At the end of a file whatever has timed out by its last message counts. */
    method EndFile(last: Option<nat>)
      requires Valid()
      modifies this, tracker
      ensures Valid() && sinceSweep == old(sinceSweep)
      ensures history == old(history) + if last.Some? then [Sweep(last.value)] else []
    {
      assert history + [] == history;
      if last.Some? {
        SweepAt(last.value);
      }
    }

    method SweepAt(now: nat)
      requires Valid()
      modifies this, tracker
      ensures Valid() && history == old(history) + [Sweep(now)] && sinceSweep == old(sinceSweep)
    {
      SweepExchanges(now);
      RunOneMore(table, history, Sweep(now));
      history := history + [Sweep(now)];
    }

    method RecordMessage(message: Message)
      requires Sound()
      modifies this, tracker
      ensures Sound() && Value() == Observe(table, old(Value()), message)
      ensures history == old(history) && sinceSweep == old(sinceSweep)
    {
      ghost var before := Value();
      ghost var after := Observe(table, before, message);
      StaysSized(table, before, Heard(message));
      var observed := tracker.Observe(message, 0);
      RecordStats(observed);
      assert exchanges == after.stats;
      RecordTimes(observed, message.inbound);
      silent := after.silent;
    }

    /** An inbound answer goes to `replyLatency`, an outbound one to
        `ourReplyLatency`. */
    method RecordTimes(observed: Observed, inbound: bool)
      requires observed.answered.Some? ==> observed.answered.value.exchange < |replyLatency| == |ourReplyLatency|
      modifies this`replyLatency, this`ourReplyLatency
      ensures replyLatency == Timed(old(replyLatency), observed, inbound)
      ensures ourReplyLatency == Timed(old(ourReplyLatency), observed, !inbound)
    {
      if observed.answered.Some? {
        var reply := observed.answered.value;
        if inbound {
          replyLatency := replyLatency[reply.exchange := Added(replyLatency[reply.exchange], reply.elapsedMs)];
        } else {
          ourReplyLatency := ourReplyLatency[reply.exchange := Added(ourReplyLatency[reply.exchange], reply.elapsedMs)];
        }
      }
    }

    method RecordStats(observed: Observed)
      requires observed.openedExchange.Some? ==> observed.openedExchange.value < |exchanges|
      requires observed.answered.Some? ==> observed.answered.value.exchange < |exchanges|
      requires observed.displaced.Some? ==> observed.displaced.value.exchange < |exchanges|
      modifies this`exchanges
      ensures |exchanges| == |old(exchanges)|
      ensures forall e | 0 <= e < |exchanges| :: exchanges[e] == Entered(old(exchanges)[e], observed, e)
    {
      if observed.openedExchange.Some? {
        var e := observed.openedExchange.value;
        exchanges := exchanges[e := exchanges[e].(requests := exchanges[e].requests + 1)];
      }
      if observed.answered.Some? && observed.firstReply {
        var e := observed.answered.value.exchange;
        exchanges := exchanges[e := exchanges[e].(answered := exchanges[e].answered + 1)];
      }
      if observed.displaced.Some? {
        NoteUnanswered(observed.displaced.value.exchange, observed.displaced.value.requestInbound);
      }
    }

    /** Charge one silence to the receiving end of the request. */
    method NoteUnanswered(exchange: nat, requestWasInbound: bool)
      requires exchange < |exchanges|
      modifies this`exchanges
      ensures exchanges == old(exchanges)[exchange := Blamed(old(exchanges)[exchange], requestWasInbound)]
    {
      if requestWasInbound {
        exchanges := exchanges[exchange := exchanges[exchange].(byUs := exchanges[exchange].byUs + 1)];
      } else {
        exchanges := exchanges[exchange := exchanges[exchange].(byPeers := exchanges[exchange].byPeers + 1)];
      }
    }

    /** Sweep the tracker and charge what it reports. */
    method SweepExchanges(now: nat)
      requires Sound()
      modifies this, tracker
      ensures Sound() && Value() == SweepBooks(table, old(Value()), now)
      ensures history == old(history) && sinceSweep == old(sinceSweep)
    {
      ghost var before := Value();
      ghost var after := SweepBooks(table, before, now);
      StaysSized(table, before, Sweep(now));
      var retired, order := tracker.Sweep(now);
      ChargeAll(retired, order);
      forall e | 0 <= e < |table| ensures exchanges[e] == after.stats[e] {
        TalliedIsSwept(table, before.stats[e], before.slots.open, now, order, e);
      }
      assert exchanges == after.stats;
      silent := after.silent;
    }

    /** Charge each retired request, in the order the sweep reported them. */
    method ChargeAll(retired: seq<(nat, Unanswered)>, ghost order: seq<Key>)
      requires |retired| == |order|
      requires forall i | 0 <= i < |order| ::
        && retired[i].1.exchange == order[i].exchange < |exchanges| && retired[i].1.requestInbound == order[i].inbound
      modifies this`exchanges
      ensures |exchanges| == |old(exchanges)|
      ensures forall e | 0 <= e < |exchanges| :: exchanges[e] == Tallied(old(exchanges)[e], order, e)
    {
      for i := 0 to |retired|
        invariant |exchanges| == |old(exchanges)|
        invariant forall e | 0 <= e < |exchanges| :: exchanges[e] == Tallied(old(exchanges)[e], order[..i], e)
      {
        assert order[..i + 1][..i] == order[..i];
        NoteUnanswered(retired[i].1.exchange, retired[i].1.requestInbound);
      }
      assert order[..|order|] == order;
    }
  }

  function Blamed(line: ExchangeStats, requestWasInbound: bool): ExchangeStats {
    if requestWasInbound then line.(byUs := line.byUs + 1) else line.(byPeers := line.byPeers + 1)
  }

  function KeysOf(order: seq<Key>, e: nat, inbound: bool): set<Key> {
    set key | key in order && key.exchange == e && key.inbound == inbound
  }

  /** The line of `e` after the reports of `order` have been charged to it. */
  function Tallied(line: ExchangeStats, order: seq<Key>, e: nat): ExchangeStats {
    if order == [] then line
    else
      var key := order[|order| - 1];
      var before := Tallied(line, order[..|order| - 1], e);
      if key.exchange == e then Blamed(before, key.inbound) else before
  }

  lemma KeysOfOneMore(front: seq<Key>, key: Key, e: nat, inbound: bool)
    requires key !in front
    ensures |KeysOf(front + [key], e, inbound)|
            == |KeysOf(front, e, inbound)| + One(key.exchange == e && key.inbound == inbound)
  {
    if key.exchange == e && key.inbound == inbound {
      assert KeysOf(front + [key], e, inbound) == KeysOf(front, e, inbound) + {key};
    } else {
      assert KeysOf(front + [key], e, inbound) == KeysOf(front, e, inbound);
    }
  }

  lemma {:induction false} TalliedCounts(line: ExchangeStats, order: seq<Key>, e: nat)
    requires forall i, j | 0 <= i < j < |order| :: order[i] != order[j]
    ensures Tallied(line, order, e)
         == line.(byPeers := line.byPeers + |KeysOf(order, e, false)|, byUs := line.byUs + |KeysOf(order, e, true)|)
  {
    if order == [] {
      assert KeysOf(order, e, false) == {} && KeysOf(order, e, true) == {};
    } else {
      var front, key := order[..|order| - 1], order[|order| - 1];
      TalliedCounts(line, front, e);
      assert order == front + [key];
      KeysOfOneMore(front, key, e, false);
      KeysOfOneMore(front, key, e, true);
    }
  }

  /** Charging the reports one by one, in whatever order they came, is charging
      each exchange and side with how many there were. */
  lemma TalliedIsSwept(table: seq<Exchange>, line: ExchangeStats, open: OpenRequests, now: nat, order: seq<Key>, e: nat)
    requires e < |table| && Filed(table, open) && Enumerates(order, Reported(table, open, now))
    ensures Tallied(line, order, e) == SweptLine(table, line, open, now, e)
  {
    TalliedCounts(line, order, e);
    forall inbound: bool ensures KeysOf(order, e, inbound) ==
      if table[e].optional then {} else SilentlyExpired(table, open, now, e, inbound) {
      forall key ensures key in KeysOf(order, e, inbound) <==>
        key in (if table[e].optional then {} else SilentlyExpired(table, open, now, e, inbound)) {
      }
    }
  }
}
