/** Every figure of the account, told from the history alone: which requests were
    made, which were answered and how late, and on whom each silence was charged. */
module LedgerHistory {
  import opened Basics
  import opened Exchanges
  import opened Latency
  import opened Tracking
  import opened Ledger
  import opened ExchangeHistory

  /** Requests of exchange `e`, of one direction, that the cap did not turn away. */
  ghost function Requests(table: seq<Exchange>, ops: seq<Op>, e: nat, inbound: bool): nat {
    if ops == [] then 0
    else
      var front, last := ops[..|ops| - 1], ops[|ops| - 1];
      Requests(table, front, e, inbound)
      + One(last.Heard? && JustAsked(table, ops, Key(last.message.peer, e, inbound)))
  }

  /** The times of the answers in exchange `e` that came in, or that went out. */
  ghost function AnswerTimes(table: seq<Exchange>, ops: seq<Op>, e: nat, inbound: bool): seq<nat> {
    if ops == [] then []
    else
      var front, last := ops[..|ops| - 1], ops[|ops| - 1];
      var earlier := AnswerTimes(table, front, e, inbound);
      if last.Heard? && last.message.inbound == inbound
         && IsAnswer(table, front, last.message, Key(last.message.peer, e, !inbound))
      then earlier + [Elapsed(last.message.timestamp, Since(table, front, Key(last.message.peer, e, !inbound)))]
      else earlier
  }

  /** Requests of exchange `e` that have been answered: their first answers. */
  ghost function FirstAnswers(table: seq<Exchange>, ops: seq<Op>, e: nat): nat {
    if ops == [] then 0
    else
      var front, last := ops[..|ops| - 1], ops[|ops| - 1];
      FirstAnswers(table, front, e) + One(last.Heard? && AnswersFirst(table, front, last.message, e))
  }

  ghost predicate AnswersFirst(table: seq<Exchange>, ops: seq<Op>, message: Message, e: nat) {
    var key := Key(message.peer, e, !message.inbound);
    IsAnswer(table, ops, message, key) && AnswersSince(table, ops, key) == 0
  }

  /** The silences a sweep finds: of exchange `e`, of one direction, neglected past
      the window. */
  ghost function Silences(table: seq<Exchange>, ops: seq<Op>, now: nat, e: nat, inbound: bool): set<Key> {
    set key | key in Askers(table, ops) && key.exchange == e && key.inbound == inbound
              && Neglected(table, ops, key) && Overdue(table, ops, key, now)
  }

  /** Whether a message asks again for what is neglected still. */
  ghost predicate AsksAgain(table: seq<Exchange>, ops: seq<Op>, message: Message, e: nat, inbound: bool) {
    var key := Key(message.peer, e, inbound);
    JustAsked(table, ops + [Heard(message)], key) && Neglected(table, ops, key)
  }

  /** Silences charged to the receiving end of requests of one direction: those
      asked again, where silence is judged at once, and those a sweep finds, where
      it is judged at all. */
  ghost function Charges(table: seq<Exchange>, ops: seq<Op>, e: nat, inbound: bool): nat
    requires e < |table|
  {
    if ops == [] then 0
    else
      var front := ops[..|ops| - 1];
      Charges(table, front, e, inbound) +
      match ops[|ops| - 1]
      case Heard(message) => One(AsksAgain(table, front, message, e, inbound) && !table[e].optional && !table[e].multi)
      case Sweep(now) => if table[e].optional then 0 else |Silences(table, front, now, e, inbound)|
  }

  // ---------------------------------------------------------------- one message

  lemma HeardTimes(table: seq<Exchange>, front: seq<Op>, message: Message, e: nat, inbound: bool)
    ensures AnswerTimes(table, front + [Heard(message)], e, inbound) ==
            AnswerTimes(table, front, e, inbound) +
            if message.inbound == inbound && IsAnswer(table, front, message, Key(message.peer, e, !inbound))
            then [Elapsed(message.timestamp, Since(table, front, Key(message.peer, e, !inbound)))] else []
  {
    assert (front + [Heard(message)])[..|front|] == front;
  }

  /** One side's sketch of `e` gains the answer's time if it is that side's. */
  lemma {:induction false} TimedTells(table: seq<Exchange>, front: seq<Op>, message: Message, e: nat, inbound: bool,
                                      side: seq<Sketch>)
    requires e < |side| == |table| && side[e] == SketchOf(AnswerTimes(table, front, e, inbound))
    ensures var seen := Observation(table, Run(table, front).slots, message);
            Timed(side, seen, message.inbound == inbound)[e]
              == SketchOf(AnswerTimes(table, front + [Heard(message)], e, inbound))
  {
    var key := Key(message.peer, e, !message.inbound);
    AnswerTellsHistory(table, front, message, key);
    HeardTimes(table, front, message, e, inbound);
    var times := AnswerTimes(table, front, e, inbound);
    if message.inbound == inbound && IsAnswer(table, front, message, key) {
      AddedIsSketch(times, Elapsed(message.timestamp, Since(table, front, key)));
    } else {
      assert times + [] == times;
    }
  }

  /** The account of `e` is what the history tells. */
  ghost predicate LineTells(table: seq<Exchange>, ops: seq<Op>, line: ExchangeStats, e: nat)
    requires e < |table|
  {
    && line.requests == Requests(table, ops, e, false) + Requests(table, ops, e, true)
    && line.answered == FirstAnswers(table, ops, e)
    && line.byPeers == Charges(table, ops, e, false)
    && line.byUs == Charges(table, ops, e, true)
  }

  ghost predicate TimesTell(table: seq<Exchange>, ops: seq<Op>, b: Books, e: nat)
    requires Sized(table, b) && e < |table|
  {
    && b.theirs[e] == SketchOf(AnswerTimes(table, ops, e, true))
    && b.ours[e] == SketchOf(AnswerTimes(table, ops, e, false))
  }

  ghost predicate AccountTells(table: seq<Exchange>, ops: seq<Op>, e: nat)
    requires e < |table|
  {
    LineTells(table, ops, Run(table, ops).stats[e], e) && TimesTell(table, ops, Run(table, ops), e)
  }

  lemma HeardCounts(table: seq<Exchange>, front: seq<Op>, message: Message, e: nat, inbound: bool)
    requires e < |table|
    ensures var ops := front + [Heard(message)];
            && Requests(table, ops, e, inbound)
               == Requests(table, front, e, inbound) + One(JustAsked(table, ops, Key(message.peer, e, inbound)))
            && FirstAnswers(table, ops, e)
               == FirstAnswers(table, front, e) + One(AnswersFirst(table, front, message, e))
            && Charges(table, ops, e, inbound)
               == Charges(table, front, e, inbound)
                  + One(AsksAgain(table, front, message, e, inbound) && !table[e].optional && !table[e].multi)
  {
    assert (front + [Heard(message)])[..|front|] == front;
  }

  /** What an observation adds to a line, told from the history. */
  lemma {:induction false} ObservationTells(table: seq<Exchange>, front: seq<Op>, message: Message, e: nat)
    requires e < |table|
    ensures var seen := Observation(table, Run(table, front).slots, message);
            var key := Key(message.peer, e, message.inbound);
            && (seen.openedExchange == Some(e) <==> JustAsked(table, front + [Heard(message)], key))
            && (seen.answered.Some? && seen.answered.value.exchange == e && seen.firstReply
                <==> AnswersFirst(table, front, message, e))
            && (seen.displaced.Some? && seen.displaced.value.exchange == e
                <==> AsksAgain(table, front, message, e, message.inbound) && !table[e].optional && !table[e].multi)
            && (seen.displaced.Some? && seen.displaced.value.exchange == e
                ==> seen.displaced.value.requestInbound == message.inbound)
  {
    var key := Key(message.peer, e, message.inbound);
    AnswerTellsHistory(table, front, message, Key(message.peer, e, !message.inbound));
    if JustAsked(table, front + [Heard(message)], key) {
      DisplacedTellsHistory(table, front, message, key);
    } else {
      NothingAsked(table, front, message, e);
    }
  }

  /** No key of the other direction is asked by a message. */
  lemma AsksItsOwnWay(table: seq<Exchange>, ops: seq<Op>, message: Message, e: nat)
    ensures !JustAsked(table, ops + [Heard(message)], Key(message.peer, e, !message.inbound))
  {
  }

  lemma {:induction false} EnteredTells(table: seq<Exchange>, front: seq<Op>, message: Message, line: ExchangeStats,
                                        e: nat)
    requires e < |table| && LineTells(table, front, line, e)
    ensures var seen := Observation(table, Run(table, front).slots, message);
            LineTells(table, front + [Heard(message)], Entered(line, seen, e), e)
  {
    ObservationTells(table, front, message, e);
    AsksItsOwnWay(table, front, message, e);
    HeardCounts(table, front, message, e, false);
    HeardCounts(table, front, message, e, true);
  }

  lemma {:induction false} ObserveTells(table: seq<Exchange>, front: seq<Op>, message: Message, e: nat)
    requires e < |table| && AccountTells(table, front, e)
    ensures AccountTells(table, front + [Heard(message)], e)
  {
    var b := Run(table, front);
    RunOneMore(table, front, Heard(message));
    EnteredTells(table, front, message, b.stats[e], e);
    TimedTells(table, front, message, e, true, b.theirs);
    TimedTells(table, front, message, e, false, b.ours);
  }

  // ------------------------------------------------------------------ one sweep

  /** What a sweep retires unanswered is what has been neglected past its window. */
  lemma {:induction false} SilencesAreExpired(table: seq<Exchange>, ops: seq<Op>, now: nat, e: nat, inbound: bool)
    ensures Silences(table, ops, now, e, inbound) == SilentlyExpired(table, Run(table, ops).slots.open, now, e, inbound)
  {
    var open := Run(table, ops).slots.open;
    OpenExactlyWhileWaiting(table, ops);
    forall key: Key
      ensures key in Silences(table, ops, now, e, inbound) <==> key in SilentlyExpired(table, open, now, e, inbound)
    {
      assert SlotTells(table, ops, open, key);
      if Waits(table, ops, key) {
        WaitersAsked(table, ops, key);
      }
    }
  }

  lemma {:induction false} SweptCounts(table: seq<Exchange>, front: seq<Op>, now: nat, e: nat, inbound: bool)
    requires e < |table|
    ensures var ops := front + [Sweep(now)];
            && Requests(table, ops, e, inbound) == Requests(table, front, e, inbound)
            && FirstAnswers(table, ops, e) == FirstAnswers(table, front, e)
            && AnswerTimes(table, ops, e, inbound) == AnswerTimes(table, front, e, inbound)
            && Charges(table, ops, e, inbound)
               == Charges(table, front, e, inbound)
                  + if table[e].optional then 0 else |Silences(table, front, now, e, inbound)|
  {
    assert (front + [Sweep(now)])[..|front|] == front;
  }

  lemma {:induction false} SweptLineTells(table: seq<Exchange>, front: seq<Op>, line: ExchangeStats, now: nat, e: nat)
    requires e < |table| && LineTells(table, front, line, e)
    ensures LineTells(table, front + [Sweep(now)], SweptLine(table, line, Run(table, front).slots.open, now, e), e)
  {
    SilencesAreExpired(table, front, now, e, false);
    SilencesAreExpired(table, front, now, e, true);
    SweptCounts(table, front, now, e, false);
    SweptCounts(table, front, now, e, true);
  }

  lemma {:induction false} SweepTells(table: seq<Exchange>, front: seq<Op>, now: nat, e: nat)
    requires e < |table| && AccountTells(table, front, e)
    ensures AccountTells(table, front + [Sweep(now)], e)
  {
    RunOneMore(table, front, Sweep(now));
    SweptLineTells(table, front, Run(table, front).stats[e], now, e);
    SweptCounts(table, front, now, e, false);
    SweptCounts(table, front, now, e, true);
  }

  // ---------------------------------------------------------------- every figure

  lemma {:induction false} NothingTells(table: seq<Exchange>, e: nat)
    requires e < |table|
    ensures AccountTells(table, [], e)
  {
    GatheredIsSketch([]);
    assert Run(table, []) == Blank(table);
  }

  lemma {:induction false} OneMoreTells(table: seq<Exchange>, ops: seq<Op>, e: nat)
    requires e < |table| && ops != [] && AccountTells(table, ops[..|ops| - 1], e)
    ensures AccountTells(table, ops, e)
  {
    var front, last := ops[..|ops| - 1], ops[|ops| - 1];
    assert ops == front + [last];
    match last
    case Heard(message) => ObserveTells(table, front, message, e);
    case Sweep(now) => SweepTells(table, front, now, e);
  }

  /** After any messages and sweeps, whether or not the cap was reached: the line
      of an exchange holds the requests made, the requests answered, and the
      silences of those who were asked and of us; and its two sketches are those
      of the times of the answers that came in and of those that went out. */
  lemma {:induction false} AccountTellsHistory(table: seq<Exchange>, ops: seq<Op>, e: nat)
    requires e < |table|
    ensures AccountTells(table, ops, e)
  {
    if ops == [] {
      NothingTells(table, e);
    } else {
      AccountTellsHistory(table, ops[..|ops| - 1], e);
      OneMoreTells(table, ops, e);
    }
  }
}
