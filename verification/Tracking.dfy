/** The streaming matcher: one open request per peer, exchange and direction,
    over a whole archive. */
module Tracking {
  import opened Basics
  import opened Exchanges

  /** Past this size the map takes no more requests. */
  const MAX_OPEN := 500_000

  datatype Message = Message(peer: nat, command: string, inbound: bool, timestamp: nat)

  datatype Open = Open(position: nat, timestamp: nat, replies: nat)

  datatype Unanswered = Unanswered(exchange: nat, position: nat, ageMs: nat, requestInbound: bool)

  datatype Reply = Reply(exchange: nat, request: nat, elapsedMs: nat)

  /** A message's effect: what it answered, what it replaced, what it opened. */
  datatype Observed = Observed(
    answered: Option<Reply>, firstReply: bool, displaced: Option<Unanswered>, openedExchange: Option<nat>)

  type OpenRequests = map<Key, Open>

  datatype Slots = Slots(open: OpenRequests, dropped: nat)

  /** Every open request is filed under an exchange of the table, and those of
      single-reply exchanges are unanswered. */
  ghost predicate Filed(table: seq<Exchange>, open: OpenRequests) {
    forall key | key in open ::
      key.exchange < |table| && (!table[key.exchange].multi ==> open[key].replies == 0)
  }

  // ------------------------------------------------------------ observations

  predicate CanAnswer(table: seq<Exchange>, open: OpenRequests, message: Message, e: nat)
    requires e < |table|
  {
    var key := Key(message.peer, e, !message.inbound);
    && message.command in table[e].replies
    && key in open
    && Elapsed(message.timestamp, open[key].timestamp) <= table[e].windowMs
  }

  /** The oldest request the message can answer among the first `n` exchanges. */
  function BestOpen(table: seq<Exchange>, open: OpenRequests, message: Message, n: nat): (best: Option<Key>)
    requires n <= |table|
    ensures best.Some? ==>
              && best.value.exchange < n && CanAnswer(table, open, message, best.value.exchange)
              && best.value == Key(message.peer, best.value.exchange, !message.inbound)
  {
    if n == 0 then None
    else
      var best := BestOpen(table, open, message, n - 1);
      var key := Key(message.peer, n - 1, !message.inbound);
      if CanAnswer(table, open, message, n - 1) && (best.None? || open[key].timestamp < open[best.value].timestamp)
      then Some(key) else best
  }

  /** The map once `best` is answered: without it, or with one reply more. */
  function AfterReply(table: seq<Exchange>, open: OpenRequests, best: Option<Key>): OpenRequests
    requires best.Some? ==> best.value in open && best.value.exchange < |table|
  {
    match best
    case None => open
    case Some(key) =>
      if table[key.exchange].multi then open[key := open[key].(replies := open[key].replies + 1)] else open - {key}
  }

  function Answer(table: seq<Exchange>, open: OpenRequests, message: Message): OpenRequests {
    AfterReply(table, open, BestOpen(table, open, message, |table|))
  }

  function ReplyTo(table: seq<Exchange>, open: OpenRequests, message: Message): Option<Reply> {
    match BestOpen(table, open, message, |table|)
    case None => None
    case Some(key) =>
      Some(Reply(key.exchange, open[key].position, Elapsed(message.timestamp, open[key].timestamp)))
  }

  predicate IsFirstReply(table: seq<Exchange>, open: OpenRequests, message: Message) {
    match BestOpen(table, open, message, |table|)
    case None => false
    case Some(key) => !table[key.exchange].multi || open[key].replies == 0
  }

  /** The unanswered request that a new one of its key pushes out, reported only
      for exchanges neither optional nor multi-reply. */
  function Displaced(table: seq<Exchange>, open: OpenRequests, message: Message, e: nat): Option<Unanswered>
    requires e < |table|
  {
    var key := Key(message.peer, e, message.inbound);
    if key in open && open[key].replies == 0 && !table[e].optional && !table[e].multi
    then Some(Unanswered(e, open[key].position, Elapsed(message.timestamp, open[key].timestamp), message.inbound))
    else None
  }

  /** The exchange a message opens a request for, unless the cap is reached. */
  function Opened(table: seq<Exchange>, open: OpenRequests, message: Message): (e: Option<nat>)
    ensures e.Some? ==> e.value < |table|
  {
    if |open| < MAX_OPEN then Opens(table, message.command) else None
  }

  function After(table: seq<Exchange>, st: Slots, message: Message, position: nat): Slots {
    var open := Answer(table, st.open, message);
    match Opened(table, open, message)
    case None => Slots(open, st.dropped + if Opens(table, message.command).Some? then 1 else 0)
    case Some(e) =>
      Slots(open[Key(message.peer, e, message.inbound) := Open(position, message.timestamp, 0)], st.dropped)
  }

  function Observation(table: seq<Exchange>, st: Slots, message: Message): Observed {
    var open := Answer(table, st.open, message);
    var e := Opened(table, open, message);
    Observed(
      ReplyTo(table, st.open, message),
      IsFirstReply(table, st.open, message),
      if e.Some? then Displaced(table, open, message, e.value) else None,
      e)
  }

  lemma StaysFiled(table: seq<Exchange>, st: Slots, message: Message, position: nat)
    requires Filed(table, st.open)
    ensures Filed(table, Answer(table, st.open, message))
    ensures Filed(table, After(table, st, message, position).open)
  {
  }

  // ------------------------------------------------------------------ sweeps

  predicate Expired(table: seq<Exchange>, key: Key, request: Open, now: nat) {
    key.exchange < |table| && Elapsed(now, request.timestamp) > table[key.exchange].windowMs
  }

  function Swept(table: seq<Exchange>, open: OpenRequests, now: nat): OpenRequests {
    map key | key in open && !Expired(table, key, open[key], now) :: open[key]
  }

  /** Expired requests that were never answered, of one exchange and direction. */
  function SilentlyExpired(table: seq<Exchange>, open: OpenRequests, now: nat, e: nat, inbound: bool): set<Key> {
    set key | key in open && Expired(table, key, open[key], now) && open[key].replies == 0
              && key.exchange == e && key.inbound == inbound
  }

  /** The requests a sweep reports: silence is no news where it is normal. */
  function Reported(table: seq<Exchange>, open: OpenRequests, now: nat): set<Key> {
    set key | key in open && Expired(table, key, open[key], now) && open[key].replies == 0
              && !table[key.exchange].optional
  }

  function Report(key: Key, request: Open, now: nat): (nat, Unanswered) {
    (key.peer, Unanswered(key.exchange, request.position, Elapsed(now, request.timestamp), key.inbound))
  }

  ghost predicate Enumerates(order: seq<Key>, all: set<Key>) {
    && (forall i, j | 0 <= i < j < |order| :: order[i] != order[j])
    && (forall key :: key in order <==> key in all)
  }

  class Tracker {
    const table: seq<Exchange>
    var open: OpenRequests
    var dropped: nat

    ghost predicate Valid()
      reads this
    {
      Filed(table, open)
    }

    ghost function Value(): Slots
      reads this
    {
      Slots(open, dropped)
    }

    constructor (table: seq<Exchange>)
      ensures Valid() && this.table == table && Value() == Slots(map[], 0)
    {
      this.table := table;
      open, dropped := map[], 0;
    }

    /** Answer, then open: the tracker's whole reaction to a message. */
    method Observe(message: Message, position: nat) returns (result: Observed)
      requires Valid()
      modifies this
      ensures Valid()
      ensures Value() == After(table, old(Value()), message, position)
      ensures result == Observation(table, old(Value()), message)
    {
      StaysFiled(table, Value(), message, position);
      var answered, firstReply := ObserveReply(message);
      result := Observed(answered, firstReply, None, None);

      var request := Opens(table, message.command);
      if request.Some? {
        var e := request.value;
        if |open| < MAX_OPEN {
          result := result.(openedExchange := Some(e));
          var key := Key(message.peer, e, message.inbound);
          var judged := !table[e].optional && !table[e].multi;
          if key in open && open[key].replies == 0 && judged {
            result := result.(displaced := Some(Unanswered(
              e, open[key].position, Elapsed(message.timestamp, open[key].timestamp), message.inbound)));
          }
          open := open[key := Open(position, message.timestamp, 0)];
        } else {
          dropped := dropped + 1;
        }
      }
    }

    /** The half of `Observe` that answers. */
    method ObserveReply(message: Message) returns (answered: Option<Reply>, firstReply: bool)
      requires Valid()
      modifies this`open
      ensures Valid() && open == Answer(table, old(open), message)
      ensures answered == ReplyTo(table, old(open), message)
      ensures firstReply == IsFirstReply(table, old(open), message)
    {
      ghost var before := open;
      StaysFiled(table, Slots(before, 0), message, 0);
      var best := FindBest(message);
      answered, firstReply := None, false;
      if best.Some? {
        var key := best.value;
        var slot := open[key];
        answered := Some(Reply(key.exchange, slot.position, Elapsed(message.timestamp, slot.timestamp)));
        if table[key.exchange].multi {
          firstReply := slot.replies == 0;
          open := open[key := slot.(replies := slot.replies + 1)];
        } else {
          firstReply := true;
          open := open - {key};
        }
      }
      assert open == AfterReply(table, before, best);
    }

    /** The search over the table for what `BestOpen` specifies. */
    method FindBest(message: Message) returns (best: Option<Key>)
      ensures best == BestOpen(table, open, message, |table|)
    {
      best := None;
      for index := 0 to |table|
        invariant best == BestOpen(table, open, message, index)
      {
        if message.command !in table[index].replies {
          continue;
        }
        var key := Key(message.peer, index, !message.inbound);
        if key !in open {
          continue;
        }
        if Elapsed(message.timestamp, open[key].timestamp) > table[index].windowMs {
          continue;
        }
        if best.None? || open[key].timestamp < open[best.value].timestamp {
          best := Some(key);
        }
      }
    }

    /** Drop what has expired. `order` is the order the map happened to be walked
        in, which is that of the reports. */
    method Sweep(now: nat) returns (retired: seq<(nat, Unanswered)>, ghost order: seq<Key>)
      requires Valid()
      modifies this`open
      ensures Valid() && open == Swept(table, old(open), now)
      ensures Enumerates(order, Reported(table, old(open), now))
      ensures |retired| == |order|
      ensures forall i | 0 <= i < |order| ::
                order[i] in old(open) && retired[i] == Report(order[i], old(open)[order[i]], now)
    {
      var todo := open.Keys;
      retired, order := [], [];
      var kept: OpenRequests := map[];
      while todo != {}
        invariant todo <= open.Keys
        invariant kept == map key | key in open && key !in todo && !Expired(table, key, open[key], now) :: open[key]
        invariant forall key | key in order :: key in open && key !in todo
        invariant Enumerates(order, set key | key in Reported(table, open, now) && key !in todo)
        invariant |retired| == |order|
        invariant forall i | 0 <= i < |order| :: retired[i] == Report(order[i], open[order[i]], now)
        decreases todo
      {
        var key :| key in todo;
        todo := todo - {key};
        var request := open[key];
        var age := Elapsed(now, request.timestamp);
        if age <= table[key.exchange].windowMs {
          kept := kept[key := request];
        } else if request.replies == 0 && !table[key.exchange].optional {
          retired := retired + [(key.peer, Unanswered(key.exchange, request.position, age, key.inbound))];
          order := order + [key];
        }
      }
      open := kept;
    }
  }
}
