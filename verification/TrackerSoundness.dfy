/** What every answer of the streaming matcher means, over every archive. */
module TrackerSoundness {
  import opened Basics
  import opened Exchanges
  import opened Tracking

  /** The tracker after the first `n` messages, each known by its place. */
  function Follow(table: seq<Exchange>, messages: seq<Message>, n: nat): Slots
    requires n <= |messages|
  {
    if n == 0 then Slots(map[], 0) else After(table, Follow(table, messages, n - 1), messages[n - 1], n - 1)
  }

  /** An answer, with the place of the message that gave it. */
  datatype Pair = Pair(reply: nat, answer: Reply)

  function Pairs(table: seq<Exchange>, messages: seq<Message>, n: nat): seq<Pair>
    requires n <= |messages|
  {
    if n == 0 then []
    else
      var before := Pairs(table, messages, n - 1);
      var found := ReplyTo(table, Follow(table, messages, n - 1).open, messages[n - 1]);
      if found.Some? then before + [Pair(n - 1, found.value)] else before
  }

  /** Whether message `i` asks what `key` files. */
  predicate Asks(table: seq<Exchange>, messages: seq<Message>, i: nat, key: Key)
    requires i < |messages|
  {
    && messages[i].peer == key.peer && messages[i].inbound == key.inbound
    && Opens(table, messages[i].command) == Some(key.exchange)
  }

  /** An open request is an earlier message, filed where it belongs. */
  ghost predicate Remembers(table: seq<Exchange>, messages: seq<Message>, n: nat, key: Key, request: Open)
    requires n <= |messages|
  {
    && key.exchange < |table|
    && request.position < n && messages[request.position].timestamp == request.timestamp
    && Asks(table, messages, request.position, key)
  }

  ghost predicate AllRemembered(table: seq<Exchange>, messages: seq<Message>, n: nat, open: OpenRequests)
    requires n <= |messages|
  {
    forall key | key in open :: Remembers(table, messages, n, key, open[key])
  }

  /** The request and the reply belong together. */
  ghost predicate PairOk(table: seq<Exchange>, messages: seq<Message>, pair: Pair) {
    var Pair(reply, answer) := pair;
    && answer.request < reply < |messages| && answer.exchange < |table|
    && var q, a, exchange := messages[answer.request], messages[reply], table[answer.exchange];
    && q.peer == a.peer && q.inbound != a.inbound
    && Opens(table, q.command) == Some(answer.exchange) && a.command in exchange.replies
    && answer.elapsedMs == Elapsed(a.timestamp, q.timestamp) <= exchange.windowMs
  }

  ghost predicate PairsOk(table: seq<Exchange>, messages: seq<Message>, n: nat, pairs: seq<Pair>) {
    && (forall i | 0 <= i < |pairs| :: PairOk(table, messages, pairs[i]) && pairs[i].reply < n)
    && (forall i, j | 0 <= i < j < |pairs| :: pairs[i].reply < pairs[j].reply)
    && (forall i, j | 0 <= i < j < |pairs| && pairs[i].answer.request == pairs[j].answer.request ::
          table[pairs[i].answer.exchange].multi)
  }

  /** Open single-reply requests have had no answer. */
  ghost predicate SinglesWait(table: seq<Exchange>, open: OpenRequests, pairs: seq<Pair>) {
    forall key, i | key in open && 0 <= i < |pairs| && key.exchange < |table| && !table[key.exchange].multi ::
      pairs[i].answer.request != open[key].position
  }

  ghost predicate Sound(table: seq<Exchange>, messages: seq<Message>, n: nat, st: Slots, pairs: seq<Pair>)
    requires n <= |messages|
  {
    && AllRemembered(table, messages, n, st.open)
    && PairsOk(table, messages, n, pairs)
    && SinglesWait(table, st.open, pairs)
  }

  lemma StaysRemembered(table: seq<Exchange>, messages: seq<Message>, n: nat, st: Slots)
    requires n < |messages| && AllRemembered(table, messages, n, st.open)
    ensures AllRemembered(table, messages, n + 1, After(table, st, messages[n], n).open)
  {
    var after := After(table, st, messages[n], n);
    forall key | key in after.open ensures Remembers(table, messages, n + 1, key, after.open[key]) {
      if key in st.open && after.open[key].position != n {
        assert Remembers(table, messages, n, key, st.open[key]);
      }
    }
  }

  /** The answer a message gives is a pair, and its request, unless it may have
      several answers, had none. */
  lemma AnswerIsPair(table: seq<Exchange>, messages: seq<Message>, n: nat, st: Slots, pairs: seq<Pair>)
    requires n < |messages| && Sound(table, messages, n, st, pairs)
    requires ReplyTo(table, st.open, messages[n]).Some?
    ensures var answer := ReplyTo(table, st.open, messages[n]).value;
            && PairOk(table, messages, Pair(n, answer))
            && (table[answer.exchange].multi
                || forall i | 0 <= i < |pairs| :: pairs[i].answer.request != answer.request)
  {
    var best := BestOpen(table, st.open, messages[n], |table|).value;
    assert Remembers(table, messages, n, best, st.open[best]);
  }

  lemma OneMorePair(table: seq<Exchange>, messages: seq<Message>, n: nat, pairs: seq<Pair>, answer: Reply)
    requires n < |messages| && PairsOk(table, messages, n, pairs) && PairOk(table, messages, Pair(n, answer))
    requires table[answer.exchange].multi || forall i | 0 <= i < |pairs| :: pairs[i].answer.request != answer.request
    ensures PairsOk(table, messages, n + 1, pairs + [Pair(n, answer)])
  {
    forall i | 0 <= i < |pairs| && pairs[i].answer.request == answer.request
      ensures table[pairs[i].answer.exchange].multi
    {
      assert PairOk(table, messages, pairs[i]);
    }
  }

  /** Closing what is answered keeps the rest waiting. */
  lemma OthersWait(table: seq<Exchange>, messages: seq<Message>, n: nat, st: Slots, pairs: seq<Pair>)
    requires n < |messages| && Sound(table, messages, n, st, pairs)
    requires ReplyTo(table, st.open, messages[n]).Some?
    ensures var answer := ReplyTo(table, st.open, messages[n]).value;
            SinglesWait(table, Answer(table, st.open, messages[n]), pairs + [Pair(n, answer)])
  {
    var best := BestOpen(table, st.open, messages[n], |table|).value;
    var open := Answer(table, st.open, messages[n]);
    assert Remembers(table, messages, n, best, st.open[best]);
    forall key | key in open && key.exchange < |table| && !table[key.exchange].multi
      ensures key in st.open && open[key] == st.open[key] && open[key].position != st.open[best].position
    {
      assert Remembers(table, messages, n, key, st.open[key]);
    }
  }

  lemma OpeningWaits(table: seq<Exchange>, messages: seq<Message>, n: nat, st: Slots, pairs: seq<Pair>)
    requires n < |messages| && PairsOk(table, messages, n + 1, pairs)
    requires SinglesWait(table, Answer(table, st.open, messages[n]), pairs)
    ensures SinglesWait(table, After(table, st, messages[n], n).open, pairs)
  {
    forall i | 0 <= i < |pairs| ensures pairs[i].answer.request < n {
      assert PairOk(table, messages, pairs[i]);
    }
  }

  lemma AnswerIsSound(table: seq<Exchange>, messages: seq<Message>, n: nat, st: Slots, fewer: seq<Pair>,
                      found: Option<Reply>, pairs: seq<Pair>)
    requires n < |messages| && Sound(table, messages, n, st, fewer) && found == ReplyTo(table, st.open, messages[n])
    requires pairs == if found.Some? then fewer + [Pair(n, found.value)] else fewer
    ensures PairsOk(table, messages, n + 1, pairs) && SinglesWait(table, Answer(table, st.open, messages[n]), pairs)
  {
    if found.Some? {
      AnswerIsPair(table, messages, n, st, fewer);
      OneMorePair(table, messages, n, fewer, found.value);
      OthersWait(table, messages, n, st, fewer);
    }
  }

  lemma MessageIsSound(table: seq<Exchange>, messages: seq<Message>, n: nat, before: Slots, fewer: seq<Pair>,
                       found: Option<Reply>, st: Slots, pairs: seq<Pair>)
    requires 0 < n <= |messages| && Sound(table, messages, n - 1, before, fewer)
    requires st == After(table, before, messages[n - 1], n - 1)
    requires found == ReplyTo(table, before.open, messages[n - 1])
    requires pairs == if found.Some? then fewer + [Pair(n - 1, found.value)] else fewer
    ensures Sound(table, messages, n, st, pairs)
  {
    StaysRemembered(table, messages, n - 1, before);
    AnswerIsSound(table, messages, n - 1, before, fewer, found, pairs);
    OpeningWaits(table, messages, n - 1, before, pairs);
  }

  lemma NothingIsSound(table: seq<Exchange>, messages: seq<Message>, st: Slots, pairs: seq<Pair>)
    requires st.open.Keys == {} && |pairs| == 0
    ensures Sound(table, messages, 0, st, pairs)
  {
  }

  /** In every reachable state of the tracker, and for every answer it gives:
      the request is an earlier message of the same peer, the other way, that
      opened the exchange; the reply is one of that exchange's, inside its window;
      no reply answers twice, and no single-reply request is answered twice. */
  lemma {:induction false} FollowingIsSound(table: seq<Exchange>, messages: seq<Message>, n: nat, st: Slots,
                                            pairs: seq<Pair>)
    requires n <= |messages| && st == Follow(table, messages, n) && pairs == Pairs(table, messages, n)
    ensures Sound(table, messages, n, st, pairs)
  {
    if n == 0 {
      NothingIsSound(table, messages, st, pairs);
    } else {
      var before, fewer := Follow(table, messages, n - 1), Pairs(table, messages, n - 1);
      FollowingIsSound(table, messages, n - 1, before, fewer);
      MessageIsSound(table, messages, n, before, fewer, ReplyTo(table, before.open, messages[n - 1]), st, pairs);
    }
  }

  /** No message since has asked for what an open request asks for. */
  ghost predicate Latest(table: seq<Exchange>, messages: seq<Message>, n: nat, key: Key, request: Open)
    requires n <= |messages|
  {
    forall i | request.position < i < n :: !Asks(table, messages, i, key)
  }

  lemma LatestStays(table: seq<Exchange>, messages: seq<Message>, n: nat, st: Slots, key: Key)
    requires n < |messages| && After(table, st, messages[n], n).dropped == st.dropped
    requires key in st.open ==> Latest(table, messages, n, key, st.open[key])
    requires key in After(table, st, messages[n], n).open
    ensures Latest(table, messages, n + 1, key, After(table, st, messages[n], n).open[key])
  {
    var request := After(table, st, messages[n], n).open[key];
    if request.position != n {
      forall i | request.position < i < n + 1 ensures !Asks(table, messages, i, key) {
        assert i < n ==> !Asks(table, messages, i, key);
      }
    }
  }

  /** Unless the cap has turned some away, an open request is the latest of its
      kind. */
  lemma {:induction false} FollowsTheLatest(table: seq<Exchange>, messages: seq<Message>, n: nat, st: Slots, key: Key)
    requires n <= |messages| && st == Follow(table, messages, n) && st.dropped == 0 && key in st.open
    ensures Latest(table, messages, n, key, st.open[key])
  {
    if n > 0 {
      var before := Follow(table, messages, n - 1);
      if key in before.open {
        FollowsTheLatest(table, messages, n - 1, before, key);
      }
      LatestStays(table, messages, n - 1, before, key);
    }
  }

  /** A message is answered with the oldest open request it can answer, of the
      first such exchange in the table if several are as old; and only if it can
      answer none with nothing. */
  lemma {:induction false} BestIsOldest(table: seq<Exchange>, open: OpenRequests, message: Message, n: nat, e: nat)
    requires e < n <= |table| && CanAnswer(table, open, message, e)
    ensures var best := BestOpen(table, open, message, n);
            && best.Some?
            && var at := open[Key(message.peer, e, !message.inbound)].timestamp;
            && open[best.value].timestamp <= at
            && (open[best.value].timestamp == at ==> best.value.exchange <= e)
  {
    if e < n - 1 {
      BestIsOldest(table, open, message, n - 1, e);
    }
  }

  // ---------------------------------------------------------------- silences

  /** The silence reported is that of an earlier message, of that peer and that
      direction, which opened the exchange; its age is the time since. */
  ghost predicate SilenceOk(table: seq<Exchange>, messages: seq<Message>, n: nat, peer: nat, silence: Unanswered,
                            now: nat)
    requires n <= |messages|
  {
    && silence.position < n
    && var asked := messages[silence.position];
    && asked.peer == peer && asked.inbound == silence.requestInbound
    && Opens(table, asked.command) == Some(silence.exchange)
    && silence.ageMs == Elapsed(now, asked.timestamp)
  }

  /** A displaced request is the last of its kind, sent by whoever displaces it. */
  lemma {:induction false} DisplacedIsReal(table: seq<Exchange>, messages: seq<Message>, n: nat)
    requires n < |messages|
    ensures var displaced := Observation(table, Follow(table, messages, n), messages[n]).displaced;
            displaced.Some? ==>
              && SilenceOk(table, messages, n, messages[n].peer, displaced.value, messages[n].timestamp)
              && displaced.value.requestInbound == messages[n].inbound
              && Opens(table, messages[n].command) == Some(displaced.value.exchange)
  {
    var st := Follow(table, messages, n);
    FollowingIsSound(table, messages, n, st, Pairs(table, messages, n));
    StaysOpen(table, st.open, messages[n]);
    var displaced := Observation(table, st, messages[n]).displaced;
    if displaced.Some? {
      var key := Key(messages[n].peer, displaced.value.exchange, messages[n].inbound);
      assert Remembers(table, messages, n, key, st.open[key]);
    }
  }

  lemma StaysOpen(table: seq<Exchange>, open: OpenRequests, message: Message)
    ensures forall key | key in Answer(table, open, message) ::
              key in open && Answer(table, open, message)[key].position == open[key].position
              && Answer(table, open, message)[key].timestamp == open[key].timestamp
  {
  }

  /** So is what a sweep reports of any open request. */
  lemma {:induction false} ReportedIsReal(table: seq<Exchange>, messages: seq<Message>, n: nat, key: Key, now: nat)
    requires n <= |messages| && key in Follow(table, messages, n).open
    ensures var report := Report(key, Follow(table, messages, n).open[key], now);
            SilenceOk(table, messages, n, report.0, report.1, now)
  {
    var st := Follow(table, messages, n);
    FollowingIsSound(table, messages, n, st, Pairs(table, messages, n));
    assert Remembers(table, messages, n, key, st.open[key]);
  }
}
