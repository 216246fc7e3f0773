/** Whatever the platform's word and wherever its bins are, every event is counted
    once among the bins of its kind. */
module HistogramTotals {
  import opened Histogram

  function SumOf(row: seq<nat>): nat {
    if row == [] then 0 else SumOf(row[..|row| - 1]) + row[|row| - 1]
  }

  function OfKind(events: seq<Event>, kind: nat): nat {
    if events == [] then 0
    else OfKind(events[..|events| - 1], kind) + if events[|events| - 1].kind == kind then 1 else 0
  }

  /** Each row adds up to the events of its kind. */
  ghost predicate Tallied(h: Hist, events: seq<Event>) {
    && Rect(h) && h.total == |events| && (events == [] <==> h.bins == 0)
    && (forall j | 0 <= j < |events| :: events[j].kind < |h.series|)
    && (forall k | 0 <= k < |h.series| :: SumOf(h.series[k]) == OfKind(events, k))
  }

  // -------------------------------------------------------------------- rows

  lemma SumOneMore(row: seq<nat>, x: nat)
    ensures SumOf(row + [x]) == SumOf(row) + x
  {
    assert (row + [x])[..|row|] == row;
  }

  lemma {:induction false} SumWithZeros(row: seq<nat>, n: nat)
    ensures SumOf(row + Zeros(n)) == SumOf(row)
  {
    if n == 0 {
      assert row + Zeros(n) == row;
    } else {
      SumWithZeros(row, n - 1);
      assert row + Zeros(n) == row + Zeros(n - 1) + [0];
      SumOneMore(row + Zeros(n - 1), 0);
    }
  }

  lemma {:induction false} SumAfterZeros(row: seq<nat>, n: nat)
    ensures SumOf(Zeros(n) + row) == SumOf(row)
  {
    if row == [] {
      SumWithZeros([], n);
      assert Zeros(n) + row == [] + Zeros(n);
    } else {
      SumAfterZeros(row[..|row| - 1], n);
      assert Zeros(n) + row == Zeros(n) + row[..|row| - 1] + [row[|row| - 1]];
      SumOneMore(Zeros(n) + row[..|row| - 1], row[|row| - 1]);
    }
  }

  lemma PairsOfOdd(row: seq<nat>, n: nat)
    requires n == |row| && n % 2 == 1
    ensures PairSums(row) == PairSums(row[..n - 1]) + [row[n - 1]]
  {
  }

  lemma PairsOfEven(row: seq<nat>, n: nat)
    requires n == |row| > 0 && n % 2 == 0
    ensures PairSums(row) == PairSums(row[..n - 2]) + [row[n - 2] + row[n - 1]]
  {
  }

  lemma SumOfLastTwo(row: seq<nat>, n: nat)
    requires n == |row| >= 2
    ensures SumOf(row) == SumOf(row[..n - 2]) + (row[n - 2] + row[n - 1])
  {
    assert row[..n - 1][..n - 2] == row[..n - 2];
  }

  lemma {:induction false} SumOfPairs(row: seq<nat>)
    ensures SumOf(PairSums(row)) == SumOf(row)
  {
    var n := |row|;
    if n % 2 == 1 {
      SumOfPairs(row[..n - 1]);
      PairsOfOdd(row, n);
      SumOneMore(PairSums(row[..n - 1]), row[n - 1]);
    } else if n > 0 {
      SumOfPairs(row[..n - 2]);
      PairsOfEven(row, n);
      SumOneMore(PairSums(row[..n - 2]), row[n - 2] + row[n - 1]);
      SumOfLastTwo(row, n);
    }
  }

  lemma {:induction false} SumRaised(row: seq<nat>, at: nat, more: nat)
    requires at < |row|
    ensures SumOf(row[at := row[at] + more]) == SumOf(row) + more
  {
    var last := |row| - 1;
    if at < last {
      SumRaised(row[..last], at, more);
      assert row[at := row[at] + more][..last] == row[..last][at := row[at] + more];
    } else {
      assert row[at := row[at] + more][..last] == row[..last];
    }
  }

  // -------------------------------------------------------------- operations

  /** The rows of two histograms add up to the same. */
  ghost predicate SameSums(a: Hist, b: Hist) {
    && |a.series| == |b.series| && a.total == b.total
    && forall k | 0 <= k < |a.series| :: SumOf(a.series[k]) == SumOf(b.series[k])
  }

  lemma CoarsenKeepsSums(h: Hist)
    ensures SameSums(h, Coarsen(h))
  {
    forall k | 0 <= k < |h.series| ensures SumOf(h.series[k]) == SumOf(Coarsen(h).series[k]) {
      SumOfPairs(h.series[k]);
    }
  }

  lemma PrependKeepsSums(h: Hist, extra: nat)
    requires extra * h.binMs <= h.startMs
    ensures SameSums(h, Prepend(h, extra))
  {
    forall k | 0 <= k < |h.series| ensures SumOf(h.series[k]) == SumOf(Prepend(h, extra).series[k]) {
      SumAfterZeros(h.series[k], extra);
    }
  }

  lemma WideningKeepsSums(h: Hist, bins: nat)
    requires Rect(h) && bins >= h.bins
    ensures SameSums(h, SetBins(h, bins))
  {
    forall k | 0 <= k < |h.series| ensures SumOf(h.series[k]) == SumOf(SetBins(h, bins).series[k]) {
      SumWithZeros(h.series[k], bins - h.bins);
      assert Widened(h.series[k], bins) == h.series[k] + Zeros(bins - h.bins);
    }
  }

  lemma {:induction false} ReachingKeepsSums(h: Hist, at: nat)
    requires h.binMs > 0 && h.bins > 0
    ensures SameSums(h, Reaching(h, at))
    decreases if at < h.startMs then h.bins + Wanted(h, at) else 0
  {
    if at < h.startMs {
      if h.bins + Wanted(h, at) > MAX_BINS {
        HalfAsManyWanted(h, at);
        CoarsenKeepsSums(h);
        ReachingKeepsSums(Coarsen(h), at);
      } else {
        PrependKeepsSums(h, Extra(h, at));
      }
    }
  }

  lemma {:induction false} SettledKeepsSums(h: Hist, at: nat, word: nat)
    requires h.startMs <= at && h.binMs > 0 && word > MAX_BINS
    ensures SameSums(h, Settled(h, at, word))
    decreases Quotient(h, at)
  {
    if Index(h, at, word) >= h.bins && Index(h, at, word) >= MAX_BINS {
      UnsettledCoarsens(h, at, word);
      CoarsenKeepsSums(h);
      SettledKeepsSums(Coarsen(h), at, word);
    }
  }

  /** One row gains one; the others keep their sums. */
  ghost predicate RaisesOne(h: Hist, after: Hist, kind: nat) {
    && after.total == h.total && |after.series| == |h.series|
    && forall k | 0 <= k < |h.series| :: SumOf(after.series[k]) == SumOf(h.series[k]) + if k == kind then 1 else 0
  }

  lemma BumpRaisesOne(h: Hist, kind: nat, index: nat)
    requires kind < |h.series| && index < |h.series[kind]|
    ensures RaisesOne(h, Bump(h, kind, index), kind)
  {
    SumRaised(h.series[kind], index, 1);
  }

  lemma GrownKeepsSums(h: Hist, index: nat)
    requires Rect(h)
    ensures SameSums(h, Grown(h, index))
  {
    if index >= h.bins {
      WideningKeepsSums(h, index + 1);
    }
  }

  /** Whatever bin an event is counted in, it is one of its kind. */
  lemma CountedRaisesOne(h: Hist, event: Event, word: nat)
    requires Rect(h) && h.bins > 0 && event.kind < |h.series| && word > MAX_BINS
    ensures RaisesOne(h, Counted(h, event, word), event.kind)
  {
    if event.at < h.startMs {
      BumpRaisesOne(h, event.kind, 0);
    } else {
      ForwardRaisesOne(h, event.at, event.kind, word);
    }
  }

  lemma ForwardRaisesOne(h: Hist, at: nat, kind: nat, word: nat)
    requires Rect(h) && h.startMs <= at && kind < |h.series| && word > MAX_BINS
    ensures RaisesOne(h, Forward(h, at, kind, word), kind)
  {
    var s := Settled(h, at, word);
    var index := Index(s, at, word);
    SettledKeepsRect(h, at, word);
    SettledKeepsSums(h, at, word);
    GrownKeepsRect(s, index);
    GrownKeepsSums(s, index);
    BumpRaisesOne(Grown(s, index), kind, index);
  }

  // -------------------------------------------------------------------- runs

  lemma {:induction false} NoneOfKind(events: seq<Event>, kind: nat)
    requires forall j | 0 <= j < |events| :: events[j].kind != kind
    ensures OfKind(events, kind) == 0
  {
    if events != [] {
      NoneOfKind(events[..|events| - 1], kind);
    }
  }

  lemma SumOfZeros(n: nat)
    ensures SumOf(Zeros(n)) == 0
  {
    SumWithZeros([], n);
    assert [] + Zeros(n) == Zeros(n);
  }

  /** The rows that a new kind brings hold no events. */
  lemma WithKindTallies(h: Hist, events: seq<Event>, kind: nat, k: nat)
    requires Rect(h) && k < |WithKind(h, kind).series|
    requires forall j | 0 <= j < |events| :: events[j].kind < |h.series|
    requires forall i | 0 <= i < |h.series| :: SumOf(h.series[i]) == OfKind(events, i)
    ensures SumOf(WithKind(h, kind).series[k]) == OfKind(events, k)
  {
    if k >= |h.series| {
      NoneOfKind(events, k);
      SumOfZeros(h.bins);
    }
  }

  lemma AnchoringTallies(h: Hist, events: seq<Event>, at: nat)
    requires Rect(h) && forall k | 0 <= k < |h.series| :: SumOf(h.series[k]) == OfKind(events, k)
    ensures var a := Anchored(h, at);
            && Rect(a) && a.bins > 0 && a.total == h.total && |a.series| == |h.series|
            && forall k | 0 <= k < |a.series| :: SumOf(a.series[k]) == OfKind(events, k)
  {
    if h.bins == 0 {
      WideningKeepsSums(h.(startMs := at - at % h.binMs), 1);
    }
  }

  lemma {:induction false} ReadyTallies(h: Hist, events: seq<Event>, event: Event)
    requires Tallied(h, events)
    ensures var a := Anchored(WithKind(h.(total := h.total + 1), event.kind), event.at);
            && Rect(a) && a.bins > 0 && a.total == |events| + 1 && |h.series| <= |a.series| && event.kind < |a.series|
            && forall k | 0 <= k < |a.series| :: SumOf(a.series[k]) == OfKind(events, k)
  {
    var counted := h.(total := h.total + 1);
    forall k | 0 <= k < |WithKind(counted, event.kind).series|
      ensures SumOf(WithKind(counted, event.kind).series[k]) == OfKind(events, k)
    {
      WithKindTallies(counted, events, event.kind, k);
    }
    AnchoringTallies(WithKind(counted, event.kind), events, event.at);
  }

  lemma AddTallies(h: Hist, events: seq<Event>, event: Event, word: nat)
    requires Tallied(h, events) && word > MAX_BINS
    ensures Tallied(Add(h, event, word), events + [event])
  {
    ReadyTallies(h, events, event);
    var a := Anchored(WithKind(h.(total := h.total + 1), event.kind), event.at);
    BackwardKeepsRect(a, event.at);
    ReachingKeepsSums(a, event.at);
    CountedRaisesOne(Reaching(a, event.at), event, word);
    AddKeepsRect(h, event, word);
    AddHasBins(h, event, word);
    assert (events + [event])[..|events|] == events;
  }

  lemma AddHasBins(h: Hist, event: Event, word: nat)
    requires Rect(h) && word > MAX_BINS
    ensures Add(h, event, word).bins > 0
  {
    var a := Anchored(WithKind(h.(total := h.total + 1), event.kind), event.at);
    BackwardKeepsRect(a, event.at);
    var r := Reaching(a, event.at);
    if event.at >= r.startMs {
      SettledKeepsRect(r, event.at, word);
      GrownKeepsRect(Settled(r, event.at, word), Index(Settled(r, event.at, word), event.at, word));
    }
  }

  /** For every word size and every run, in any order of time and even past a
      misplaced count: each row adds up to the events of its kind. */
  lemma {:induction false} RunTallies(events: seq<Event>, word: nat)
    requires word > MAX_BINS
    ensures Tallied(RunAdds(events, word), events)
  {
    if events != [] {
      var front, last := events[..|events| - 1], events[|events| - 1];
      RunTallies(front, word);
      AddTallies(RunAdds(front, word), front, last, word);
      assert front + [last] == events;
    }
  }
}
