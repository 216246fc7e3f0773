/** The shape the histogram keeps for 64-bit timestamps, whatever the platform's
    word and even past a misplaced count. */
module HistogramBounds {
  import opened Basics
  import opened Histogram

  /** Few enough bins, a width that can be doubled again, and a last bin that
      begins at a 64-bit time. */
  ghost predicate Bounded(h: Hist) {
    && h.binMs > 0 && h.bins <= MAX_BINS && 2 * h.binMs <= U64_MAX
    && (h.bins > 0 ==> EndsInTime(h.startMs, h.bins, h.binMs))
  }

  predicate EndsInTime(start: nat, bins: nat, binMs: nat) {
    start + (bins - 1) * binMs <= U64_MAX
  }

  lemma PairsEndInTime(start: nat, bins: nat, binMs: nat, half: nat)
    requires bins > 0 && 2 * half <= bins + 1 && EndsInTime(start, bins, binMs)
    ensures EndsInTime(start, half, 2 * binMs)
  {
    assert (half - 1) * (2 * binMs) == (2 * half - 2) * binMs;
    Times(2 * half - 2, bins - 1, binMs);
  }

  /** Coarsening is asked for only where the width is small beside the span. */
  lemma CoarsenIsBounded(h: Hist)
    requires Bounded(h) && h.bins > 0 && 4 * h.binMs <= U64_MAX
    ensures Bounded(Coarsen(h)) && Coarsen(h).bins > 0
  {
    PairsEndInTime(h.startMs, h.bins, h.binMs, CeilDiv(h.bins, 2));
  }

  lemma NarrowBesideSpan(n: nat, binMs: nat)
    requires n >= 4 && n * binMs <= U64_MAX
    ensures 4 * binMs <= U64_MAX
  {
    Times(4, n, binMs);
  }

  lemma TooManyWanted(start: nat, at: nat, bins: nat, binMs: nat, wanted: nat)
    requires at < start && bins > 0 && EndsInTime(start, bins, binMs) && (wanted - 1) * binMs < start - at
    requires bins + wanted > MAX_BINS
    ensures 4 * binMs <= U64_MAX
  {
    assert (bins - 1) * binMs + (wanted - 1) * binMs == (bins + wanted - 2) * binMs;
    NarrowBesideSpan(bins + wanted - 2, binMs);
  }

  lemma ShiftedEndsInTime(start: nat, bins: nat, binMs: nat, extra: nat)
    requires bins > 0 && extra * binMs <= start && EndsInTime(start, bins, binMs)
    ensures EndsInTime(start - extra * binMs, bins + extra, binMs)
  {
    assert (bins + extra - 1) * binMs == (bins - 1) * binMs + extra * binMs;
  }

  lemma {:induction false} ReachingIsBounded(h: Hist, at: nat)
    requires Bounded(h) && h.bins > 0
    ensures Bounded(Reaching(h, at)) && Reaching(h, at).bins > 0
    decreases if at < h.startMs then h.bins + Wanted(h, at) else 0
  {
    if at < h.startMs {
      if h.bins + Wanted(h, at) > MAX_BINS {
        CeilDivMeans(h.startMs - at, h.binMs, Wanted(h, at));
        TooManyWanted(h.startMs, at, h.bins, h.binMs, Wanted(h, at));
        CoarsenIsBounded(h);
        HalfAsManyWanted(h, at);
        ReachingIsBounded(Coarsen(h), at);
      } else {
        ShiftedEndsInTime(h.startMs, h.bins, h.binMs, Extra(h, at));
      }
    }
  }

  /** Bins up to the one a time falls in begin no later than that time. */
  lemma BinsBefore(h: Hist, at: nat, index: nat)
    requires h.startMs <= at && h.binMs > 0 && index <= Quotient(h, at)
    ensures h.startMs + index * h.binMs <= at
  {
    DivisionMeans(at - h.startMs, h.binMs);
    Times(index, Quotient(h, at), h.binMs);
  }

  lemma {:induction false} SettledIsBounded(h: Hist, at: nat, word: nat)
    requires Bounded(h) && h.bins > 0 && h.startMs <= at <= U64_MAX && word > MAX_BINS
    ensures Bounded(Settled(h, at, word)) && Settled(h, at, word).bins > 0
    decreases Quotient(h, at)
  {
    if Index(h, at, word) >= h.bins && Index(h, at, word) >= MAX_BINS {
      UnsettledCoarsens(h, at, word);
      BinsBefore(h, at, MAX_BINS);
      NarrowBesideSpan(MAX_BINS, h.binMs);
      CoarsenIsBounded(h);
      SettledIsBounded(Coarsen(h), at, word);
    }
  }

  lemma GrownIsBounded(h: Hist, at: nat, word: nat)
    requires Bounded(h) && h.bins > 0 && h.startMs <= at <= U64_MAX && word > MAX_BINS
    requires Index(h, at, word) < h.bins || Index(h, at, word) < MAX_BINS
    ensures Bounded(Grown(h, Index(h, at, word)))
  {
    AtLeastItsRemainder(Quotient(h, at), word);
    BinsBefore(h, at, Index(h, at, word));
  }

  lemma CountedIsBounded(h: Hist, event: Event, word: nat)
    requires Rect(h) && h.bins > 0 && event.kind < |h.series| && word > MAX_BINS
    requires Bounded(h) && event.at <= U64_MAX
    ensures Bounded(Counted(h, event, word))
  {
    if event.at >= h.startMs {
      SettledIsBounded(h, event.at, word);
      SettledKeepsRect(h, event.at, word);
      var s := Settled(h, event.at, word);
      GrownIsBounded(s, event.at, word);
      GrownKeepsRect(s, Index(s, event.at, word));
    }
  }

  lemma AnchoredIsBounded(h: Hist, at: nat)
    requires Bounded(h) && at <= U64_MAX
    ensures Bounded(Anchored(h, at)) && Anchored(h, at).bins > 0
  {
    if h.bins == 0 {
      AtLeastItsRemainder(at, h.binMs);
    }
  }

  lemma AddIsBounded(h: Hist, event: Event, word: nat)
    requires Rect(h) && Bounded(h) && event.at <= U64_MAX && word > MAX_BINS
    ensures Bounded(Add(h, event, word))
  {
    var kinds := WithKind(h.(total := h.total + 1), event.kind);
    AnchoredIsBounded(kinds, event.at);
    var a := Anchored(kinds, event.at);
    BackwardKeepsRect(a, event.at);
    ReachingIsBounded(a, event.at);
    CountedIsBounded(Reaching(a, event.at), event, word);
  }

  /** For every word size and every run over 64-bit timestamps, in any order: there
      are never more than MAX_BINS bins, and the next doubling of the width would
      not overflow. The same holds of every state on the way, as the steps above
      show. */
  lemma {:induction false} RunIsBounded(events: seq<Event>, word: nat)
    requires word > MAX_BINS && forall n | 0 <= n < |events| :: events[n].at <= U64_MAX
    ensures Bounded(RunAdds(events, word))
  {
    if events != [] {
      RunIsBounded(events[..|events| - 1], word);
      AddIsBounded(RunAdds(events[..|events| - 1], word), events[|events| - 1], word);
    }
  }
}
