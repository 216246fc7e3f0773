/** Where the bins lie: on whole tenths of a second, anchored by the first event
    and moved back by whole bins only. */
module HistogramGrid {
  import opened Basics
  import opened Histogram

  /** A whole number of shortest bins. */
  predicate Whole(ms: nat) {
    ms % MIN_BIN_MS == 0
  }

  ghost predicate OnGrid(h: Hist) {
    h.binMs > 0 && Whole(h.binMs) && Whole(h.startMs)
  }

  lemma CoarsenStaysOnGrid(h: Hist)
    requires OnGrid(h)
    ensures OnGrid(Coarsen(h))
  {
  }

  lemma WholeTimes(n: nat, b: nat)
    requires Whole(b)
    ensures Whole(n * b)
  {
    var tenths := b / MIN_BIN_MS;
    assert n * (tenths * MIN_BIN_MS) == (n * tenths) * MIN_BIN_MS;
  }

  lemma FloorIsOnGrid(at: nat, b: nat)
    requires b > 0 && Whole(b)
    ensures at % b <= at < at - at % b + b && Whole(at - at % b)
  {
    DivisionMeans(at, b);
    WholeTimes(at / b, b);
  }

  lemma WholeDifference(a: nat, b: nat)
    requires Whole(a) && Whole(b) && b <= a
    ensures Whole(a - b)
  {
  }

  lemma PrependStaysOnGrid(h: Hist, extra: nat)
    requires OnGrid(h) && extra * h.binMs <= h.startMs
    ensures OnGrid(Prepend(h, extra))
  {
    WholeTimes(extra, h.binMs);
    WholeDifference(h.startMs, extra * h.binMs);
  }

  lemma {:induction false} ReachingStaysOnGrid(h: Hist, at: nat)
    requires OnGrid(h) && h.bins > 0
    ensures OnGrid(Reaching(h, at))
    decreases if at < h.startMs then h.bins + Wanted(h, at) else 0
  {
    if at < h.startMs {
      if h.bins + Wanted(h, at) > MAX_BINS {
        HalfAsManyWanted(h, at);
        CoarsenStaysOnGrid(h);
        ReachingStaysOnGrid(Coarsen(h), at);
      } else {
        PrependStaysOnGrid(h, Extra(h, at));
      }
    }
  }

  lemma {:induction false} SettledStaysOnGrid(h: Hist, at: nat, word: nat)
    requires OnGrid(h) && h.startMs <= at && word > MAX_BINS
    ensures OnGrid(Settled(h, at, word))
    decreases Quotient(h, at)
  {
    if Index(h, at, word) >= h.bins && Index(h, at, word) >= MAX_BINS {
      UnsettledCoarsens(h, at, word);
      CoarsenStaysOnGrid(h);
      SettledStaysOnGrid(Coarsen(h), at, word);
    }
  }

  lemma AddStaysOnGrid(h: Hist, event: Event, word: nat)
    requires Rect(h) && OnGrid(h) && word > MAX_BINS
    ensures OnGrid(Add(h, event, word))
  {
    var a := Anchored(WithKind(h.(total := h.total + 1), event.kind), event.at);
    FloorIsOnGrid(event.at, h.binMs);
    BackwardKeepsRect(a, event.at);
    ReachingStaysOnGrid(a, event.at);
    var r := Reaching(a, event.at);
    if event.at >= r.startMs {
      SettledStaysOnGrid(r, event.at, word);
    }
  }

  /** For every word size and every run, in any order of time: the first bin begins
      on a whole tenth of a second, and bins are whole tenths long. */
  lemma {:induction false} RunIsOnGrid(events: seq<Event>, word: nat)
    requires word > MAX_BINS
    ensures OnGrid(RunAdds(events, word))
  {
    if events != [] {
      RunIsOnGrid(events[..|events| - 1], word);
      AddStaysOnGrid(RunAdds(events[..|events| - 1], word), events[|events| - 1], word);
    }
  }

  /** The first event anchors the grid: one bin, of a tenth of a second, holds it. */
  lemma FirstEventAnchors(event: Event, word: nat)
    requires word > MAX_BINS
    ensures var h := RunAdds([event], word);
            && h.bins == 1 && h.binMs == MIN_BIN_MS && Whole(h.startMs)
            && h.startMs <= event.at < h.startMs + MIN_BIN_MS
  {
    assert [event][..0] == [];
    var h := BLANK.(total := 1);
    assert RunAdds([event], word) == Add(BLANK, event, word);
    FloorIsOnGrid(event.at, MIN_BIN_MS);
    FirstIsCounted(Anchored(WithKind(h, event.kind), event.at), event, word);
  }

  lemma FirstIsCounted(a: Hist, event: Event, word: nat)
    requires Rect(a) && a.bins == 1 && event.kind < |a.series| && word > MAX_BINS
    requires a.startMs <= event.at < a.startMs + a.binMs
    ensures var h := Counted(Reaching(a, event.at), event, word);
            h.bins == 1 && h.binMs == a.binMs && h.startMs == a.startMs
  {
    FirstBinIsFound(a, event.at, word);
    assert Forward(a, event.at, event.kind, word) == Bump(a, event.kind, 0);
  }

  lemma FirstBinIsFound(a: Hist, at: nat, word: nat)
    requires a.bins > 0 && word > MAX_BINS && a.startMs <= at < a.startMs + a.binMs
    ensures Index(a, at, word) == 0 && Settled(a, at, word) == a
  {
    QuotientIs(at - a.startMs, a.binMs, 0, at - a.startMs);
  }

  /** Reaching back moves the start by whole bins of the old width. */
  lemma {:induction false} ReachingShiftsWholeBins(h: Hist, at: nat) returns (shift: nat)
    requires h.binMs > 0 && h.bins > 0
    ensures h.startMs == Reaching(h, at).startMs + shift * h.binMs
    decreases if at < h.startMs then h.bins + Wanted(h, at) else 0
  {
    shift := 0;
    if at < h.startMs {
      if h.bins + Wanted(h, at) > MAX_BINS {
        HalfAsManyWanted(h, at);
        var fewer := ReachingShiftsWholeBins(Coarsen(h), at);
        shift := 2 * fewer;
        assert fewer * (2 * h.binMs) == shift * h.binMs;
      } else {
        shift := Extra(h, at);
      }
    }
  }

  /** Once anchored, every further add leaves the start or moves it back by whole
      bins, so old and new bins share their edges. */
  lemma AddShiftsWholeBins(h: Hist, event: Event, word: nat) returns (shift: nat)
    requires Rect(h) && h.bins > 0 && word > MAX_BINS
    ensures h.startMs == Add(h, event, word).startMs + shift * h.binMs
  {
    var a := WithKind(h.(total := h.total + 1), event.kind);
    BackwardKeepsRect(a, event.at);
    shift := ReachingShiftsWholeBins(a, event.at);
  }
}
