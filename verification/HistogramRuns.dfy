/** The histogram over any sequence of adds, in any order of time. */
module HistogramRuns {
  import opened Basics
  import opened Histogram
  import opened HistogramExactness

  /** Everything known of a histogram of `events`. */
  ghost predicate Sound(h: Hist, events: seq<Event>) {
    && Exact(h, events) && KindsKnown(h, events) && h.total == |events|
    && (events == [] ==> h.bins == 0 && h.binMs == MIN_BIN_MS)
    && (events != [] ==> Lattice(h, Lo(events), Hi(events)) && Tight(h.binMs, Lo(events), Hi(events)))
  }

  lemma {:induction false} ReachingFits(h: Hist, events: seq<Event>, at: nat, lo: nat, hi: nat)
    requires Fits(h, events, lo, hi)
    ensures var r := Reaching(h, at);
            && Exact(r, events) && |r.series| == |h.series| && r.total == h.total
    decreases if at < h.startMs && h.binMs > 0 then h.bins + Wanted(h, at) else 0
  {
    if at < h.startMs {
      if h.bins + Wanted(h, at) > MAX_BINS {
        CoarsenFits(h, events, lo, hi);
        HalfAsManyWanted(h, at);
        ReachingFits(Coarsen(h), events, at, lo, hi);
      } else if Extra(h, at) > 0 {
        PrependLattice(h, lo, hi, at);
        PrependIsExact(h, events, Extra(h, at));
      }
    }
  }

  /** A histogram that reaches `event` counts it where it belongs. */
  lemma CountedIsExact(r: Hist, events: seq<Event>, event: Event, word: nat, lo: nat, hi: nat)
    requires Fits(r, events, lo, hi) && lo <= event.at && event.kind < |r.series| && word > MAX_BINS
    requires Tight(r.binMs, lo, Max(hi, event.at))
    ensures Exact(Counted(r, event, word), events + [event]) <==> !Caught(r, event.at, word)
    ensures !Caught(r, event.at, word) ==>
              var c := Counted(r, event, word);
              Lattice(c, lo, Max(hi, event.at)) && Tight(c.binMs, lo, Max(hi, event.at))
  {
    if event.at < r.startMs {
      BumpIsExact(r, events, event, 0);
    } else {
      ForwardIsExact(r, events, event, word, lo, hi);
    }
  }

  predicate Caught(r: Hist, at: nat, word: nat)
    requires r.binMs > 0 && word > MAX_BINS
  {
    at >= r.startMs && Trapped(Quotient(r, at), word)
  }

  lemma AnchoredFits(h: Hist, at: nat)
    requires Exact(h, []) && h.bins == 0 && h.binMs == MIN_BIN_MS
    ensures Fits(Anchored(h, at), [], at, at)
  {
    var a := Anchored(h, at);
    assert MIN_BIN_MS == MIN_BIN_MS * Pow2(0);
    QuotientIs(at - a.startMs, MIN_BIN_MS, 0, at % MIN_BIN_MS);
    SetBinsIsExact(h.(startMs := a.startMs), [], 1);
  }

  /** Before the event is counted: its kind has a row and the range reaches it. */
  function Ready(h: Hist, event: Event): Hist
    requires Rect(h)
  {
    Anchored(WithKind(h.(total := h.total + 1), event.kind), event.at)
  }

  lemma ReadyFits(h: Hist, events: seq<Event>, event: Event)
    requires Sound(h, events)
    ensures var a := Ready(h, event);
            var lo, hi := if events == [] then event.at else Lo(events), if events == [] then event.at else Hi(events);
            && Fits(a, events, lo, hi) && Tight(a.binMs, lo, hi) && event.kind < |a.series|
            && (h.bins > 0 ==> a.startMs == h.startMs && a.binMs == h.binMs)
            && (events == [] ==> a.startMs <= event.at < a.startMs + a.binMs)
  {
    WithKindIsExact(h.(total := h.total + 1), events, event.kind);
    if events == [] {
      AnchoredFits(WithKind(h.(total := h.total + 1), event.kind), event.at);
    } else {
      forall j | 0 <= j < |events| ensures Lo(events) <= events[j].at <= Hi(events) {
        LoHi(events, j);
      }
    }
  }

  lemma OneMoreLoHi(events: seq<Event>, event: Event)
    ensures Lo(events + [event]) == if events == [] then event.at else Min(Lo(events), event.at)
    ensures Hi(events + [event]) == if events == [] then event.at else Max(Hi(events), event.at)
  {
    assert (events + [event])[..|events|] == events;
  }

  lemma {:induction false} ReachingKeepsTotals(h: Hist, at: nat)
    requires h.binMs > 0 && h.bins > 0
    ensures Reaching(h, at).total == h.total && |Reaching(h, at).series| == |h.series|
    decreases if at < h.startMs then h.bins + Wanted(h, at) else 0
  {
    if at < h.startMs && h.bins + Wanted(h, at) > MAX_BINS {
      HalfAsManyWanted(h, at);
      ReachingKeepsTotals(Coarsen(h), at);
    }
  }

  lemma NearStart(at: nat, startMs: nat, binMs: nat)
    requires binMs > 0 && startMs <= at < startMs + binMs
    ensures (at - startMs) / binMs == 0
  {
    QuotientIs(at - startMs, binMs, 0, at - startMs);
  }

  /** Reaching back gives a histogram fit to count in, and no nearer the trap. */
  lemma ReachedFits(a: Hist, events: seq<Event>, at: nat, word: nat, lo: nat, hi: nat)
    requires Fits(a, events, lo, hi) && Tight(a.binMs, lo, hi) && word > MAX_BINS
    ensures var r := Reaching(a, at);
            && Fits(r, events, Min(lo, at), hi) && |r.series| == |a.series|
            && Tight(r.binMs, Min(lo, at), hi)
  {
    ReachingFits(a, events, at, lo, hi);
    ReachingLattice(a, lo, hi, at);
  }

  lemma ReachedIsNoNearer(a: Hist, at: nat, word: nat, lo: nat, hi: nat)
    requires Lattice(a, lo, hi) && Tight(a.binMs, lo, hi) && word > MAX_BINS
    ensures Reaching(a, at).binMs > 0 && (Caught(Reaching(a, at), at, word) <==> Caught(a, at, word))
  {
    ReachingLattice(a, lo, hi, at);
    var r := Reaching(a, at);
    if at < a.startMs && r.startMs <= at {
      NearStart(at, r.startMs, r.binMs);
    }
  }

  lemma ReadyIsAsNear(h: Hist, events: seq<Event>, event: Event, word: nat)
    requires Sound(h, events) && word > MAX_BINS
    ensures Caught(Ready(h, event), event.at, word) <==> Traps(h, event.at, word)
  {
    var a := Ready(h, event);
    ReadyFits(h, events, event);
    if events == [] {
      NearStart(event.at, a.startMs, a.binMs);
    }
  }

  /** One add, whatever its time: the counts are still exactly a recount's if, and
      only if, the bin number looked at was not caught by the trap; and then the
      bins are again as few and as narrow as promised. */
  lemma AddIsExact(h: Hist, events: seq<Event>, event: Event, word: nat)
    requires Sound(h, events) && word > MAX_BINS
    ensures Exact(Add(h, event, word), events + [event]) <==> !Traps(h, event.at, word)
    ensures !Traps(h, event.at, word) ==> Sound(Add(h, event, word), events + [event])
  {
    var a, at := Ready(h, event), event.at;
    var lo, hi := if events == [] then at else Lo(events), if events == [] then at else Hi(events);
    ReadyFits(h, events, event);
    ReadyIsAsNear(h, events, event, word);
    AddCounts(h, event, word);
    ReadyIsCounted(a, events, event, word, lo, hi);
    OneMoreLoHi(events, event);
    assert Add(h, event, word) == Counted(Reaching(a, at), event, word);
    if !Traps(h, at, word) {
      assert Sound(Add(h, event, word), events + [event]);
    }
  }

  lemma ReadyIsCounted(a: Hist, events: seq<Event>, event: Event, word: nat, lo: nat, hi: nat)
    requires Fits(a, events, lo, hi) && Tight(a.binMs, lo, hi) && event.kind < |a.series| && word > MAX_BINS
    ensures Rect(Reaching(a, event.at)) && Reaching(a, event.at).bins > 0 && event.kind < |Reaching(a, event.at).series|
    ensures Exact(Counted(Reaching(a, event.at), event, word), events + [event]) <==> !Caught(a, event.at, word)
    ensures !Caught(a, event.at, word) ==>
              var c := Counted(Reaching(a, event.at), event, word);
              Lattice(c, Min(lo, event.at), Max(hi, event.at)) && Tight(c.binMs, Min(lo, event.at), Max(hi, event.at))
  {
    BackwardKeepsRect(a, event.at);
    ReachedFits(a, events, event.at, word, lo, hi);
    ReachedIsNoNearer(a, event.at, word, lo, hi);
    CountedIsExact(Reaching(a, event.at), events, event, word, Min(lo, event.at), hi);
  }

  lemma AddCounts(h: Hist, event: Event, word: nat)
    requires Rect(h) && word > MAX_BINS
    ensures Add(h, event, word).total == h.total + 1
    ensures |Add(h, event, word).series| == Max(|h.series|, event.kind + 1)
  {
    ReachingKeepsTotals(Ready(h, event), event.at);
    BackwardKeepsRect(Ready(h, event), event.at);
  }

  // --------------------------------------------------------------- whole runs

  ghost predicate NeverTraps(events: seq<Event>, word: nat)
    requires word > MAX_BINS
  {
    forall n | 0 <= n < |events| :: !Traps(RunAdds(events[..n], word), events[n].at, word)
  }

  /** After any adds in any order of time, short of the trap: every count is
      exact, there are never more than MAX_BINS bins, they end with that of the
      latest event, and no width was doubled without need. */
  lemma {:induction false} RunIsExact(events: seq<Event>, word: nat)
    requires word > MAX_BINS && NeverTraps(events, word)
    ensures Sound(RunAdds(events, word), events)
  {
    if events != [] {
      var front, last := events[..|events| - 1], events[|events| - 1];
      forall n | 0 <= n < |front| ensures !Traps(RunAdds(front[..n], word), front[n].at, word) {
        assert front[..n] == events[..n];
      }
      RunIsExact(front, word);
      AddIsExact(RunAdds(front, word), front, last, word);
      assert front + [last] == events;
    }
  }

  /** After every event of a run the counts are a recount's. */
  ghost predicate ExactAllAlong(events: seq<Event>, word: nat)
    requires word > MAX_BINS
  {
    forall n | 0 <= n <= |events| :: Exact(RunAdds(events[..n], word), events[..n])
  }

  lemma NeverTrapsBefore(events: seq<Event>, word: nat, n: nat)
    requires word > MAX_BINS && NeverTraps(events, word) && n <= |events|
    ensures NeverTraps(events[..n], word)
  {
    forall m | 0 <= m < n ensures !Traps(RunAdds(events[..n][..m], word), events[..n][m].at, word) {
      assert events[..n][..m] == events[..m];
    }
  }

  lemma ExactStepIsUntrapped(events: seq<Event>, event: Event, word: nat)
    requires word > MAX_BINS && NeverTraps(events, word) && Exact(RunAdds(events + [event], word), events + [event])
    ensures NeverTraps(events + [event], word)
  {
    RunIsExact(events, word);
    AddIsExact(RunAdds(events, word), events, event, word);
    var more := events + [event];
    assert more[..|events|] == events;
    forall n | 0 <= n < |more| ensures !Traps(RunAdds(more[..n], word), more[n].at, word) {
      assert n < |events| ==> more[..n] == events[..n];
    }
  }

  lemma {:induction false} ExactMeansUntrapped(events: seq<Event>, word: nat)
    requires word > MAX_BINS && ExactAllAlong(events, word)
    ensures NeverTraps(events, word)
  {
    if events != [] {
      var front, last := events[..|events| - 1], events[|events| - 1];
      forall n | 0 <= n <= |front| ensures Exact(RunAdds(front[..n], word), front[..n]) {
        assert front[..n] == events[..n];
      }
      ExactMeansUntrapped(front, word);
      assert front + [last] == events == events[..|events|];
      ExactStepIsUntrapped(front, last, word);
    }
  }

  /** A run is exact all along if and only if none of its events meets the trap. */
  lemma ExactExactlyWhenNeverTrapped(events: seq<Event>, word: nat)
    requires word > MAX_BINS
    ensures ExactAllAlong(events, word) <==> NeverTraps(events, word)
  {
    if NeverTraps(events, word) {
      forall n | 0 <= n <= |events| ensures Exact(RunAdds(events[..n], word), events[..n]) {
        NeverTrapsBefore(events, word, n);
        RunIsExact(events[..n], word);
      }
    }
    if ExactAllAlong(events, word) {
      ExactMeansUntrapped(events, word);
    }
  }

  /** No trap within a word's worth of bins from the start. */
  lemma WithinWordNeverTraps(h: Hist, at: nat, word: nat)
    requires h.binMs > 0 && word > MAX_BINS && at < h.startMs + word * h.binMs
    ensures !Traps(h, at, word)
  {
    if at >= h.startMs {
      QuotientBelow(at - h.startMs, h.binMs, word);
    }
  }

  lemma QuotientBelow(a: nat, b: nat, w: nat)
    requires b > 0 && a < w * b
    ensures a / b < w
  {
    if a / b >= w {
      Times(w, a / b, b);
    }
  }

  /** A sound histogram starts less than a bin after its earliest event, so an
      event less than a word's worth of narrowest bins, less one, after some time
      that no event precedes is within a word's worth of bins from the start. */
  lemma NarrowSpanIsWithinWord(h: Hist, events: seq<Event>, at: nat, word: nat, lo: nat)
    requires Sound(h, events) && events != [] && word > MAX_BINS
    requires lo <= Lo(events) && at < lo + (word - 1) * MIN_BIN_MS
    ensures at < h.startMs + word * h.binMs
  {
    TwiceDoubled(h.binMs);
    Times(MIN_BIN_MS, h.binMs, word - 1);
    assert word * h.binMs == h.binMs * (word - 1) + h.binMs;
  }

  /** Events at any date, in any order, whose span is less than a word's worth of
      narrowest bins, less one, never meet the trap: with 32-bit words, that is
      anything under 13.6 years. */
  lemma {:induction false} NarrowSpansNeverTrap(events: seq<Event>, word: nat, lo: nat)
    requires word > MAX_BINS && forall n | 0 <= n < |events| :: lo <= events[n].at < lo + (word - 1) * MIN_BIN_MS
    ensures NeverTraps(events, word)
  {
    forall n | 0 <= n < |events| ensures !Traps(RunAdds(events[..n], word), events[n].at, word) {
      NarrowSpansNeverTrap(events[..n], word, lo);
      RunIsExact(events[..n], word);
      if n > 0 {
        LoHi(events[..n], 0);
        NarrowSpanIsWithinWord(RunAdds(events[..n], word), events[..n], events[n].at, word, lo);
        WithinWordNeverTraps(RunAdds(events[..n], word), events[n].at, word);
      }
    }
  }

  /** Nor do timestamps below a word's worth of narrowest bins, whatever their
      span: with 32-bit words, those before 1983. */
  lemma {:induction false} ShortTimesNeverTrap(events: seq<Event>, word: nat)
    requires word > MAX_BINS && forall n | 0 <= n < |events| :: events[n].at < word * MIN_BIN_MS
    ensures NeverTraps(events, word)
  {
    forall n | 0 <= n < |events| ensures !Traps(RunAdds(events[..n], word), events[n].at, word) {
      ShortTimesNeverTrap(events[..n], word);
      RunIsExact(events[..n], word);
      if n > 0 {
        ShortTimeIsWithinWord(RunAdds(events[..n], word), events[..n], events[n].at, word);
        WithinWordNeverTraps(RunAdds(events[..n], word), events[n].at, word);
      }
    }
  }

  lemma ShortTimeIsWithinWord(h: Hist, events: seq<Event>, at: nat, word: nat)
    requires Sound(h, events) && events != [] && word > MAX_BINS && at < word * MIN_BIN_MS
    ensures at < h.startMs + word * h.binMs
  {
    TwiceDoubled(h.binMs);
    Times(MIN_BIN_MS, h.binMs, word);
  }

  const WORD_32 := 0x1_0000_0000
  const WORD_64 := 0x1_0000_0000_0000_0000

  /** With 64-bit words nothing is lost for any 64-bit timestamps, and even the
      next doubling of the width would not overflow. */
  lemma NativeRunsAreExact(events: seq<Event>)
    requires forall n | 0 <= n < |events| :: events[n].at <= U64_MAX
    ensures Sound(RunAdds(events, WORD_64), events)
    ensures 2 * RunAdds(events, WORD_64).binMs <= U64_MAX
  {
    ShortTimesNeverTrap(events, WORD_64);
    RunIsExact(events, WORD_64);
    if events != [] {
      LoHi(events, 0);
      var j :| 0 <= j < |events| && events[j].at == Lo(events);
      HiIsOne(events);
    }
  }

  lemma {:induction false} HiIsOne(events: seq<Event>)
    requires events != []
    ensures exists i :: 0 <= i < |events| && events[i].at == Hi(events)
  {
    if |events| > 1 {
      var front := events[..|events| - 1];
      HiIsOne(front);
      var i :| 0 <= i < |front| && front[i].at == Hi(front);
      assert events[i].at == Hi(front);
    }
    assert |events| == 1 ==> events[0].at == Hi(events);
    assert |events| > 1 && events[|events| - 1].at >= Hi(events[..|events| - 1]) ==>
             events[|events| - 1].at == Hi(events);
  }

  lemma RunOneMore(events: seq<Event>, event: Event, word: nat)
    requires word > MAX_BINS
    ensures RunAdds(events + [event], word) == Add(RunAdds(events, word), event, word)
  {
    assert (events + [event])[..|events|] == events;
  }

  lemma FirstAtTheEpoch(first: Event)
    requires first == Event(0, 0)
    ensures Add(BLANK, first, WORD_32) == Hist(0, MIN_BIN_MS, 1, [[1]], 1)
  {
    var kinds := WithKind(BLANK.(total := 1), 0);
    assert kinds.series == [[]];
    var blank := Ready(BLANK, first);
    assert Widened([], 1) == [0];
    assert blank.series == [[0]];
    assert Quotient(blank, 0) == 0;
    var h := Add(BLANK, first, WORD_32);
    assert h == Bump(Grown(blank, 0), 0, 0);
    assert h.series[0] == [1];
    assert h.series == [[1]];
  }

  lemma SecondIsMisplaced(h: Hist, second: Event)
    requires h == Hist(0, MIN_BIN_MS, 1, [[1]], 1) && second == Event(1_717_986_918_400, 0)
    ensures Add(h, second, WORD_32) == Hist(0, MIN_BIN_MS, 1, [[2]], 2)
  {
    var ready := Ready(h, second);
    assert ready.series == [[1]];
    assert Quotient(ready, second.at) == 4 * WORD_32;
    assert Index(ready, second.at, WORD_32) == 0;
    var after := Add(h, second, WORD_32);
    assert after == Bump(Grown(ready, 0), 0, 0);
    assert after.series[0] == [2];
    assert after.series == [[2]];
  }

  /** With the 32-bit words of WebAssembly the trap is real: an event at the epoch
      followed by one in June 2024 puts both in the first bin. */
  lemma ShortWordsMisplace()
    ensures var events := [Event(0, 0), Event(1_717_986_918_400, 0)];
            var h := RunAdds(events, WORD_32);
            && h.series == [[2]]
            && Count(events, 0, h.startMs, h.binMs, 0) == 1
  {
    var first, second := Event(0, 0), Event(1_717_986_918_400, 0);
    var events := [first, second];
    assert [first] + [second] == events && [] + [first] == [first];
    RunOneMore([], first, WORD_32);
    RunOneMore([first], second, WORD_32);
    FirstAtTheEpoch(first);
    SecondIsMisplaced(RunAdds([first], WORD_32), second);
    CountOneMore([first], second, 0, 0, MIN_BIN_MS, 0);
    CountOneMore([], first, 0, 0, MIN_BIN_MS, 0);
  }

  /** Once the start has come within a bin of zero it never moves again. */
  lemma StartNearZeroStays(h: Hist, events: seq<Event>, event: Event, word: nat)
    requires Sound(h, events) && events != [] && word > MAX_BINS && h.startMs < h.binMs
    ensures Add(h, event, word).startMs == h.startMs
  {
    ReadyFits(h, events, event);
    BackwardStays(Ready(h, event), event.at);
  }

  lemma {:induction false} BackwardStays(h: Hist, at: nat)
    requires h.binMs > 0 && h.bins > 0 && h.startMs < h.binMs
    ensures Reaching(h, at).startMs == h.startMs
    decreases if at < h.startMs then h.bins + Wanted(h, at) else 0
  {
    if at < h.startMs {
      ExtraReaches(h, at);
      if h.bins + Wanted(h, at) > MAX_BINS {
        HalfAsManyWanted(h, at);
        BackwardStays(Coarsen(h), at);
      }
    }
  }
}
