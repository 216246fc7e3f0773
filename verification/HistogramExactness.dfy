/** The histogram's counts are where a recount of the events would put them, and
    its bins no wider than the span of the events forces on it. */
module HistogramExactness {
  import opened Basics
  import opened Histogram

  /** The bin an event belongs in; one before the start belongs in the first. */
  function IndexOf(at: nat, startMs: nat, binMs: nat): nat
    requires binMs > 0
  {
    if at < startMs then 0 else (at - startMs) / binMs
  }

  /** The recount: how many events of a kind belong in a bin. */
  function Count(events: seq<Event>, kind: nat, startMs: nat, binMs: nat, index: nat): nat
    requires binMs > 0
  {
    if events == [] then 0
    else
      var last := events[|events| - 1];
      Count(events[..|events| - 1], kind, startMs, binMs, index)
      + if last.kind == kind && IndexOf(last.at, startMs, binMs) == index then 1 else 0
  }

  ghost predicate Exact(h: Hist, events: seq<Event>) {
    && Rect(h)
    && (forall k, i | 0 <= k < |h.series| && 0 <= i < h.bins ::
          h.series[k][i] == Count(events, k, h.startMs, h.binMs, i))
  }

  ghost predicate KindsKnown(h: Hist, events: seq<Event>) {
    forall j | 0 <= j < |events| :: events[j].kind < |h.series|
  }

  ghost predicate InRange(h: Hist, events: seq<Event>) {
    && h.binMs > 0
    && forall j | 0 <= j < |events| :: IndexOf(events[j].at, h.startMs, h.binMs) < h.bins
  }

  // --------------------------------------------------------------- recounting

  lemma {:induction false} CountNothing(events: seq<Event>, kind: nat, startMs: nat, binMs: nat, index: nat)
    requires binMs > 0
    requires forall j | 0 <= j < |events| :: events[j].kind != kind || IndexOf(events[j].at, startMs, binMs) != index
    ensures Count(events, kind, startMs, binMs, index) == 0
  {
    if events != [] {
      CountNothing(events[..|events| - 1], kind, startMs, binMs, index);
    }
  }

  lemma IndexInHalves(at: nat, startMs: nat, binMs: nat)
    requires binMs > 0
    ensures IndexOf(at, startMs, 2 * binMs) == IndexOf(at, startMs, binMs) / 2
  {
    if at >= startMs {
      NestedFloor(at - startMs, binMs, 2);
    }
  }

  lemma {:induction false} CountInHalves(events: seq<Event>, kind: nat, startMs: nat, binMs: nat, index: nat)
    requires binMs > 0
    ensures Count(events, kind, startMs, 2 * binMs, index)
         == Count(events, kind, startMs, binMs, 2 * index) + Count(events, kind, startMs, binMs, 2 * index + 1)
  {
    if events != [] {
      CountInHalves(events[..|events| - 1], kind, startMs, binMs, index);
      IndexInHalves(events[|events| - 1].at, startMs, binMs);
    }
  }

  lemma IndexShifted(at: nat, startMs: nat, binMs: nat, extra: nat)
    requires binMs > 0 && extra * binMs <= startMs <= at
    ensures IndexOf(at, startMs - extra * binMs, binMs) == IndexOf(at, startMs, binMs) + extra
  {
    var d := at - startMs;
    assert (d / binMs + extra) * binMs == (d / binMs) * binMs + extra * binMs;
    QuotientIs(d + extra * binMs, binMs, d / binMs + extra, d % binMs);
  }

  lemma {:induction false} CountShifted(events: seq<Event>, kind: nat, startMs: nat, binMs: nat, extra: nat, index: nat)
    requires binMs > 0 && extra * binMs <= startMs
    requires forall j | 0 <= j < |events| :: startMs <= events[j].at
    ensures Count(events, kind, startMs - extra * binMs, binMs, index)
         == if index < extra then 0 else Count(events, kind, startMs, binMs, index - extra)
  {
    if events != [] {
      CountShifted(events[..|events| - 1], kind, startMs, binMs, extra, index);
      IndexShifted(events[|events| - 1].at, startMs, binMs, extra);
    }
  }

  lemma CountOneMore(events: seq<Event>, event: Event, kind: nat, startMs: nat, binMs: nat, index: nat)
    requires binMs > 0
    ensures Count(events + [event], kind, startMs, binMs, index)
         == Count(events, kind, startMs, binMs, index)
            + if event.kind == kind && IndexOf(event.at, startMs, binMs) == index then 1 else 0
  {
    assert (events + [event])[..|events|] == events;
  }

  // --------------------------------------------- what each operation preserves

  lemma CoarsenIsExact(h: Hist, events: seq<Event>)
    requires Exact(h, events) && InRange(h, events)
    ensures Exact(Coarsen(h), events)
  {
    var c := Coarsen(h);
    CoarsenKeepsRect(h);
    forall k, i | 0 <= k < |c.series| && 0 <= i < c.bins
      ensures c.series[k][i] == Count(events, k, c.startMs, c.binMs, i)
    {
      CountInHalves(events, k, h.startMs, h.binMs, i);
      if 2 * i + 1 >= h.bins {
        CountNothing(events, k, h.startMs, h.binMs, 2 * i + 1);
      }
    }
  }

  lemma PrependIsExact(h: Hist, events: seq<Event>, extra: nat)
    requires Exact(h, events) && extra * h.binMs <= h.startMs
    requires forall j | 0 <= j < |events| :: h.startMs <= events[j].at
    ensures Exact(Prepend(h, extra), events)
  {
    var p := Prepend(h, extra);
    PrependKeepsRect(h, extra);
    forall k, i | 0 <= k < |p.series| && 0 <= i < p.bins
      ensures p.series[k][i] == Count(events, k, p.startMs, p.binMs, i)
    {
      CountShifted(events, k, h.startMs, h.binMs, extra, i);
      assert p.series[k] == Zeros(extra) + h.series[k];
    }
  }

  lemma SetBinsIsExact(h: Hist, events: seq<Event>, bins: nat)
    requires Exact(h, events) && InRange(h, events) && bins >= h.bins
    ensures Exact(SetBins(h, bins), events)
  {
    var s := SetBins(h, bins);
    forall k, i | 0 <= k < |s.series| && 0 <= i < s.bins
      ensures s.series[k][i] == Count(events, k, s.startMs, s.binMs, i)
    {
      if i >= h.bins {
        CountNothing(events, k, h.startMs, h.binMs, i);
      }
    }
  }

  lemma WithKindIsExact(h: Hist, events: seq<Event>, kind: nat)
    requires Exact(h, events) && KindsKnown(h, events)
    ensures Exact(WithKind(h, kind), events) && KindsKnown(WithKind(h, kind), events)
    ensures kind < |WithKind(h, kind).series|
  {
    var w := WithKind(h, kind);
    forall k, i | 0 <= k < |w.series| && 0 <= i < w.bins
      ensures w.series[k][i] == Count(events, k, w.startMs, w.binMs, i)
    {
      if k >= |h.series| {
        CountNothing(events, k, h.startMs, h.binMs, i);
      }
    }
  }

  /** Counting an event in one bin is exact when, and only when, it is its bin. */
  lemma BumpIsExact(h: Hist, events: seq<Event>, event: Event, index: nat)
    requires Exact(h, events) && event.kind < |h.series| && index < h.bins
    ensures Exact(Bump(h, event.kind, index), events + [event]) <==> IndexOf(event.at, h.startMs, h.binMs) == index
  {
    var b := Bump(h, event.kind, index);
    CountOneMore(events, event, event.kind, h.startMs, h.binMs, index);
    if IndexOf(event.at, h.startMs, h.binMs) == index {
      forall k, i | 0 <= k < |b.series| && 0 <= i < b.bins
        ensures b.series[k][i] == Count(events + [event], k, b.startMs, b.binMs, i)
      {
        CountOneMore(events, event, k, h.startMs, h.binMs, i);
      }
    }
  }

  // -------------------------------------------------------------------- shape

  function Lo(events: seq<Event>): nat
    requires events != []
  {
    if |events| == 1 then events[0].at else Min(Lo(events[..|events| - 1]), events[|events| - 1].at)
  }

  function Hi(events: seq<Event>): nat
    requires events != []
  {
    if |events| == 1 then events[0].at else Max(Hi(events[..|events| - 1]), events[|events| - 1].at)
  }

  lemma {:induction false} LoHi(events: seq<Event>, j: nat)
    requires j < |events|
    ensures Lo(events) <= events[j].at <= Hi(events)
    ensures exists i :: 0 <= i < |events| && events[i].at == Lo(events)
  {
    var front := events[..|events| - 1];
    if |events| > 1 {
      LoHi(front, if j < |front| then j else 0);
    }
  }

  /** A width reached from the narrowest by doubling. */
  ghost predicate Doubled(binMs: nat) {
    exists k: nat :: binMs == MIN_BIN_MS * Pow2(k)
  }

  lemma TwiceDoubled(binMs: nat)
    requires Doubled(binMs)
    ensures Doubled(2 * binMs) && binMs >= MIN_BIN_MS
  {
    var k: nat :| binMs == MIN_BIN_MS * Pow2(k);
    assert 2 * binMs == MIN_BIN_MS * Pow2(k + 1);
  }

  /** The bins end with the one of the latest event; the earliest is in the
      first, or before it, and the latter only once the start has come within a
      bin of zero. */
  ghost predicate Lattice(h: Hist, lo: nat, hi: nat) {
    && h.binMs > 0 && h.bins > 0
    && Doubled(h.binMs)
    && lo <= hi && h.startMs <= hi
    && h.bins == (hi - h.startMs) / h.binMs + 1 <= MAX_BINS
    && lo < h.startMs + h.binMs
    && (lo < h.startMs ==> h.startMs < h.binMs)
  }

  /** No width was doubled that a narrower one could have served. */
  ghost predicate Tight(binMs: nat, lo: nat, hi: nat) {
    binMs == MIN_BIN_MS || hi - lo > (MAX_BINS - 1) * (binMs / 2)
  }

  lemma CoarsenLattice(h: Hist, lo: nat, hi: nat)
    requires Lattice(h, lo, hi)
    ensures Lattice(Coarsen(h), lo, hi)
  {
    TwiceDoubled(h.binMs);
    NestedFloor(hi - h.startMs, h.binMs, 2);
  }

  /** The gap that makes a doubling tight. */
  lemma WideEnough(gap: int, n: nat, binMs: nat)
    requires n >= MAX_BINS - 1 && gap > n * binMs
    ensures gap > (MAX_BINS - 1) * (2 * binMs / 2)
  {
    Times(MAX_BINS - 1, n, binMs);
  }

  /** The shift back lands within a bin of `at`, or within a bin of zero. */
  lemma ExtraReaches(h: Hist, at: nat)
    requires at < h.startMs && h.binMs > 0
    ensures var start := h.startMs - Extra(h, at) * h.binMs;
            && at < start + h.binMs
            && (start <= at || start < h.binMs)
            && (h.startMs < h.binMs ==> Extra(h, at) == 0)
  {
    CeilDivMeans(h.startMs - at, h.binMs, Wanted(h, at));
    DivisionMeans(h.startMs, h.binMs);
    ShiftReaches(h.startMs, at, h.binMs, Extra(h, at), Wanted(h, at), h.startMs / h.binMs, h.startMs % h.binMs);
  }

  lemma ShiftReaches(start: nat, at: nat, b: nat, x: nat, w: nat, q: nat, r: nat)
    requires at < start && (w - 1) * b < start - at <= w * b
    requires start == q * b + r && r < b && x == Min(w, q)
    ensures x * b <= start && at < start - x * b + b && (start - x * b <= at || start - x * b < b)
    ensures start < b ==> x == 0
  {
    OneLess(b, w);
    Times(x, q, b);
    if x < w {
      Times(x, w - 1, b);
    }
    if q > 0 {
      Times(1, q, b);
    }
  }

  lemma PrependLattice(h: Hist, lo: nat, hi: nat, at: nat)
    requires Lattice(h, lo, hi) && at < h.startMs && h.bins + Wanted(h, at) <= MAX_BINS
    ensures Lattice(Prepend(h, Extra(h, at)), Min(lo, at), hi)
    ensures Extra(h, at) > 0 ==> lo >= h.startMs
    ensures var p := Prepend(h, Extra(h, at)); at < p.startMs + p.binMs
  {
    TwiceDoubled(h.binMs);
    ExtraReaches(h, at);
    IndexShifted(hi, h.startMs, h.binMs, Extra(h, at));
  }

  lemma {:induction false} ReachingLattice(h: Hist, lo: nat, hi: nat, at: nat)
    requires Lattice(h, lo, hi) && Tight(h.binMs, Min(lo, at), hi)
    ensures var r := Reaching(h, at);
            Lattice(r, Min(lo, at), hi) && Tight(r.binMs, Min(lo, at), hi)
              && (at < h.startMs ==> at < r.startMs + r.binMs)
    decreases if at < h.startMs && h.binMs > 0 then h.bins + Wanted(h, at) else 0
  {
    if at < h.startMs {
      if h.bins + Wanted(h, at) <= MAX_BINS {
        PrependLattice(h, lo, hi, at);
        assert Extra(h, at) == 0 ==> Prepend(h, Extra(h, at)) == h by { RowsUnchanged(h); }
      } else {
        BackwardIsTight(h, lo, hi, at);
        HalfAsManyWanted(h, at);
        CoarsenLattice(h, lo, hi);
        ReachingLattice(Coarsen(h), lo, hi, at);
      }
    }
  }

  lemma RowsUnchanged(h: Hist)
    ensures Prepend(h, 0) == h
  {
    var p := Prepend(h, 0);
    forall k | 0 <= k < |h.series| ensures p.series[k] == h.series[k] {
      assert Zeros(0) + h.series[k] == h.series[k];
    }
    assert p.series == h.series;
  }

  lemma BackwardIsTight(h: Hist, lo: nat, hi: nat, at: nat)
    requires Lattice(h, lo, hi) && at < h.startMs && h.bins + Wanted(h, at) > MAX_BINS
    ensures Tight(2 * h.binMs, Min(lo, at), hi)
  {
    var b, w := h.binMs, Wanted(h, at);
    CeilDivMeans(h.startMs - at, b, w);
    var q := (hi - h.startMs) / b;
    assert hi - h.startMs == q * b + (hi - h.startMs) % b;
    assert (q + (w - 1)) * b == q * b + (w - 1) * b;
    HalfAsManyWanted(h, at);
    WideEnough(hi - at, q + (w - 1), b);
  }

  // -------------------------------------------------- the word-sized bin number

  /** Whether, at some width on the way to a fitting one, the bin number is too
      long for a word but its low bits name a bin there could be. */
  predicate Trapped(q: nat, word: nat)
    requires word > MAX_BINS
  {
    q >= word && (q % word < MAX_BINS || Trapped(q / 2, word))
  }

  /** Whether adding an event at `at` next falls in that trap. */
  predicate Traps(h: Hist, at: nat, word: nat)
    requires h.binMs > 0 && word > MAX_BINS
  {
    h.bins > 0 && at >= h.startMs && Trapped(Quotient(h, at), word)
  }

  lemma ForwardIsTight(h: Hist, lo: nat, hi: nat, at: nat)
    requires Lattice(h, lo, hi) && h.startMs <= at && Quotient(h, at) >= MAX_BINS
    ensures Tight(2 * h.binMs, Min(lo, at), Max(hi, at))
  {
    var b := h.binMs;
    Times(MAX_BINS, Quotient(h, at), b);
    assert Quotient(h, at) * b <= at - h.startMs;
    assert at - lo > (MAX_BINS - 1) * b;
    WideEnough(at - lo, MAX_BINS - 1, b);
  }

  ghost predicate Fits(h: Hist, events: seq<Event>, lo: nat, hi: nat) {
    && Exact(h, events) && KindsKnown(h, events)
    && Lattice(h, lo, hi)
    && forall j | 0 <= j < |events| :: lo <= events[j].at <= hi
  }

  lemma FitsInRange(h: Hist, events: seq<Event>, lo: nat, hi: nat)
    requires Fits(h, events, lo, hi)
    ensures InRange(h, events)
  {
    forall j | 0 <= j < |events| ensures IndexOf(events[j].at, h.startMs, h.binMs) < h.bins {
      var at := events[j].at;
      if at >= h.startMs {
        DivideMonotone(at - h.startMs, hi - h.startMs, h.binMs);
      }
    }
  }

  lemma LatticeWithin(h: Hist, lo: nat, hi: nat, at: nat)
    requires Lattice(h, lo, hi) && h.startMs <= at && Quotient(h, at) < h.bins
    ensures Lattice(h, Min(lo, at), Max(hi, at))
  {
    if hi < at {
      DivideMonotone(hi - h.startMs, at - h.startMs, h.binMs);
    }
  }

  lemma LatticeWidened(h: Hist, lo: nat, hi: nat, at: nat)
    requires Lattice(h, lo, hi) && h.startMs <= at && h.bins <= Quotient(h, at) < MAX_BINS
    ensures Lattice(SetBins(h, Quotient(h, at) + 1), Min(lo, at), Max(hi, at))
  {
    if at < hi {
      DivideMonotone(at - h.startMs, hi - h.startMs, h.binMs);
    }
  }

  lemma TrappedWhenCut(q: nat, word: nat)
    requires word > MAX_BINS && q % word < MAX_BINS
    ensures Trapped(q, word) <==> q % word != q
  {
  }

  lemma NotTrappedYet(q: nat, word: nat)
    requires word > MAX_BINS && q % word >= MAX_BINS
    ensures Trapped(q, word) <==> Trapped(q / 2, word)
  {
    if q < word {
      assert q / 2 < word;
    }
  }

  lemma CoarsenFits(h: Hist, events: seq<Event>, lo: nat, hi: nat)
    requires Fits(h, events, lo, hi)
    ensures Fits(Coarsen(h), events, lo, hi)
  {
    FitsInRange(h, events, lo, hi);
    CoarsenIsExact(h, events);
    CoarsenLattice(h, lo, hi);
  }

  ghost predicate FitsTightly(h: Hist, events: seq<Event>, lo: nat, hi: nat, at: nat) {
    Fits(h, events, lo, hi) && Tight(h.binMs, Min(lo, at), Max(hi, at))
  }

  lemma CoarsenFitsTightly(h: Hist, events: seq<Event>, at: nat, lo: nat, hi: nat)
    requires FitsTightly(h, events, lo, hi, at) && h.startMs <= at && Quotient(h, at) >= MAX_BINS
    ensures FitsTightly(Coarsen(h), events, lo, hi, at)
  {
    CoarsenFits(h, events, lo, hi);
    ForwardIsTight(h, lo, hi, at);
  }

  /** Settling loses no count and no shape. */
  lemma {:induction false} SettledFits(h: Hist, events: seq<Event>, at: nat, word: nat, lo: nat, hi: nat)
    requires FitsTightly(h, events, lo, hi, at) && h.startMs <= at && word > MAX_BINS
    ensures FitsTightly(Settled(h, at, word), events, lo, hi, at)
    decreases Quotient(h, at)
  {
    if Index(h, at, word) >= h.bins && Index(h, at, word) >= MAX_BINS {
      UnsettledCoarsens(h, at, word);
      CoarsenFitsTightly(h, events, at, lo, hi);
      SettledFits(Coarsen(h), events, at, word, lo, hi);
    }
  }

  /** Nor does it enter or leave the trap. */
  lemma {:induction false} SettledStaysTrapped(h: Hist, at: nat, word: nat)
    requires Rect(h) && h.startMs <= at && word > MAX_BINS
    ensures Trapped(Quotient(Settled(h, at, word), at), word) <==> Trapped(Quotient(h, at), word)
    decreases Quotient(h, at)
  {
    if Index(h, at, word) >= h.bins && Index(h, at, word) >= MAX_BINS {
      UnsettledCoarsens(h, at, word);
      CoarsenKeepsRect(h);
      NotTrappedYet(Quotient(h, at), word);
      SettledStaysTrapped(Coarsen(h), at, word);
    }
  }

  lemma SettledKeeps(h: Hist, events: seq<Event>, at: nat, word: nat, lo: nat, hi: nat)
    requires Fits(h, events, lo, hi) && h.startMs <= at && word > MAX_BINS
    requires Tight(h.binMs, Min(lo, at), Max(hi, at))
    ensures var s := Settled(h, at, word);
            && Fits(s, events, lo, hi) && Tight(s.binMs, Min(lo, at), Max(hi, at))
            && (Trapped(Quotient(s, at), word) <==> Trapped(Quotient(h, at), word))
  {
    SettledFits(h, events, at, word, lo, hi);
    SettledStaysTrapped(h, at, word);
  }

  lemma PlacedIsExact(s: Hist, events: seq<Event>, event: Event, index: nat)
    requires Exact(s, events) && InRange(s, events) && s.startMs <= event.at && event.kind < |s.series|
    ensures Rect(Grown(s, index)) && index < Grown(s, index).bins
    ensures Exact(Bump(Grown(s, index), event.kind, index), events + [event]) <==> Quotient(s, event.at) == index
  {
    GrownKeepsRect(s, index);
    if index >= s.bins {
      SetBinsIsExact(s, events, index + 1);
    }
    BumpIsExact(Grown(s, index), events, event, index);
  }

  lemma PlacedLattice(s: Hist, lo: nat, hi: nat, at: nat)
    requires Lattice(s, lo, hi) && s.startMs <= at && (Quotient(s, at) < MAX_BINS || Quotient(s, at) < s.bins)
    ensures Lattice(Grown(s, Quotient(s, at)), Min(lo, at), Max(hi, at))
  {
    if Quotient(s, at) < s.bins {
      LatticeWithin(s, lo, hi, at);
    } else {
      LatticeWidened(s, lo, hi, at);
    }
  }

  /** Counting forward is exact when, and only when, the bin number is not
      caught by the trap; then the shape is kept as well. */
  lemma ForwardIsExact(h: Hist, events: seq<Event>, event: Event, word: nat, lo: nat, hi: nat)
    requires Fits(h, events, lo, hi) && h.startMs <= event.at && event.kind < |h.series| && word > MAX_BINS
    requires Tight(h.binMs, Min(lo, event.at), Max(hi, event.at))
    ensures Exact(Forward(h, event.at, event.kind, word), events + [event]) <==> !Trapped(Quotient(h, event.at), word)
    ensures !Trapped(Quotient(h, event.at), word) ==>
              var r := Forward(h, event.at, event.kind, word);
              Lattice(r, Min(lo, event.at), Max(hi, event.at)) && Tight(r.binMs, Min(lo, event.at), Max(hi, event.at))
  {
    var at := event.at;
    SettledKeeps(h, events, at, word, lo, hi);
    var s := Settled(h, at, word);
    var index := Index(s, at, word);
    FitsInRange(s, events, lo, hi);
    TrappedWhenCut(Quotient(s, at), word);
    PlacedIsExact(s, events, event, index);
    if index == Quotient(s, at) {
      PlacedLattice(s, lo, hi, at);
    }
  }
}
