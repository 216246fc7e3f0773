/** The histogram as an object whose rows are rewritten in place. */
module HistogramClass {
  import opened Basics
  import H = Histogram

  class Histogram {
    /** How many values a machine word has on the platform. */
    const word: nat
    var startMs: nat
    var binMs: nat
    var bins: nat
    var series: seq<seq<nat>>
    var total: nat

    ghost predicate Valid()
      reads this
    {
      word > H.MAX_BINS && H.Rect(Value())
    }

    ghost function Value(): H.Hist
      reads this
    {
      H.Hist(startMs, binMs, bins, series, total)
    }

    constructor (word: nat)
      requires word > H.MAX_BINS
      ensures Valid() && this.word == word && Value() == H.BLANK
    {
      this.word := word;
      startMs, binMs, bins, series, total := 0, H.MIN_BIN_MS, 0, [], 0;
    }

    /** The row of a kind; a kind without one has no counts. */
    function Series(kind: nat): seq<nat>
      reads this
    {
      if kind < |series| then series[kind] else []
    }

    /** Count `kind` at `timestampMs`, growing or coarsening as that takes. */
    method Add(timestampMs: nat, kind: nat)
      requires Valid()
      modifies this
      ensures Valid() && Value() == H.Add(old(Value()), H.Event(timestampMs, kind), word)
    {
      Prepare(timestampMs, kind);
      H.BackwardKeepsRect(Value(), timestampMs);
      if timestampMs < startMs {
        ExtendBackwards(timestampMs);
      }
      CountThere(timestampMs, kind);
    }

    /** Up to where the range is looked at: the total, the kind's row, a first bin. */
    method Prepare(timestampMs: nat, kind: nat)
      requires Valid()
      modifies this
      ensures Valid() && bins > 0 && kind < |series|
      ensures Value() == H.Anchored(H.WithKind(old(Value()).(total := old(total) + 1), kind), timestampMs)
    {
      total := total + 1;
      EnsureKind(kind);
      if bins == 0 {
        startMs := timestampMs - timestampMs % binMs;
        SetBins(1);
      }
    }

    /** From where the range reaches back as far as it can. */
    method CountThere(timestampMs: nat, kind: nat)
      requires Valid() && bins > 0 && kind < |series|
      modifies this
      ensures Valid() && Value() == H.Counted(old(Value()), H.Event(timestampMs, kind), word)
    {
      if timestampMs < startMs {
        // Clamped at zero: the first bin takes it.
        series := series[kind := series[kind][0 := series[kind][0] + 1]];
        return;
      }
      CountForward(timestampMs, kind);
    }

    method CountForward(timestampMs: nat, kind: nat)
      requires Valid() && startMs <= timestampMs && kind < |series|
      modifies this
      ensures Valid() && Value() == H.Forward(old(Value()), timestampMs, kind, word)
    {
      ghost var target := H.Forward(Value(), timestampMs, kind, word);
      while true
        invariant Valid() && startMs == old(startMs) && kind < |series|
        invariant H.Forward(Value(), timestampMs, kind, word) == target
        decreases H.Quotient(Value(), timestampMs), if H.Index(Value(), timestampMs, word) < bins then 0 else 1
      {
        ghost var h := Value();
        var index := (timestampMs - startMs) / binMs % word;
        if index < bins {
          H.GrownKeepsRect(h, index);
          series := series[kind := series[kind][index := series[kind][index] + 1]];
          return;
        }
        if index < H.MAX_BINS {
          GrowingFirst(h, timestampMs, kind, word);
          SetBins(index + 1);
          continue;
        }
        CoarseningFirst(h, timestampMs, kind, word);
        Coarsen();
      }
    }

    method EnsureKind(kind: nat)
      requires Valid()
      modifies this`series
      ensures Valid() && Value() == H.WithKind(old(Value()), kind)
    {
      var needed, row := kind + 1, H.Zeros(bins);
      while |series| < needed
        invariant |series| == |old(series)| || |old(series)| <= |series| <= needed
        invariant forall j | 0 <= j < |series| :: series[j] == if j < |old(series)| then old(series)[j] else row
      {
        series := series + [row];
      }
      assert series == H.WithKind(old(Value()), kind).series;
    }

    method SetBins(bins: nat)
      requires word > H.MAX_BINS && binMs > 0
      modifies this`bins, this`series
      ensures Valid() && Value() == H.SetBins(old(Value()), bins)
    {
      this.bins := bins;
      for k := 0 to |series|
        invariant |series| == |old(series)| && this.bins == bins
        invariant forall j | 0 <= j < |series| ::
                    series[j] == if j < k then H.Widened(old(series)[j], bins) else old(series)[j]
      {
        series := series[k := H.Widened(series[k], bins)];
      }
      assert series == H.SetBins(old(Value()), bins).series;
    }

    /** Move the start back by whole bins towards `timestampMs`, coarsening first
        as long as the bins would be too many. */
    method ExtendBackwards(timestampMs: nat)
      requires Valid() && timestampMs < startMs && bins > 0
      modifies this
      ensures Valid() && Value() == H.Backward(old(Value()), timestampMs)
    {
      ghost var target := H.Backward(Value(), timestampMs);
      while true
        invariant Valid() && timestampMs < startMs && bins > 0
        invariant H.Backward(Value(), timestampMs) == target
        decreases bins + H.Wanted(Value(), timestampMs)
      {
        var wanted := H.CeilDiv(startMs - timestampMs, binMs);
        if bins + wanted <= H.MAX_BINS {
          var extra := Min(wanted, startMs / binMs);
          assert extra == H.Extra(Value(), timestampMs);
          if extra > 0 {
            H.PrependKeepsRect(Value(), extra);
            ghost var grown := H.Prepend(Value(), extra);
            PrependRows(extra);
            assert series == grown.series;
            bins := bins + extra;
            startMs := startMs - extra * binMs;
          }
          return;
        }
        H.HalfAsManyWanted(Value(), timestampMs);
        Coarsen();
      }
    }

    method PrependRows(extra: nat)
      modifies this`series
      ensures |series| == |old(series)|
      ensures forall j | 0 <= j < |series| :: series[j] == H.Zeros(extra) + old(series)[j]
    {
      for k := 0 to |series|
        invariant |series| == |old(series)|
        invariant forall j | 0 <= j < |series| ::
                    series[j] == if j < k then H.Zeros(extra) + old(series)[j] else old(series)[j]
      {
        series := series[k := H.Zeros(extra) + series[k]];
      }
    }

    /** Replace every row by its pair sums, at twice the width. */
    method Coarsen()
      requires Valid()
      modifies this`series, this`bins, this`binMs
      ensures Valid() && Value() == H.Coarsen(old(Value()))
    {
      H.CoarsenKeepsRect(Value());
      for k := 0 to |series|
        invariant |series| == |old(series)| && bins == old(bins) && binMs == old(binMs)
        invariant forall j | 0 <= j < |series| ::
                    series[j] == if j < k then H.PairSums(old(series)[j]) else old(series)[j]
      {
        series := series[k := H.PairSums(series[k])];
      }
      assert series == H.Coarsen(old(Value())).series;
      bins := H.CeilDiv(bins, 2);
      binMs := binMs * 2;
    }
  }

  /** Growing the bins and looking again finds the same bin. */
  lemma GrowingFirst(h: H.Hist, at: nat, kind: nat, word: nat)
    requires H.Rect(h) && h.startMs <= at && kind < |h.series| && word > H.MAX_BINS
    requires h.bins <= H.Index(h, at, word) < H.MAX_BINS
    ensures var grown := H.SetBins(h, H.Index(h, at, word) + 1);
            H.Rect(grown) && H.Index(grown, at, word) == H.Index(h, at, word) < grown.bins
            && H.Forward(grown, at, kind, word) == H.Forward(h, at, kind, word)
  {
  }

  lemma CoarseningFirst(h: H.Hist, at: nat, kind: nat, word: nat)
    requires H.Rect(h) && h.startMs <= at && kind < |h.series| && word > H.MAX_BINS
    requires H.Index(h, at, word) >= h.bins && H.Index(h, at, word) >= H.MAX_BINS
    ensures var coarse := H.Coarsen(h);
            H.Rect(coarse) && H.Forward(coarse, at, kind, word) == H.Forward(h, at, kind, word)
            && H.Quotient(coarse, at) < H.Quotient(h, at)
  {
    H.CoarsenKeepsRect(h);
    H.UnsettledCoarsens(h, at, word);
  }
}
