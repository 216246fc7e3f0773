/** The timeline drawn from the histogram: whole numbers of bins merged, and the
    kinds of each slot added up. */
module Timeline {
  import opened Basics
  import opened Histogram
  import opened HistogramExactness
  import opened HistogramRuns
  import opened HistogramTotals
  import C = HistogramClass

  function Row(h: Hist, kind: nat): seq<nat> {
    if kind < |h.series| then h.series[kind] else []
  }

  /** How many bins are merged into each column. */
  function MergeOf(bins: nat, maxBins: nat): (merge: nat)
    requires maxBins > 0
    ensures merge > 0
  {
    Max(CeilDiv(bins, maxBins), 1)
  }

  /** What the first `n` bins of a row put in column `j`. */
  function RowInto(row: seq<nat>, merge: nat, j: nat, n: nat): nat
    requires merge > 0 && n <= |row|
  {
    if n == 0 then 0
    else RowInto(row, merge, j, n - 1) + if (n - 1) / merge == j then row[n - 1] else 0
  }

  /** What the first `n` kinds of a slot put in column `j`. */
  function SlotInto(h: Hist, slot: seq<nat>, merge: nat, j: nat, n: nat): nat
    requires merge > 0 && n <= |slot|
  {
    if n == 0 then 0
    else SlotInto(h, slot, merge, j, n - 1) + RowInto(Row(h, slot[n - 1]), merge, j, |Row(h, slot[n - 1])|)
  }

  datatype Chart = Chart(count: nat, binMs: nat, series: seq<seq<nat>>)

  function SlotRow(h: Hist, slot: seq<nat>, merge: nat, columns: nat): seq<nat>
    requires merge > 0
  {
    seq(columns, j requires 0 <= j < columns => SlotInto(h, slot, merge, j, |slot|))
  }

  function Downsampled(h: Hist, slots: seq<seq<nat>>, maxBins: nat): Chart {
    if h.bins == 0 || maxBins == 0 then Chart(0, h.binMs, seq(|slots|, _ => []))
    else
      var merge := MergeOf(h.bins, maxBins);
      var columns := CeilDiv(h.bins, merge);
      Chart(columns, h.binMs * merge,
            seq(|slots|, s requires 0 <= s < |slots| => SlotRow(h, slots[s], merge, columns)))
  }

  lemma ColumnOf(i: nat, bins: nat, merge: nat)
    requires i < bins && merge > 0
    ensures i / merge < CeilDiv(bins, merge)
  {
    CeilDivMeans(bins, merge, CeilDiv(bins, merge));
    if i / merge >= CeilDiv(bins, merge) {
      Times(CeilDiv(bins, merge), i / merge, merge);
    }
  }

  /** No more columns than asked for. */
  lemma ColumnsFit(bins: nat, maxBins: nat)
    requires maxBins > 0 && bins > 0
    ensures 1 <= CeilDiv(bins, MergeOf(bins, maxBins)) <= maxBins
  {
    var merge := MergeOf(bins, maxBins);
    var columns := CeilDiv(bins, merge);
    CeilDivMeans(bins, maxBins, CeilDiv(bins, maxBins));
    CeilDivMeans(bins, merge, columns);
    Times(CeilDiv(bins, maxBins), merge, maxBins);
    assert (columns - 1) * merge < bins <= maxBins * merge;
    if columns > maxBins { Times(maxBins, columns - 1, merge); }
  }

  /** Merging so many bins gives no more columns than asked for exactly when it is
      as many as are merged or more: no fewer would do. */
  lemma MergeIsLeast(bins: nat, maxBins: nat, merge: nat)
    requires maxBins > 0 && bins > 0 && merge > 0
    ensures CeilDiv(bins, merge) <= maxBins <==> merge >= MergeOf(bins, maxBins)
  {
    var least, columns := CeilDiv(bins, maxBins), CeilDiv(bins, merge);
    CeilDivMeans(bins, maxBins, least);
    CeilDivMeans(bins, merge, columns);
    if merge >= least {
      Times(least, merge, maxBins);
      if columns > maxBins { Times(maxBins, columns - 1, merge); }
    } else {
      Times(merge, least - 1, maxBins);
      if columns <= maxBins { Times(columns, maxBins, merge); }
    }
  }

  method Downsample(histogram: C.Histogram, slots: seq<seq<nat>>, maxBins: nat) returns (chart: Chart)
    requires histogram.Valid()
    ensures chart == Downsampled(histogram.Value(), slots, maxBins)
  {
    var bins := histogram.bins;
    if bins == 0 || maxBins == 0 {
      return Chart(0, histogram.binMs, seq(|slots|, _ => []));
    }
    ghost var h := histogram.Value();
    var merge := Max(CeilDiv(bins, maxBins), 1);
    var columns := CeilDiv(bins, merge);
    var series: seq<seq<nat>> := [];
    for s := 0 to |slots|
      invariant |series| == s
      invariant forall t | 0 <= t < s :: series[t] == SlotRow(h, slots[t], merge, columns)
    {
      var cells := Zeros(columns);
      for k := 0 to |slots[s]|
        invariant |cells| == columns
        invariant forall j | 0 <= j < columns :: cells[j] == SlotInto(h, slots[s], merge, j, k)
      {
        cells := AddRow(cells, histogram.Series(slots[s][k]), merge, bins);
      }
      series := series + [cells];
    }
    chart := Chart(columns, histogram.binMs * merge, series);
    assert chart.series == Downsampled(h, slots, maxBins).series;
  }

  /** The innermost loop: one kind's row added to the columns of its slot. */
  method AddRow(cells: seq<nat>, row: seq<nat>, merge: nat, bins: nat) returns (sums: seq<nat>)
    requires merge > 0 && |cells| == CeilDiv(bins, merge) && |row| <= bins
    ensures |sums| == |cells|
    ensures forall j | 0 <= j < |cells| :: sums[j] == cells[j] + RowInto(row, merge, j, |row|)
  {
    sums := cells;
    for i := 0 to |row|
      invariant |sums| == |cells|
      invariant forall j | 0 <= j < |cells| :: sums[j] == cells[j] + RowInto(row, merge, j, i)
    {
      ColumnOf(i, bins, merge);
      var count := row[i];
      if count > 0 {
        sums := sums[i / merge := sums[i / merge] + count];
      }
    }
  }

  // ------------------------------------------------------------- end to end

  /** The recount over the kinds of a slot. */
  function CountSlot(events: seq<Event>, slot: seq<nat>, startMs: nat, binMs: nat, index: nat): nat
    requires binMs > 0
  {
    if slot == [] then 0
    else CountSlot(events, slot[..|slot| - 1], startMs, binMs, index)
         + Count(events, slot[|slot| - 1], startMs, binMs, index)
  }

  function CountRow(events: seq<Event>, kind: nat, startMs: nat, binMs: nat, bins: nat): seq<nat>
    requires binMs > 0
  {
    seq(bins, i requires 0 <= i < bins => Count(events, kind, startMs, binMs, i))
  }

  lemma {:induction false} RowIntoBumped(row: seq<nat>, bumped: seq<nat>, merge: nat, j: nat, at: nat, n: nat)
    requires merge > 0 && n <= |row| == |bumped|
    requires forall i | 0 <= i < |row| :: bumped[i] == row[i] + if i == at then 1 else 0
    ensures RowInto(bumped, merge, j, n) == RowInto(row, merge, j, n) + if at < n && at / merge == j then 1 else 0
  {
    if n > 0 {
      RowIntoBumped(row, bumped, merge, j, at, n - 1);
    }
  }

  lemma {:induction false} RowIntoZeros(row: seq<nat>, merge: nat, j: nat, n: nat)
    requires merge > 0 && n <= |row| && forall i | 0 <= i < |row| :: row[i] == 0
    ensures RowInto(row, merge, j, n) == 0
  {
    if n > 0 {
      RowIntoZeros(row, merge, j, n - 1);
    }
  }

  /** Merging the bins of a recount is the recount with the wider bins. */
  lemma {:induction false} MergedRecount(events: seq<Event>, kind: nat, startMs: nat, binMs: nat, bins: nat,
                                         merge: nat, j: nat)
    requires binMs > 0 && merge > 0
    requires forall i | 0 <= i < |events| :: IndexOf(events[i].at, startMs, binMs) < bins
    ensures binMs * merge > 0
    ensures RowInto(CountRow(events, kind, startMs, binMs, bins), merge, j, bins)
            == Count(events, kind, startMs, binMs * merge, j)
  {
    NestedFloor(0, binMs, merge);
    var row := CountRow(events, kind, startMs, binMs, bins);
    if events == [] {
      RowIntoZeros(row, merge, j, bins);
    } else {
      var front, last := events[..|events| - 1], events[|events| - 1];
      MergedRecount(front, kind, startMs, binMs, bins, merge, j);
      var at := IndexOf(last.at, startMs, binMs);
      if last.at >= startMs { NestedFloor(last.at - startMs, binMs, merge); }
      assert IndexOf(last.at, startMs, binMs * merge) == at / merge;
      RowIntoBumped(CountRow(front, kind, startMs, binMs, bins), row, merge, j,
                    if last.kind == kind then at else bins, bins);
    }
  }

  lemma {:induction false} SlotRecount(h: Hist, events: seq<Event>, slot: seq<nat>, merge: nat, j: nat, n: nat)
    requires Exact(h, events) && InRange(h, events) && KindsKnown(h, events) && merge > 0 && n <= |slot|
    ensures h.binMs * merge > 0
    ensures SlotInto(h, slot, merge, j, n) == CountSlot(events, slot[..n], h.startMs, h.binMs * merge, j)
  {
    NestedFloor(0, h.binMs, merge);
    if n > 0 {
      SlotRecount(h, events, slot, merge, j, n - 1);
      assert slot[..n][..n - 1] == slot[..n - 1];
      var kind := slot[n - 1];
      MergedRecount(events, kind, h.startMs, h.binMs, h.bins, merge, j);
      if kind < |h.series| {
        assert Row(h, kind) == CountRow(events, kind, h.startMs, h.binMs, h.bins);
      } else {
        CountNothing(events, kind, h.startMs, h.binMs * merge, j);
      }
    }
  }

  /** From events to chart: for any number of columns asked for, there are at
      most that many, and each cell is exactly the number of events of its slot's
      kinds whose index, with the chart's wider bins, is that column. */
  lemma ChartIsExact(h: Hist, events: seq<Event>, slots: seq<seq<nat>>, maxBins: nat, s: nat, j: nat)
    requires Sound(h, events) && events != [] && maxBins > 0 && s < |slots|
    ensures var chart := Downsampled(h, slots, maxBins);
            && 1 <= chart.count <= maxBins && chart.binMs > 0 && |chart.series| == |slots|
            && |chart.series[s]| == chart.count
            && (j < chart.count ==> chart.series[s][j] == CountSlot(events, slots[s], h.startMs, chart.binMs, j))
  {
    forall i | 0 <= i < |events| ensures Lo(events) <= events[i].at <= Hi(events) {
      LoHi(events, i);
    }
    FitsInRange(h, events, Lo(events), Hi(events));
    ColumnsFit(h.bins, maxBins);
    var merge := MergeOf(h.bins, maxBins);
    SlotRecount(h, events, slots[s], merge, j, |slots[s]|);
    assert slots[s][..|slots[s]|] == slots[s];
  }

  // ------------------------------------------------------------------- totals

  function OfKinds(events: seq<Event>, kinds: set<nat>): nat {
    if events == [] then 0
    else OfKinds(events[..|events| - 1], kinds) + if events[|events| - 1].kind in kinds then 1 else 0
  }

  function KindsOf(slot: seq<nat>): set<nat> {
    set k | k in slot
  }

  ghost predicate Distinct(slot: seq<nat>) {
    forall i, j | 0 <= i < j < |slot| :: slot[i] != slot[j]
  }

  /** What the rows of a slot's kinds add up to. */
  function SlotSum(h: Hist, slot: seq<nat>): nat {
    if slot == [] then 0 else SlotSum(h, slot[..|slot| - 1]) + SumOf(Row(h, slot[|slot| - 1]))
  }

  function RowColumns(row: seq<nat>, merge: nat, columns: nat, n: nat): seq<nat>
    requires merge > 0 && n <= |row|
  {
    seq(columns, j requires 0 <= j < columns => RowInto(row, merge, j, n))
  }

  lemma {:induction false} SumOfNothing(row: seq<nat>)
    requires forall i | 0 <= i < |row| :: row[i] == 0
    ensures SumOf(row) == 0
  {
    if row != [] {
      SumOfNothing(row[..|row| - 1]);
    }
  }

  lemma {:induction false} SumOfSums(a: seq<nat>, b: seq<nat>, sums: seq<nat>)
    requires |a| == |b| == |sums| && forall j | 0 <= j < |a| :: sums[j] == a[j] + b[j]
    ensures SumOf(sums) == SumOf(a) + SumOf(b)
  {
    if a != [] {
      SumOfSums(a[..|a| - 1], b[..|b| - 1], sums[..|sums| - 1]);
    }
  }

  /** Merging a row's bins loses nothing where every bin has a column. */
  lemma {:induction false} MergingKeepsSum(row: seq<nat>, merge: nat, columns: nat, n: nat)
    requires merge > 0 && n <= |row| && forall i | 0 <= i < n :: i / merge < columns
    ensures SumOf(RowColumns(row, merge, columns, n)) == SumOf(row[..n])
  {
    var after := RowColumns(row, merge, columns, n);
    if n == 0 {
      SumOfNothing(after);
    } else {
      var before, at := RowColumns(row, merge, columns, n - 1), (n - 1) / merge;
      MergingKeepsSum(row, merge, columns, n - 1);
      assert at < columns;
      SumRaised(before, at, row[n - 1]);
      assert after == before[at := before[at] + row[n - 1]];
      assert row[..n][..n - 1] == row[..n - 1];
    }
  }

  lemma {:induction false} SlotKeepsSum(h: Hist, slot: seq<nat>, merge: nat, columns: nat, n: nat)
    requires Rect(h) && merge > 0 && n <= |slot| && forall i | 0 <= i < h.bins :: i / merge < columns
    ensures var cells := seq(columns, j requires 0 <= j < columns => SlotInto(h, slot, merge, j, n));
            SumOf(cells) == SlotSum(h, slot[..n])
  {
    var cells := seq(columns, j requires 0 <= j < columns => SlotInto(h, slot, merge, j, n));
    if n == 0 {
      SumOfNothing(cells);
    } else {
      var row := Row(h, slot[n - 1]);
      SlotKeepsSum(h, slot, merge, columns, n - 1);
      MergingKeepsSum(row, merge, columns, |row|);
      assert row[..|row|] == row;
      SumOfSums(seq(columns, j requires 0 <= j < columns => SlotInto(h, slot, merge, j, n - 1)),
                RowColumns(row, merge, columns, |row|), cells);
      assert slot[..n][..n - 1] == slot[..n - 1];
    }
  }

  lemma {:induction false} OneKind(events: seq<Event>, kind: nat)
    ensures OfKinds(events, {kind}) == OfKind(events, kind)
  {
    if events != [] {
      OneKind(events[..|events| - 1], kind);
    }
  }

  /** Distinct kinds: no event is in two of a slot's rows. */
  lemma {:induction false} SlotSumIsOfKinds(h: Hist, events: seq<Event>, slot: seq<nat>)
    requires Tallied(h, events) && Distinct(slot)
    ensures SlotSum(h, slot) == OfKinds(events, KindsOf(slot))
  {
    if slot == [] {
      NoKinds(events, KindsOf(slot));
    } else {
      var front, last := slot[..|slot| - 1], slot[|slot| - 1];
      SlotSumIsOfKinds(h, events, front);
      assert slot == front + [last] && last !in front;
      assert KindsOf(slot) == KindsOf(front) + {last};
      DisjointKinds(events, KindsOf(front), {last});
      OneKind(events, last);
      if last >= |h.series| {
        NoneOfKind(events, last);
      }
    }
  }

  /** The columns of a slot add up to the events of its kinds, wherever the bins
      of those events are. */
  lemma SlotTotalIsExact(h: Hist, events: seq<Event>, slots: seq<seq<nat>>, maxBins: nat, s: nat)
    requires Tallied(h, events) && maxBins > 0 && s < |slots| && Distinct(slots[s])
    ensures |Downsampled(h, slots, maxBins).series| == |slots|
    ensures SumOf(Downsampled(h, slots, maxBins).series[s]) == OfKinds(events, KindsOf(slots[s]))
  {
    if h.bins > 0 {
      var merge, slot := MergeOf(h.bins, maxBins), slots[s];
      var columns := CeilDiv(h.bins, merge);
      forall i | 0 <= i < h.bins ensures i / merge < columns {
        ColumnOf(i, h.bins, merge);
      }
      SlotKeepsSum(h, slot, merge, columns, |slot|);
      assert slot[..|slot|] == slot;
      assert SlotRow(h, slot, merge, columns)
               == seq(columns, j requires 0 <= j < columns => SlotInto(h, slot, merge, j, |slot|));
      SlotSumIsOfKinds(h, events, slot);
    }
  }

  // -------------------------------------------------------- one slot per group

  /** The kinds of group `g`, given the group of each kind. */
  function GroupSlot(groupOf: seq<nat>, g: nat): (slot: seq<nat>)
    ensures forall k :: k in slot <==> 0 <= k < |groupOf| && groupOf[k] == g
    ensures Distinct(slot)
  {
    if groupOf == [] then []
    else
      var last := |groupOf| - 1;
      var front := GroupSlot(groupOf[..last], g);
      assert forall i | 0 <= i < |front| :: front[i] in front && front[i] < last;
      front + if groupOf[last] == g then [last] else []
  }

  function GroupSlots(groupOf: seq<nat>, groups: nat): seq<seq<nat>> {
    seq(groups, g requires 0 <= g < groups => GroupSlot(groupOf, g))
  }

  function ChartTotal(chart: seq<seq<nat>>): nat {
    if chart == [] then 0 else ChartTotal(chart[..|chart| - 1]) + SumOf(chart[|chart| - 1])
  }

  function KindsBelow(groupOf: seq<nat>, groups: nat): set<nat> {
    set k | 0 <= k < |groupOf| && groupOf[k] < groups
  }

  lemma {:induction false} DisjointKinds(events: seq<Event>, a: set<nat>, b: set<nat>)
    requires a !! b
    ensures OfKinds(events, a + b) == OfKinds(events, a) + OfKinds(events, b)
  {
    if events != [] {
      DisjointKinds(events[..|events| - 1], a, b);
    }
  }

  lemma {:induction false} OneMoreSlot(chart: seq<seq<nat>>, n: nat)
    requires 0 < n <= |chart|
    ensures ChartTotal(chart[..n]) == ChartTotal(chart[..n - 1]) + SumOf(chart[n - 1])
  {
    assert chart[..n][..n - 1] == chart[..n - 1];
  }

  lemma OneMoreGroup(groupOf: seq<nat>, groups: nat, n: nat)
    requires 0 < n <= groups
    ensures KindsBelow(groupOf, n) == KindsBelow(groupOf, n - 1) + KindsOf(GroupSlots(groupOf, groups)[n - 1])
    ensures KindsBelow(groupOf, n - 1) !! KindsOf(GroupSlots(groupOf, groups)[n - 1])
  {
  }

  lemma {:induction false} GroupTotals(series: seq<seq<nat>>, events: seq<Event>, groupOf: seq<nat>, n: nat)
    requires n <= |series|
    requires forall g | 0 <= g < |series| ::
               SumOf(series[g]) == OfKinds(events, KindsOf(GroupSlots(groupOf, |series|)[g]))
    ensures ChartTotal(series[..n]) == OfKinds(events, KindsBelow(groupOf, n))
  {
    if n == 0 {
      NoKinds(events, KindsBelow(groupOf, 0));
    } else {
      GroupTotals(series, events, groupOf, n - 1);
      OneMoreSlot(series, n);
      OneMoreGroup(groupOf, |series|, n);
      DisjointKinds(events, KindsBelow(groupOf, n - 1), KindsOf(GroupSlots(groupOf, |series|)[n - 1]));
    }
  }

  lemma {:induction false} NoKinds(events: seq<Event>, kinds: set<nat>)
    requires kinds == {}
    ensures OfKinds(events, kinds) == 0
  {
    if events != [] {
      NoKinds(events[..|events| - 1], kinds);
    }
  }

  lemma {:induction false} AllKinds(events: seq<Event>, kinds: set<nat>)
    requires forall i | 0 <= i < |events| :: events[i].kind in kinds
    ensures OfKinds(events, kinds) == |events|
  {
    if events != [] {
      AllKinds(events[..|events| - 1], kinds);
    }
  }

  /** For every word size and every run: with one slot per group and every kind in
      a group, the whole chart adds up to the number of events. */
  lemma TimelineLosesNothing(events: seq<Event>, word: nat, groupOf: seq<nat>, groups: nat, maxBins: nat)
    requires word > MAX_BINS && maxBins > 0
    requires forall k | 0 <= k < |groupOf| :: groupOf[k] < groups
    requires forall i | 0 <= i < |events| :: events[i].kind < |groupOf|
    ensures var h := RunAdds(events, word);
            ChartTotal(Downsampled(h, GroupSlots(groupOf, groups), maxBins).series) == |events| == h.total
  {
    var h := RunAdds(events, word);
    RunTallies(events, word);
    var slots := GroupSlots(groupOf, groups);
    var series := Downsampled(h, slots, maxBins).series;
    assert |series| == groups;
    forall g | 0 <= g < groups ensures SumOf(series[g]) == OfKinds(events, KindsOf(slots[g])) {
      SlotTotalIsExact(h, events, slots, maxBins, g);
    }
    GroupTotals(series, events, groupOf, groups);
    AllKinds(events, KindsBelow(groupOf, groups));
    assert series[..groups] == series;
  }
}
