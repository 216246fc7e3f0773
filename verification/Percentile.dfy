/** Reading a percentile back out of a sketch, and the sketch as an object that
    is added to and merged in place. */
module Percentile {
  import opened Basics
  import opened Latency

  function Ceiling(x: real): int {
    if x.Floor as real == x then x.Floor else x.Floor + 1
  }

  function Share(p: real): real {
    if p < 0.0 then 0.0 else if p > 1.0 then 1.0 else p
  }

  function RankAt(x: real): nat {
    if Ceiling(x) < 1 then 1 else Ceiling(x)
  }

  /** The rank, from one, of the sample that percentile `p` asks for. */
  function Rank(count: nat, p: real): nat {
    RankAt(count as real * Share(p))
  }

  lemma RankIsARank(count: nat, p: real)
    requires count > 0
    ensures 1 <= Rank(count, p) <= count
    ensures p <= 0.0 ==> Rank(count, p) == 1
    ensures p >= 1.0 ==> Rank(count, p) == count
  {
    ShareEnds(count as real, p);
    RankAtEnds(count, count as real * Share(p));
  }

  lemma ShareEnds(c: real, p: real)
    requires c >= 0.0
    ensures c * Share(p) <= c
    ensures p <= 0.0 ==> c * Share(p) == 0.0
    ensures p >= 1.0 ==> c * Share(p) == c
  {
    Scaled(c, Share(p), 1.0);
  }

  lemma RankAtEnds(count: nat, x: real)
    requires count > 0 && x <= count as real
    ensures 1 <= RankAt(x) <= count
    ensures x <= 0.0 ==> RankAt(x) == 1
    ensures x == count as real ==> RankAt(x) == count
  {
    CeilingIsMonotone(x, count as real);
    assert (count as real).Floor == count;
    if x <= 0.0 {
      CeilingIsMonotone(x, 0.0);
      assert (0.0).Floor == 0;
    }
  }

  /** The rank is the least, from one, that has the share asked for at or below it. */
  lemma RankIsLeast(count: nat, p: real)
    requires count > 0
    ensures var share, rank := if p < 0.0 then 0.0 else if p > 1.0 then 1.0 else p, Rank(count, p);
            && 1 <= rank <= count && rank as real >= count as real * share
            && (rank == 1 || (rank - 1) as real < count as real * share)
  {
    RankIsARank(count, p);
    CeilingIsLeast(count as real * Share(p));
  }

  lemma CeilingIsLeast(x: real)
    ensures x <= RankAt(x) as real && (RankAt(x) == 1 || (RankAt(x) - 1) as real < x)
  {
    assert Ceiling(x) as real < x + 1.0 && x <= Ceiling(x) as real;
  }

  lemma RankIsMonotone(count: nat, p: real, q: real)
    requires p <= q
    ensures Rank(count, p) <= Rank(count, q)
  {
    var x, y := count as real * Share(p), count as real * Share(q);
    assert x <= y by { Scaled(count as real, Share(p), Share(q)); }
    CeilingIsMonotone(x, y);
  }

  lemma CeilingIsMonotone(x: real, y: real)
    requires x <= y
    ensures Ceiling(x) <= Ceiling(y)
  {
    assert Ceiling(x) as real < x + 1.0 && y <= Ceiling(y) as real;
  }

  lemma Scaled(c: real, a: real, b: real)
    requires c >= 0.0
    ensures a <= b ==> c * a <= c * b
  {
  }

  function Width(index: nat): nat
    requires index < BUCKETS
  {
    var (low, high) := BucketRange(index);
    var end := if high.Some? then high.value else Min(low * 2, U64_MAX);
    if end >= low then end - low else 0
  }

  function Clamped(x: nat, low: nat, high: nat): nat {
    if x < low then low else if x > high then high else x
  }

  /** `position` parts in `n` of a width. */
  function Part(width: nat, position: nat, n: nat): nat
    requires n > 0
  {
    width * position / n
  }

  /** Where in a bucket of `n` samples the one at `position` falls. */
  function Interpolated(index: nat, position: nat, n: nat): nat
    requires index < BUCKETS
  {
    BucketRange(index).0 + Part(Width(index), position, Max(n, 1))
  }

  /** A place among the buckets: so many samples into one of them. */
  datatype Spot = Spot(bucket: nat, position: nat) | Past

  /** Where the running count reaches `rank`, with `seen` samples in the buckets
      before `index`. */
  function Locate(buckets: seq<nat>, rank: nat, index: nat, seen: nat): (spot: Spot)
    requires |buckets| == BUCKETS && index <= BUCKETS && seen < rank
    ensures spot.Spot? ==> index <= spot.bucket < BUCKETS && spot.position <= buckets[spot.bucket]
    decreases |buckets| - index
  {
    if index == BUCKETS then Past
    else if seen + buckets[index] >= rank then Spot(index, rank - seen)
    else Locate(buckets, rank, index + 1, seen + buckets[index])
  }

  function ReadAt(s: Sketch, spot: Spot): nat
    requires |s.buckets| == BUCKETS && (spot.Spot? ==> spot.bucket < BUCKETS)
  {
    match spot
    case Past => s.maxMs
    case Spot(bucket, position) => Clamped(Interpolated(bucket, position, s.buckets[bucket]), s.minMs, s.maxMs)
  }

  function Estimate(s: Sketch, rank: nat): nat
    requires |s.buckets| == BUCKETS && rank > 0
  {
    ReadAt(s, Locate(s.buckets, rank, 0, 0))
  }

  // ---------------------------------------------------------------- accuracy

  ghost predicate Sorted(samples: seq<nat>) {
    forall i, j | 0 <= i <= j < |samples| :: samples[i] <= samples[j]
  }

  /** The bucket of each sample. */
  function BucketsFor(samples: seq<nat>): (buckets: seq<nat>)
    ensures |buckets| == |samples|
  {
    seq(|samples|, i requires 0 <= i < |samples| => BucketOf(samples[i]))
  }

  function Below(values: seq<nat>, bound: nat): (n: nat)
    ensures n <= |values|
  {
    if values == [] then 0
    else Below(values[..|values| - 1], bound) + if values[|values| - 1] < bound then 1 else 0
  }

  lemma {:induction false} BelowSteps(samples: seq<nat>, index: nat)
    ensures Below(BucketsFor(samples), index + 1) == Below(BucketsFor(samples), index) + InBucket(samples, index)
  {
    if samples != [] {
      var front, last := samples[..|samples| - 1], samples[|samples| - 1];
      BelowSteps(front, index);
      var buckets := BucketsFor(samples);
      assert buckets[..|samples| - 1] == BucketsFor(front) && buckets[|samples| - 1] == BucketOf(last);
    }
  }

  lemma {:induction false} BelowEnds(samples: seq<nat>)
    ensures Below(BucketsFor(samples), 0) == 0 && Below(BucketsFor(samples), BUCKETS) == |samples|
  {
    if samples != [] {
      var front, last := samples[..|samples| - 1], samples[|samples| - 1];
      BelowEnds(front);
      var buckets := BucketsFor(samples);
      assert buckets[..|samples| - 1] == BucketsFor(front) && buckets[|samples| - 1] == BucketOf(last);
    }
  }

  /** In order, the values under a bound come first. */
  lemma {:induction false} SmallerComeFirst(values: seq<nat>, bound: nat, k: nat)
    requires Sorted(values) && k < |values|
    ensures values[k] < bound <==> k < Below(values, bound)
  {
    var last := |values| - 1;
    if last > 0 {
      SmallerComeFirst(values[..last], bound, last - 1);
      SmallerComeFirst(values[..last], bound, if k < last then k else 0);
    }
  }

  lemma InterpolatedInBucket(index: nat, position: nat, n: nat)
    requires index < BUCKETS && position <= n
    ensures BucketRange(index).0 <= Interpolated(index, position, n) <= BucketRange(index).0 + Width(index)
  {
    PartAtMost(Width(index), position, Max(n, 1));
  }

  lemma PartAtMost(w: nat, p: nat, n: nat)
    requires n > 0 && p <= n
    ensures Part(w, p, n) <= w
  {
    Times(p, n, w);
    QuotientAtMost(w * p, n, w);
  }

  lemma PartGrows(w: nat, p: nat, q: nat, n: nat)
    requires n > 0 && p <= q
    ensures Part(w, p, n) <= Part(w, q, n)
  {
    Times(p, q, w);
    DivideMonotone(w * p, w * q, n);
  }

  ghost predicate Unsaturated(samples: seq<nat>) {
    forall i | 0 <= i < BUCKETS :: InBucket(samples, i) <= U32_MAX
  }

  function Distance(a: nat, b: nat): nat {
    if a <= b then b - a else a - b
  }

  /** The estimate read from the bucket the sample is in. */
  lemma BucketEstimateIsClose(v: nat, index: nat, position: nat, n: nat, low: nat, high: nat)
    requires v <= U64_MAX && BucketOf(v) == index && position <= n && low <= v <= high
    ensures var estimate := Clamped(Interpolated(index, position, n), low, high);
            low <= estimate <= high && (index < BUCKETS - 1 ==> Distance(estimate, v) <= Width(index))
  {
    BucketsPartition(v, index);
    InterpolatedInBucket(index, position, n);
  }

  /** The bucket in which the running count reaches `rank` is the one the
      sample of that rank fell in. */
  lemma RankFallsIn(samples: seq<nat>, rank: nat, index: nat)
    requires Sorted(samples) && 1 <= rank <= |samples| && forall i | 0 <= i < |samples| :: samples[i] <= U64_MAX
    requires Below(BucketsFor(samples), index) < rank <= Below(BucketsFor(samples), index + 1)
    ensures BucketOf(samples[rank - 1]) == index
  {
    var buckets := BucketsFor(samples);
    forall i, j | 0 <= i <= j < |buckets| ensures buckets[i] <= buckets[j] {
      BucketsAreOrdered(samples[i], samples[j]);
    }
    SmallerComeFirst(buckets, index, rank - 1);
    SmallerComeFirst(buckets, index + 1, rank - 1);
  }

  /** With no bucket overflowed, the place of `rank` is in the bucket of the
      sample of that rank. */
  lemma {:induction false} LocateFinds(buckets: seq<nat>, samples: seq<nat>, rank: nat, index: nat, seen: nat)
    requires |buckets| == BUCKETS && forall i | 0 <= i < BUCKETS :: buckets[i] == InBucket(samples, i)
    requires Sorted(samples) && 1 <= rank <= |samples| && index <= BUCKETS
    requires forall i | 0 <= i < |samples| :: samples[i] <= U64_MAX
    requires seen == Below(BucketsFor(samples), index) < rank
    ensures var spot := Locate(buckets, rank, index, seen);
            spot.Spot? && spot.bucket == BucketOf(samples[rank - 1])
    decreases BUCKETS - index
  {
    if index == BUCKETS {
      BelowEnds(samples);
    } else {
      BelowSteps(samples, index);
      if seen + buckets[index] >= rank {
        RankFallsIn(samples, rank, index);
      } else {
        LocateFinds(buckets, samples, rank, index + 1, seen + buckets[index]);
      }
    }
  }

  /** And its position is what the rank is beyond the samples of lower buckets. */
  lemma {:induction false} LocateCounts(buckets: seq<nat>, samples: seq<nat>, rank: nat, index: nat, seen: nat)
    requires |buckets| == BUCKETS && forall i | 0 <= i < BUCKETS :: buckets[i] == InBucket(samples, i)
    requires index <= BUCKETS && seen == Below(BucketsFor(samples), index) < rank
    ensures var spot := Locate(buckets, rank, index, seen);
            spot.Spot? ==> spot.position + Below(BucketsFor(samples), spot.bucket) == rank && spot.position > 0
    decreases BUCKETS - index
  {
    if index < BUCKETS && seen + buckets[index] < rank {
      BelowSteps(samples, index);
      LocateCounts(buckets, samples, rank, index + 1, seen + buckets[index]);
    }
  }

  /** Within what was observed and, short of the overflow bucket, no further
      from the sample of that rank than its bucket is wide. */
  ghost predicate IsClose(samples: seq<nat>, rank: nat, estimate: nat)
    requires 1 <= rank <= |samples|
  {
    var bucket := BucketOf(samples[rank - 1]);
    && Least(samples) <= estimate <= Greatest(samples)
    && (bucket < BUCKETS - 1 ==> Distance(estimate, samples[rank - 1]) <= Width(bucket))
  }

  /** Samples that `arrived` in any order; `samples` is the same ones sorted. */
  lemma EstimateIsClose(arrived: seq<nat>, samples: seq<nat>, rank: nat)
    requires multiset(arrived) == multiset(samples) && Sorted(samples) && 1 <= rank <= |samples|
    requires Unsaturated(samples) && forall i | 0 <= i < |samples| :: samples[i] <= U64_MAX
    ensures IsClose(samples, rank, Estimate(SketchOf(arrived), rank))
  {
    OrderDoesNotMatter(arrived, samples);
    BelowEnds(samples);
    var s := SketchOf(samples);
    var spot := Locate(s.buckets, rank, 0, 0);
    LocateFinds(s.buckets, samples, rank, 0, 0);
    LeastIsLeast(samples, rank - 1);
    BucketEstimateIsClose(samples[rank - 1], spot.bucket, spot.position, s.buckets[spot.bucket], s.minMs, s.maxMs);
  }

  /** What the sample of rank `position` among the `n` of a bucket reads before it is
      kept within what was observed: as far into the bucket as `position` is into
      `n`, rounded down; so the last one reads the bucket's end. */
  ghost predicate ReadsAs(raw: nat, bucket: nat, position: nat, n: nat) {
    var low := Pow2(bucket) - 1;
    var width := if bucket < BUCKETS - 1 then Pow2(bucket) else low;
    && n > 0 && low <= raw && (raw - low) * n <= width * position < (raw - low + 1) * n
    && (position == n ==> raw == low + width)
  }

  lemma FloorMeans(w: nat, n: nat)
    requires n > 0
    ensures w / n * n <= w < (w / n + 1) * n
    ensures forall m: nat :: w == m * n ==> w / n == m
  {
    DivisionMeans(w, n);
    OneLess(n, w / n + 1);
    forall m: nat | w == m * n ensures w / n == m {
      QuotientIs(w, n, m, 0);
    }
  }

  lemma WidthIs(bucket: nat)
    requires bucket < BUCKETS
    ensures Width(bucket) == if bucket < BUCKETS - 1 then Pow2(bucket) else Pow2(bucket) - 1
  {
    if bucket == BUCKETS - 1 {
      LastBucketIsReachable();
    }
  }

  lemma InterpolatedReadsAs(bucket: nat, position: nat, n: nat)
    requires bucket < BUCKETS && n > 0
    ensures ReadsAs(Interpolated(bucket, position, n), bucket, position, n)
  {
    WidthIs(bucket);
    FloorMeans(Width(bucket) * position, n);
  }

  /** The estimate told from the samples alone: the sample of that rank picks the
      bucket, its place among the samples of the bucket where in it to read, and
      the least and greatest sample how far that may go. */
  lemma EstimateIsToldBySamples(arrived: seq<nat>, samples: seq<nat>, rank: nat) returns (raw: nat)
    requires multiset(arrived) == multiset(samples) && Sorted(samples) && 1 <= rank <= |samples|
    requires Unsaturated(samples) && forall i | 0 <= i < |samples| :: samples[i] <= U64_MAX
    ensures var bucket := BucketOf(samples[rank - 1]);
            var before := Below(BucketsFor(samples), bucket);
            before < rank && ReadsAs(raw, bucket, rank - before, InBucket(samples, bucket))
    ensures Estimate(SketchOf(arrived), rank) == Max(Least(samples), Min(raw, Greatest(samples)))
  {
    OrderDoesNotMatter(arrived, samples);
    raw := SortedRead(samples, rank);
  }

  lemma SortedRead(samples: seq<nat>, rank: nat) returns (raw: nat)
    requires Sorted(samples) && 1 <= rank <= |samples|
    requires Unsaturated(samples) && forall i | 0 <= i < |samples| :: samples[i] <= U64_MAX
    ensures var bucket := BucketOf(samples[rank - 1]);
            var before := Below(BucketsFor(samples), bucket);
            before < rank && ReadsAs(raw, bucket, rank - before, InBucket(samples, bucket))
    ensures Estimate(SketchOf(samples), rank) == Max(Least(samples), Min(raw, Greatest(samples)))
  {
    var s := SketchOf(samples);
    var spot := Locate(s.buckets, rank, 0, 0);
    BelowEnds(samples);
    LocateFinds(s.buckets, samples, rank, 0, 0);
    LocateCounts(s.buckets, samples, rank, 0, 0);
    LeastIsLeast(samples, rank - 1);
    var n := s.buckets[spot.bucket];
    raw := Interpolated(spot.bucket, spot.position, n);
    InterpolatedReadsAs(spot.bucket, spot.position, n);
  }

  lemma {:induction false} PastExactlyWhenShort(buckets: seq<nat>, rank: nat, index: nat, seen: nat)
    requires |buckets| == BUCKETS && index <= BUCKETS && seen < rank
    ensures Locate(buckets, rank, index, seen).Past? <==> seen + Sum(buckets[index..]) < rank
    decreases BUCKETS - index
  {
    if index < BUCKETS {
      var rest := buckets[index + 1..];
      assert buckets[index..] == [buckets[index]] + rest;
      SumConcat([buckets[index]], rest);
      assert Sum([buckets[index]]) == buckets[index];
      if seen + buckets[index] < rank {
        PastExactlyWhenShort(buckets, rank, index + 1, seen + buckets[index]);
      }
    }
  }

  /** Where saturated buckets hold fewer samples than the rank asked for, the
      greatest sample is read. */
  lemma ShortBucketsReadGreatest(s: Sketch, rank: nat)
    requires |s.buckets| == BUCKETS && Sum(s.buckets) < rank
    ensures Estimate(s, rank) == s.maxMs
  {
    assert s.buckets[0..] == s.buckets;
    PastExactlyWhenShort(s.buckets, rank, 0, 0);
  }

  // ------------------------------------------------------------ monotonicity

  ghost predicate NoLater(a: Spot, b: Spot) {
    || b.Past?
    || (a.Spot? && (a.bucket < b.bucket || (a.bucket == b.bucket && a.position <= b.position)))
  }

  lemma {:induction false} LocateIsMonotone(buckets: seq<nat>, rank: nat, higher: nat, index: nat, seen: nat)
    requires |buckets| == BUCKETS && index <= BUCKETS && seen < rank <= higher
    ensures NoLater(Locate(buckets, rank, index, seen), Locate(buckets, higher, index, seen))
    decreases BUCKETS - index
  {
    if index < BUCKETS && seen + buckets[index] < rank {
      LocateIsMonotone(buckets, rank, higher, index + 1, seen + buckets[index]);
    }
  }

  lemma WidthReachesNext(i: nat, j: nat)
    requires i < j < BUCKETS
    ensures BucketRange(i).0 + Width(i) <= BucketRange(j).0
  {
    Pow2Grows(i, i + 1);
    Pow2Grows(i + 1, j);
  }

  lemma ReadAtIsMonotone(s: Sketch, a: Spot, b: Spot)
    requires |s.buckets| == BUCKETS && s.minMs <= s.maxMs && NoLater(a, b)
    requires a.Spot? ==> a.bucket < BUCKETS && a.position <= s.buckets[a.bucket]
    requires b.Spot? ==> b.bucket < BUCKETS && b.position <= s.buckets[b.bucket]
    ensures ReadAt(s, a) <= ReadAt(s, b)
  {
    if b.Spot? {
      if a.bucket == b.bucket {
        PartGrows(Width(a.bucket), a.position, b.position, Max(s.buckets[a.bucket], 1));
      } else {
        InterpolatedInBucket(a.bucket, a.position, s.buckets[a.bucket]);
        InterpolatedInBucket(b.bucket, b.position, s.buckets[b.bucket]);
        WidthReachesNext(a.bucket, b.bucket);
      }
    }
  }

  /** A higher percentile never reads lower, saturated buckets or not. */
  lemma PercentilesAreMonotone(s: Sketch, p: real, q: real)
    requires |s.buckets| == BUCKETS && s.count > 0 && s.minMs <= s.maxMs && p <= q
    ensures Estimate(s, Rank(s.count, p)) <= Estimate(s, Rank(s.count, q))
  {
    RankIsARank(s.count, p);
    RankIsMonotone(s.count, p, q);
    var lower, higher := Rank(s.count, p), Rank(s.count, q);
    LocateIsMonotone(s.buckets, lower, higher, 0, 0);
    ReadAtIsMonotone(s, Locate(s.buckets, lower, 0, 0), Locate(s.buckets, higher, 0, 0));
  }

  // -------------------------------------------------------------- the object

  class Latencies {
    const buckets: array<nat>
    var count: nat
    var totalMs: nat
    var minMs: nat
    var maxMs: nat

    ghost predicate Valid()
      reads this, buckets
    {
      && buckets.Length == BUCKETS
      && (count > 0 ==> minMs <= maxMs)
    }

    ghost function Value(): Sketch
      reads this, buckets
    {
      Sketch(buckets[..], count, totalMs, minMs, maxMs)
    }

    constructor ()
      ensures Valid() && fresh(buckets) && Value() == SketchOf([])
    {
      buckets := new nat[BUCKETS](_ => 0);
      count, totalMs, minMs, maxMs := 0, 0, 0, 0;
    }

    method Add(ms: nat)
      requires Valid()
      modifies this, buckets
      ensures Valid() && Value() == Added(old(Value()), ms)
    {
      var bucket := BucketOf(ms);
      buckets[bucket] := Min(buckets[bucket] + 1, U32_MAX);
      if count == 0 {
        minMs := ms;
      } else {
        minMs := Min(minMs, ms);
      }
      maxMs := Max(maxMs, ms);
      count := count + 1;
      totalMs := Min(totalMs + ms, U64_MAX);
    }

    method Merge(other: Latencies)
      requires Valid() && other.Valid() && other != this && other.buckets != buckets
      modifies this, buckets
      ensures Valid() && Value() == Merged(old(Value()), other.Value())
    {
      if other.count == 0 {
        return;
      }
      ghost var was := buckets[..];
      for i := 0 to BUCKETS
        invariant unchanged(this) && unchanged(other) && unchanged(other.buckets)
        invariant forall j | 0 <= j < BUCKETS ::
          buckets[j] == if j < i then Min(was[j] + other.buckets[j], U32_MAX) else was[j]
      {
        buckets[i] := Min(buckets[i] + other.buckets[i], U32_MAX);
      }
      assert buckets[..] == BucketSums(was, other.buckets[..]);
      minMs := if count == 0 then other.minMs else Min(minMs, other.minMs);
      maxMs := Max(maxMs, other.maxMs);
      count := count + other.count;
      totalMs := Min(totalMs + other.totalMs, U64_MAX);
    }

    method PercentileMs(p: real) returns (estimate: Option<nat>)
      requires Valid()
      ensures estimate == if count == 0 then None else Some(Estimate(Value(), Rank(count, p)))
    {
      if count == 0 {
        return None;
      }
      var target := Rank(count, p);
      ghost var all := buckets[..];
      var seen: nat := 0;
      for index := 0 to BUCKETS
        invariant seen < target
        invariant Locate(all, target, 0, 0) == Locate(all, target, index, seen)
      {
        var before := seen;
        seen := seen + buckets[index];
        if seen >= target {
          var within := Interpolated(index, target - before, buckets[index]);
          return Some(Clamped(within, minMs, maxMs));
        }
      }
      return Some(maxMs);
    }
  }
}
