/** The sketch kept of a set of samples: thirty-two bucket counts whose ranges
    double, how many samples, their sum, least and greatest. */
module Latency {
  import opened Basics

  const BUCKETS := 32

  // ----------------------------------------------------------------- buckets

  /** The integer part of the base-two logarithm. */
  function Log2(n: nat): nat
    requires n > 0
  {
    if n == 1 then 0 else Log2(n / 2) + 1
  }

  lemma {:induction false} LogBounds(n: nat)
    requires n > 0
    ensures Pow2(Log2(n)) <= n < Pow2(Log2(n) + 1)
  {
    if n > 1 {
      LogBounds(n / 2);
    }
  }

  function BucketOf(ms: nat): (bucket: nat)
    ensures bucket < BUCKETS
  {
    Min(Log2(Min(ms + 1, U64_MAX)), BUCKETS - 1)
  }

  /** The milliseconds a bucket covers, from the first to just before the
      second; the last bucket has no end. */
  function BucketRange(index: nat): (nat, Option<nat>)
    requires index < BUCKETS
  {
    (Pow2(index) - 1, if index == BUCKETS - 1 then None else Some(Pow2(index + 1) - 1))
  }

  lemma {:induction false} Pow2Grows(a: nat, b: nat)
    requires a <= b
    ensures Pow2(a) <= Pow2(b)
    ensures a < b ==> 2 * Pow2(a) <= Pow2(b)
    decreases b
  {
    if a < b {
      Pow2Grows(a, b - 1);
    }
  }

  lemma LastBucketIsReachable()
    ensures Pow2(BUCKETS) < U64_MAX
  {
    assert Pow2(8) == 0x100;
    assert Pow2(16) == 0x1_0000;
    assert Pow2(24) == 0x100_0000;
    assert Pow2(32) == 0x1_0000_0000;
  }

  /** Two powers of two either side of `n` leave it only one logarithm. */
  lemma LogIsUnique(n: nat, k: nat)
    requires n > 0
    ensures Log2(n) >= k <==> Pow2(k) <= n
  {
    LogBounds(n);
    if Log2(n) < k {
      Pow2Grows(Log2(n) + 1, k);
    } else {
      Pow2Grows(k, Log2(n));
    }
  }

  /** The buckets partition the 64-bit milliseconds: `ms` is put in bucket `i`
      exactly when it lies in that bucket's range, the saturating increment at
      the very top included. */
  lemma BucketsPartition(ms: nat, i: nat)
    requires ms <= U64_MAX && i < BUCKETS
    ensures var range := BucketRange(i);
            BucketOf(ms) == i <==> range.0 <= ms && (range.1.Some? ==> ms < range.1.value)
  {
    var n := Min(ms + 1, U64_MAX);
    LastBucketIsReachable();
    Pow2Grows(i, BUCKETS);
    Pow2Grows(i + 1, BUCKETS);
    LogIsUnique(n, i);
    LogIsUnique(n, i + 1);
    LogIsUnique(n, BUCKETS - 1);
  }

  lemma BucketsAreOrdered(a: nat, b: nat)
    requires a <= b <= U64_MAX
    ensures BucketOf(a) <= BucketOf(b)
  {
    LogBounds(Min(a + 1, U64_MAX));
    LogIsUnique(Min(b + 1, U64_MAX), Log2(Min(a + 1, U64_MAX)));
  }

  // ------------------------------------------------------------------ sketch

  /** The value of a distribution, as its owner reads it. */
  datatype Sketch = Sketch(buckets: seq<nat>, count: nat, totalMs: nat, minMs: nat, maxMs: nat)

  function Empty(): Sketch {
    Sketch(seq(BUCKETS, _ => 0), 0, 0, 0, 0)
  }

  function Bumped(buckets: seq<nat>, bucket: nat): seq<nat> {
    if bucket < |buckets| then buckets[bucket := Min(buckets[bucket] + 1, U32_MAX)] else buckets
  }

  function Added(s: Sketch, ms: nat): Sketch {
    Sketch(
      Bumped(s.buckets, BucketOf(ms)),
      s.count + 1,
      Min(s.totalMs + ms, U64_MAX),
      if s.count == 0 then ms else Min(s.minMs, ms),
      Max(s.maxMs, ms))
  }

  function BucketSums(a: seq<nat>, b: seq<nat>): seq<nat> {
    var n := Min(|a|, |b|);
    seq(n, i requires 0 <= i < n => Min(a[i] + b[i], U32_MAX))
  }

  function Merged(s: Sketch, other: Sketch): Sketch {
    if other.count == 0 then s
    else Sketch(
      BucketSums(s.buckets, other.buckets),
      s.count + other.count,
      Min(s.totalMs + other.totalMs, U64_MAX),
      if s.count == 0 then other.minMs else Min(s.minMs, other.minMs),
      Max(s.maxMs, other.maxMs))
  }

  // What a sketch ought to be, told from the samples alone.

  function InBucket(samples: seq<nat>, bucket: nat): nat {
    if samples == [] then 0
    else InBucket(samples[..|samples| - 1], bucket) + if BucketOf(samples[|samples| - 1]) == bucket then 1 else 0
  }

  function Sum(samples: seq<nat>): nat {
    if samples == [] then 0 else Sum(samples[..|samples| - 1]) + samples[|samples| - 1]
  }

  function Least(samples: seq<nat>): nat {
    if samples == [] then 0
    else if |samples| == 1 then samples[0]
    else Min(Least(samples[..|samples| - 1]), samples[|samples| - 1])
  }

  function Greatest(samples: seq<nat>): nat {
    if samples == [] then 0 else Max(Greatest(samples[..|samples| - 1]), samples[|samples| - 1])
  }

  function BucketsOf(samples: seq<nat>): (buckets: seq<nat>)
    ensures |buckets| == BUCKETS
  {
    seq(BUCKETS, i requires 0 <= i < BUCKETS => Min(InBucket(samples, i), U32_MAX))
  }

  function SketchOf(samples: seq<nat>): Sketch {
    Sketch(BucketsOf(samples), |samples|, Min(Sum(samples), U64_MAX), Least(samples), Greatest(samples))
  }

  lemma {:induction false} LeastIsLeast(samples: seq<nat>, i: nat)
    requires i < |samples|
    ensures Least(samples) <= samples[i] <= Greatest(samples)
    ensures Least(samples) in samples && Greatest(samples) in samples
  {
    var front := samples[..|samples| - 1];
    assert samples == front + [samples[|samples| - 1]];
    if |samples| > 1 {
      LeastIsLeast(front, if i < |front| then i else 0);
    }
  }

  /** Adding a sample to the sketch of some gives the sketch of them all, the
      saturated buckets and total included. */
  lemma AddedIsSketch(samples: seq<nat>, ms: nat)
    ensures Added(SketchOf(samples), ms) == SketchOf(samples + [ms])
  {
    assert (samples + [ms])[..|samples|] == samples;
    assert forall i | 0 <= i < BUCKETS ::
             Added(SketchOf(samples), ms).buckets[i] == SketchOf(samples + [ms]).buckets[i];
  }

  /** The sketch a distribution has after the samples were added one by one. */
  function Gathered(samples: seq<nat>): Sketch {
    if samples == [] then Empty() else Added(Gathered(samples[..|samples| - 1]), samples[|samples| - 1])
  }

  /** Adding one by one gives the sketch told from the samples alone. */
  lemma {:induction false} GatheredIsSketch(samples: seq<nat>)
    ensures Gathered(samples) == SketchOf(samples)
  {
    if samples == [] {
      assert BucketsOf([]) == Empty().buckets;
    } else {
      GatheredIsSketch(samples[..|samples| - 1]);
      AddedIsSketch(samples[..|samples| - 1], samples[|samples| - 1]);
      assert samples == samples[..|samples| - 1] + [samples[|samples| - 1]];
    }
  }

  lemma {:induction false} InBucketConcat(a: seq<nat>, b: seq<nat>, bucket: nat)
    ensures InBucket(a + b, bucket) == InBucket(a, bucket) + InBucket(b, bucket)
  {
    if b == [] {
      assert a + b == a;
    } else {
      InBucketConcat(a, b[..|b| - 1], bucket);
      assert (a + b)[..|a + b| - 1] == a + b[..|b| - 1];
    }
  }

  lemma {:induction false} SumConcat(a: seq<nat>, b: seq<nat>)
    ensures Sum(a + b) == Sum(a) + Sum(b)
  {
    if b == [] {
      assert a + b == a;
    } else {
      SumConcat(a, b[..|b| - 1]);
      assert (a + b)[..|a + b| - 1] == a + b[..|b| - 1];
    }
  }

  lemma {:induction false} ExtremesConcat(a: seq<nat>, b: seq<nat>)
    ensures Least(a + b) == if a == [] then Least(b) else if b == [] then Least(a) else Min(Least(a), Least(b))
    ensures Greatest(a + b) == Max(Greatest(a), Greatest(b))
  {
    if b == [] {
      assert a + b == a;
    } else {
      var front := b[..|b| - 1];
      ExtremesConcat(a, front);
      assert (a + b)[..|a + b| - 1] == a + front;
      if a == [] { assert a + b == b; }
      if front == [] { assert a + front == a; }
    }
  }

  /** Merging two sketches is exactly the sketch of the concatenated samples. */
  lemma MergedIsSketch(a: seq<nat>, b: seq<nat>)
    ensures Merged(SketchOf(a), SketchOf(b)) == SketchOf(a + b)
  {
    SumConcat(a, b);
    ExtremesConcat(a, b);
    if b == [] {
      assert a + b == a;
    } else {
      MergedBuckets(a, b);
    }
  }

  lemma MergedBuckets(a: seq<nat>, b: seq<nat>)
    ensures BucketSums(BucketsOf(a), BucketsOf(b)) == BucketsOf(a + b)
  {
    forall i | 0 <= i < BUCKETS ensures BucketSums(BucketsOf(a), BucketsOf(b))[i] == BucketsOf(a + b)[i] {
      InBucketConcat(a, b, i);
    }
  }

  lemma {:induction false} ExchangedTotals(a: seq<nat>, b: seq<nat>)
    ensures Sum(a + b) == Sum(b + a) && Least(a + b) == Least(b + a) && Greatest(a + b) == Greatest(b + a)
  {
    SumConcat(a, b);
    SumConcat(b, a);
    ExtremesConcat(a, b);
    ExtremesConcat(b, a);
  }

  lemma {:induction false} ExchangedBuckets(a: seq<nat>, b: seq<nat>)
    ensures BucketsOf(a + b) == BucketsOf(b + a)
  {
    forall i | 0 <= i < BUCKETS ensures BucketsOf(a + b)[i] == BucketsOf(b + a)[i] {
      InBucketConcat(a, b, i);
      InBucketConcat(b, a, i);
    }
  }

  /** Exchanging two runs of samples changes nothing. */
  lemma {:induction false} Exchanged(a: seq<nat>, b: seq<nat>)
    ensures SketchOf(a + b) == SketchOf(b + a)
  {
    ExchangedTotals(a, b);
    ExchangedBuckets(a, b);
  }

  /** Only which samples there are matters, not the order they came in. */
  lemma {:induction false} OrderDoesNotMatter(a: seq<nat>, b: seq<nat>)
    requires multiset(a) == multiset(b)
    ensures SketchOf(a) == SketchOf(b)
  {
    if a == [] {
      assert |multiset(b)| == 0;
    } else {
      var l, r := TakeOut(a, b);
      OrderDoesNotMatter(a[1..], r + l);
      SamePrefix([a[0]], a[1..], r + l);
      assert a == [a[0]] + a[1..];
      assert [a[0]] + (r + l) == ([a[0]] + r) + l;
      Exchanged(l, [a[0]] + r);
    }
  }

  lemma TakeOut(a: seq<nat>, b: seq<nat>) returns (l: seq<nat>, r: seq<nat>)
    requires a != [] && multiset(a) == multiset(b)
    ensures b == l + ([a[0]] + r)
    ensures multiset(a[1..]) == multiset(r + l)
  {
    assert a[0] in multiset(b);
    var j :| 0 <= j < |b| && b[j] == a[0];
    l, r := b[..j], b[j + 1..];
    assert a == [a[0]] + a[1..];
    assert b == l + ([a[0]] + r);
    SameRest(a[0], a[1..], l, r);
  }

  lemma SamePrefix(x: seq<nat>, a: seq<nat>, b: seq<nat>)
    requires SketchOf(a) == SketchOf(b)
    ensures SketchOf(x + a) == SketchOf(x + b)
  {
    MergedIsSketch(x, a);
    MergedIsSketch(x, b);
  }

  lemma SameRest(x: nat, rest: seq<nat>, l: seq<nat>, r: seq<nat>)
    requires multiset([x] + rest) == multiset(l + ([x] + r))
    ensures multiset(rest) == multiset(r + l)
  {
    forall y ensures multiset(rest)[y] == multiset(r + l)[y] {
      assert multiset([x] + rest)[y] == multiset([x])[y] + multiset(rest)[y];
      assert multiset(l + ([x] + r))[y] == multiset(l)[y] + (multiset([x])[y] + multiset(r)[y]);
    }
  }
}
