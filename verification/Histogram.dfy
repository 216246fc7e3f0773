/** A histogram of events over a time range that is not known in advance: bins
    are merged in pairs, and the range grown backwards, as timestamps arrive. */
module Histogram {
  import opened Basics

  const MAX_BINS := 4096
  const MIN_BIN_MS := 100

  datatype Event = Event(at: nat, kind: nat)

  datatype Hist = Hist(startMs: nat, binMs: nat, bins: nat, series: seq<seq<nat>>, total: nat)

  const BLANK := Hist(0, MIN_BIN_MS, 0, [], 0)

  /** All rows have the width that `bins` says. */
  ghost predicate Rect(h: Hist) {
    h.binMs > 0 && forall k | 0 <= k < |h.series| :: |h.series[k]| == h.bins
  }

  function CeilDiv(a: nat, b: nat): nat
    requires b > 0
  {
    (a + b - 1) / b
  }

  // -------------------------------------------------------------- operations

  function Zeros(n: nat): seq<nat> {
    seq(n, _ => 0)
  }

  function WithKind(h: Hist, kind: nat): Hist {
    if kind < |h.series| then h
    else h.(series := h.series + seq(kind + 1 - |h.series|, _ => Zeros(h.bins)))
  }

  function Widened(row: seq<nat>, bins: nat): seq<nat> {
    if |row| >= bins then row[..bins] else row + Zeros(bins - |row|)
  }

  function SetBins(h: Hist, bins: nat): Hist {
    h.(bins := bins, series := seq(|h.series|, k requires 0 <= k < |h.series| => Widened(h.series[k], bins)))
  }

  function PairSums(row: seq<nat>): seq<nat> {
    seq(CeilDiv(|row|, 2), i requires 0 <= i < CeilDiv(|row|, 2) =>
      row[2 * i] + if 2 * i + 1 < |row| then row[2 * i + 1] else 0)
  }

  /** Halve the resolution; the start stays put. */
  function Coarsen(h: Hist): Hist {
    Hist(h.startMs, 2 * h.binMs, CeilDiv(h.bins, 2),
         seq(|h.series|, k requires 0 <= k < |h.series| => PairSums(h.series[k])), h.total)
  }

  function Prepend(h: Hist, extra: nat): Hist
    requires extra * h.binMs <= h.startMs
  {
    h.(startMs := h.startMs - extra * h.binMs, bins := h.bins + extra,
       series := seq(|h.series|, k requires 0 <= k < |h.series| => Zeros(extra) + h.series[k]))
  }

  lemma CoarsenKeepsRect(h: Hist)
    requires Rect(h)
    ensures Rect(Coarsen(h)) && |Coarsen(h).series| == |h.series|
  {
  }

  lemma PrependKeepsRect(h: Hist, extra: nat)
    requires Rect(h) && extra * h.binMs <= h.startMs
    ensures Rect(Prepend(h, extra)) && |Prepend(h, extra).series| == |h.series|
  {
    assert |Zeros(extra)| == extra;
  }

  /** Whole bins to grow backwards by to reach `at`. */
  function Wanted(h: Hist, at: nat): nat
    requires at < h.startMs && h.binMs > 0
  {
    CeilDiv(h.startMs - at, h.binMs)
  }

  /** The shift back, which never takes the start past zero. */
  function Extra(h: Hist, at: nat): (extra: nat)
    requires at < h.startMs && h.binMs > 0
    ensures extra * h.binMs <= h.startMs
  {
    Min(Wanted(h, at), h.startMs / h.binMs)
  }

  lemma HalfAsManyWanted(h: Hist, at: nat)
    requires at < h.startMs && h.binMs > 0
    ensures Wanted(Coarsen(h), at) == CeilDiv(Wanted(h, at), 2)
    ensures Wanted(h, at) >= 1
  {
    var d, b := h.startMs - at, h.binMs;
    var w := CeilDiv(d, b);
    CeilDivMeans(d, b, w);
    var u := CeilDiv(w, 2);
    HalfTheBins(d, b, w, u);
    CeilDivMeans(d, 2 * b, u);
  }

  lemma HalfTheBins(d: nat, b: nat, w: nat, u: nat)
    requires (w - 1) * b < d <= w * b && (w == 2 * u || w == 2 * u - 1)
    ensures (u - 1) * (2 * b) < d <= u * (2 * b)
  {
    assert (u - 1) * (2 * b) == (2 * u - 2) * b;
    assert u * (2 * b) == (2 * u) * b;
    Times(w, 2 * u, b);
    Times(2 * u - 2, w - 1, b);
  }

  /** The least number of `b`s that cover `a`. */
  lemma CeilDivMeans(a: nat, b: nat, q: nat)
    requires b > 0
    ensures CeilDiv(a, b) == q <==> (q - 1) * b < a <= q * b
  {
    DivisionMeans(a + b - 1, b);
    LeastCover(a, b, CeilDiv(a, b), (a + b - 1) % b, q);
  }

  lemma LeastCover(a: nat, b: nat, c: nat, r: nat, q: nat)
    requires b > 0 && a + b - 1 == c * b + r && r < b
    ensures c == q <==> (q - 1) * b < a <= q * b
  {
    OneLess(b, c);
    OneLess(b, q);
    if q < c {
      Times(q, c - 1, b);
    }
    if q > c {
      Times(c, q - 1, b);
    }
  }

  function Backward(h: Hist, at: nat): Hist
    requires at < h.startMs && h.binMs > 0 && h.bins > 0
    decreases h.bins + Wanted(h, at)
  {
    if h.bins + Wanted(h, at) <= MAX_BINS then
      if Extra(h, at) > 0 then Prepend(h, Extra(h, at)) else h
    else
      HalfAsManyWanted(h, at);
      Backward(Coarsen(h), at)
  }

  function Bump(h: Hist, kind: nat, index: nat): Hist
    requires kind < |h.series| && index < |h.series[kind]|
  {
    h.(series := h.series[kind := h.series[kind][index := h.series[kind][index] + 1]])
  }

  /** The bin of `at` before it is cut to the platform's word. */
  function Quotient(h: Hist, at: nat): nat
    requires h.startMs <= at && h.binMs > 0
  {
    (at - h.startMs) / h.binMs
  }

  /** The bin number of `at` as it is looked at: cut to a machine word, of
      `word` values. */
  function Index(h: Hist, at: nat, word: nat): nat
    requires h.startMs <= at && h.binMs > 0 && word > MAX_BINS
  {
    Quotient(h, at) % word
  }

  /** Coarsened until the bin number names a bin there could be. */
  function Settled(h: Hist, at: nat, word: nat): (s: Hist)
    requires h.startMs <= at && h.binMs > 0 && word > MAX_BINS
    ensures s.startMs == h.startMs && s.binMs > 0 && |s.series| == |h.series| && s.total == h.total
    ensures Index(s, at, word) < s.bins || Index(s, at, word) < MAX_BINS
    decreases Quotient(h, at)
  {
    if Index(h, at, word) < h.bins || Index(h, at, word) < MAX_BINS then h
    else
      HalfTheQuotient(h, at);
      AtLeastItsRemainder(Quotient(h, at), word);
      Settled(Coarsen(h), at, word)
  }

  function Grown(h: Hist, index: nat): Hist {
    if index < h.bins then h else SetBins(h, index + 1)
  }

  /** Count at or after the start. */
  function Forward(h: Hist, at: nat, kind: nat, word: nat): Hist
    requires Rect(h) && h.startMs <= at && kind < |h.series| && word > MAX_BINS
  {
    var s := Settled(h, at, word);
    SettledKeepsRect(h, at, word);
    GrownKeepsRect(s, Index(s, at, word));
    Bump(Grown(s, Index(s, at, word)), kind, Index(s, at, word))
  }

  lemma GrownKeepsRect(h: Hist, index: nat)
    requires Rect(h)
    ensures Rect(Grown(h, index)) && index < Grown(h, index).bins
  {
  }

  lemma {:induction false} SettledKeepsRect(h: Hist, at: nat, word: nat)
    requires Rect(h) && h.startMs <= at && word > MAX_BINS
    ensures Rect(Settled(h, at, word))
    decreases Quotient(h, at)
  {
    if Index(h, at, word) >= h.bins && Index(h, at, word) >= MAX_BINS {
      UnsettledCoarsens(h, at, word);
      CoarsenKeepsRect(h);
      SettledKeepsRect(Coarsen(h), at, word);
    }
  }

  /** Coarsening brings the bin number down while it names no bin there could be. */
  lemma UnsettledCoarsens(h: Hist, at: nat, word: nat)
    requires h.startMs <= at && h.binMs > 0 && word > MAX_BINS
    requires Index(h, at, word) >= h.bins && Index(h, at, word) >= MAX_BINS
    ensures Quotient(Coarsen(h), at) == Quotient(h, at) / 2 < Quotient(h, at) && Quotient(h, at) >= MAX_BINS
    ensures Settled(h, at, word) == Settled(Coarsen(h), at, word)
  {
    HalfTheQuotient(h, at);
    AtLeastItsRemainder(Quotient(h, at), word);
  }

  lemma HalfTheQuotient(h: Hist, at: nat)
    requires h.startMs <= at && h.binMs > 0
    ensures Quotient(Coarsen(h), at) == Quotient(h, at) / 2
  {
    NestedFloor(at - h.startMs, h.binMs, 2);
  }

  /** Dividing by `b` and then by `m` is dividing by `b * m`. */
  lemma NestedFloor(a: nat, b: nat, m: nat)
    requires b > 0 && m > 0
    ensures b * m > 0
    ensures a / (b * m) == a / b / m
  {
    DivisionMeans(a, b);
    DivisionMeans(a / b, m);
    Regrouped(a, b, m, a / b, a % b, a / b / m, a / b % m);
    QuotientIs(a, b * m, a / b / m, (a / b % m) * b + a % b);
  }

  lemma Regrouped(a: nat, b: nat, m: nat, q: nat, r: nat, p: nat, s: nat)
    requires a == q * b + r && r < b && q == p * m + s && s < m
    ensures b * m > 0 && a == p * (b * m) + (s * b + r) && s * b + r < b * m
  {
    Distributed(p, m, s, b);
    Times(s, m - 1, b);
    OneLess(b, m);
  }

  lemma Distributed(p: nat, m: nat, s: nat, b: nat)
    ensures (p * m + s) * b == p * (b * m) + s * b
    ensures m * b == b * m
  {
  }

  function Anchored(h: Hist, at: nat): Hist
    requires h.binMs > 0
  {
    if h.bins == 0 then SetBins(h.(startMs := at - at % h.binMs), 1) else h
  }

  function Reaching(h: Hist, at: nat): Hist
    requires h.binMs > 0 && h.bins > 0
  {
    if at < h.startMs then Backward(h, at) else h
  }

  function Counted(h: Hist, event: Event, word: nat): Hist
    requires Rect(h) && h.bins > 0 && event.kind < |h.series| && word > MAX_BINS
  {
    if event.at < h.startMs then Bump(h, event.kind, 0) else Forward(h, event.at, event.kind, word)
  }

  function Add(h: Hist, event: Event, word: nat): Hist
    requires Rect(h) && word > MAX_BINS
  {
    var anchored := Anchored(WithKind(h.(total := h.total + 1), event.kind), event.at);
    BackwardKeepsRect(anchored, event.at);
    Counted(Reaching(anchored, event.at), event, word)
  }

  lemma {:induction false} BackwardKeepsRect(h: Hist, at: nat)
    requires Rect(h) && h.bins > 0
    ensures var r := Reaching(h, at);
            Rect(r) && r.bins > 0 && |r.series| == |h.series|
    decreases if at < h.startMs then h.bins + Wanted(h, at) else 0
  {
    if at < h.startMs {
      if h.bins + Wanted(h, at) > MAX_BINS {
        HalfAsManyWanted(h, at);
        CoarsenKeepsRect(h);
        BackwardKeepsRect(Coarsen(h), at);
      } else {
        PrependKeepsRect(h, Extra(h, at));
      }
    }
  }

  lemma AddKeepsRect(h: Hist, event: Event, word: nat)
    requires Rect(h) && word > MAX_BINS
    ensures Rect(Add(h, event, word))
  {
    var anchored := Anchored(WithKind(h.(total := h.total + 1), event.kind), event.at);
    BackwardKeepsRect(anchored, event.at);
    var r := Reaching(anchored, event.at);
    if event.at >= r.startMs {
      SettledKeepsRect(r, event.at, word);
      var s := Settled(r, event.at, word);
      GrownKeepsRect(s, Index(s, event.at, word));
    }
  }

  /** The histogram after any adds. */
  function RunAdds(events: seq<Event>, word: nat): (h: Hist)
    requires word > MAX_BINS
    ensures Rect(h)
  {
    if events == [] then BLANK
    else
      var before := RunAdds(events[..|events| - 1], word);
      AddKeepsRect(before, events[|events| - 1], word);
      Add(before, events[|events| - 1], word)
  }
}
