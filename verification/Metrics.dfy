/**
 Latency samples and their percentiles (common/Metrics.cpp:12-44).
 */
module Metrics {
  import opened Cyclic
  import opened OrderStatistics

  /** The rank of percentile `p` among `n` samples, split so that 64 bits suffice. */
  function Rank(n: nat, p: nat): nat {
    (n / 100) * p + ((n % 100) * p + 99) / 100
  }

  function Clamped(p: int): (r: nat)
    ensures r <= 100
  {
    if p < 0 then 0 else if p > 100 then 100 else p
  }

  /** The split formula is the rounded-up share, and stays in range. */
  lemma RankIsCeiling(n: nat, p: nat)
    requires p <= 100
    ensures Rank(n, p) == (p * n + 99) / 100
    ensures 100 * (Rank(n, p) - 1) < p * n <= 100 * Rank(n, p)
    ensures Rank(n, p) <= n && (p > 0 && n > 0 ==> Rank(n, p) > 0) && Rank(n, 100) == n
  {
    var q, r := n / 100, n % 100;
    Products(q, r, p);
    Share(p, n);
  }

  lemma Products(q: nat, r: nat, p: nat)
    ensures p * (100 * q + r) == 100 * (q * p) + r * p
  {
  }

  lemma Share(p: nat, n: nat)
    requires p <= 100
    ensures 0 <= p * n <= 100 * n
    ensures p > 0 && n > 0 ==> p * n > 0
  {
  }

  function Index(n: nat, p: int): (i: nat)
    requires n > 0
    ensures i < n
  {
    RankIsCeiling(n, Clamped(p));
    var rank := Rank(n, Clamped(p));
    if rank == 0 then 0 else rank - 1
  }

  /** The nearest-rank percentile; 0 when there are no samples. */
  function Percentile(samples: seq<int>, p: int): int {
    if samples == [] then 0 else Sorted(samples)[Index(|samples|, p)]
  }

  /** What the answer means: fewer samples are below it than the rank, and at least as many as the rank at or below. */
  lemma PercentileIs(samples: seq<int>, p: int, v: int)
    requires samples != []
    ensures var c, n := if p < 0 then 0 else if p > 100 then 100 else p, |samples|;
      Percentile(samples, p) == v <==>
        if c == 0 then Below(samples, v) == 0 < Below(samples, v + 1)
        else 100 * Below(samples, v) < c * n <= 100 * Below(samples, v + 1)
  {
    hide Rank;
    var c, n := Clamped(p), |samples|;
    RankIsCeiling(n, c);
    KthIs(samples, Index(n, p), v);
    if c == 0 { ZeroRank(n); }
  }

  lemma ZeroRank(n: nat)
    ensures Rank(n, 0) == 0
  {
  }

  lemma PercentileIsMonotone(samples: seq<int>, p: int, q: int)
    requires p <= q
    ensures Percentile(samples, p) <= Percentile(samples, q)
  {
    hide Rank, Sorted;
    if samples != [] {
      RankIsCeiling(|samples|, Clamped(p));
      RankIsCeiling(|samples|, Clamped(q));
      Ordered(Clamped(p), Clamped(q), |samples|);
      SortedAscends(samples);
    }
  }

  lemma Ordered(p: nat, q: nat, n: nat)
    requires p <= q
    ensures p * n <= q * n
  {
  }

  /** The largest sample; 0 when there are none. */
  function Largest(samples: seq<int>): int {
    if samples == [] then 0
    else
      var before := Largest(samples[..|samples| - 1]);
      if samples[|samples| - 1] > before then samples[|samples| - 1] else before
  }

  lemma {:induction false} LargestByCount(samples: seq<int>)
    requires forall i :: 0 <= i < |samples| ==> samples[i] >= 0
    ensures Below(samples, Largest(samples) + 1) == |samples|
    ensures samples != [] ==> Below(samples, Largest(samples)) < |samples|
    ensures Largest(samples) >= 0
  {
    if samples != [] {
      var init, x := samples[..|samples| - 1], samples[|samples| - 1];
      LargestByCount(init);
      BelowIsMonotone(init, Largest(init) + 1, Largest(samples) + 1);
      if x <= Largest(init) && init != [] { BelowIsMonotone(init, Largest(init), Largest(init)); }
    }
  }

  /** The 100th percentile is the largest sample. */
  lemma TopIsLargest(samples: seq<int>)
    requires forall i :: 0 <= i < |samples| ==> samples[i] >= 0
    ensures Percentile(samples, 100) == Largest(samples)
  {
    hide Rank, Sorted, Below, Largest;
    if samples == [] {
      NoneIsZero();
    } else {
      var n := |samples|;
      RankIsCeiling(n, 100);
      assert Index(n, 100) == n - 1;
      LargestByCount(samples);
      KthIs(samples, n - 1, Largest(samples));
    }
  }

  lemma NoneIsZero()
    ensures Largest([]) == 0
  {
  }

  lemma OneMore(samples: seq<int>, x: int, d: int)
    ensures Below(samples + [x], d) == Below(samples, d) + if x < d then 1 else 0
    ensures Largest(samples + [x]) == if x > Largest(samples) then x else Largest(samples)
  {
    assert (samples + [x])[..|samples|] == samples;
  }

  class LatencyRecorder {
    var samples: seq<int>
    var max: u32
    ghost var added: seq<int>  // the samples in the order they came

    /** `samples` is `added`, in some order. */
    ghost predicate Valid()
      reads this
    {
      && |samples| == |added| && (forall d :: Below(samples, d) == Below(added, d))
      && max == Largest(added) && forall i :: 0 <= i < |added| ==> 0 <= added[i] < 0x1_0000_0000
    }

    constructor ()
      ensures Valid() && added == []
    {
      samples, max, added := [], 0, [];
    }

    method Add(sampleMs: u32)
      requires Valid()
      modifies this
      ensures Valid() && added == old(added) + [sampleMs]
    {
      forall d
        ensures Below(samples + [sampleMs], d) == Below(added + [sampleMs], d)
      {
        OneMore(samples, sampleMs, d);
        OneMore(added, sampleMs, d);
      }
      OneMore(added, sampleMs, 0);
      hide Below, Largest;
      samples := samples + [sampleMs];
      if sampleMs > max { max := sampleMs; }
      added := added + [sampleMs];
    }

    method Count() returns (n: nat)
      requires Valid()
      ensures n == |added|
    {
      n := |samples|;
    }

    /** Sorts in place; the answer is that of the samples as they came, whatever was sorted before. */
    method PercentileMs(p: int) returns (ms: int)
      requires Valid()
      modifies this
      ensures Valid() && added == old(added)
      ensures ms == Percentile(added, p)
      ensures p == 100 ==> ms == max
    {
      hide Rank, Sorted, Below, Largest;
      if samples == [] {
        TopIsLargest(added);
        return 0;
      }
      var percentile := Clamped(p);
      SortingKeepsCounts(samples);
      SameCountsSortAlike(samples, added);
      samples := Sorted(samples);
      var count := |samples|;
      RankIsCeiling(count, percentile);
      var rank := Rank(count, percentile);
      var index := if rank == 0 then 0 else rank - 1;
      ms := samples[index];
      TopIsLargest(added);
    }

    method Max() returns (ms: u32)
      requires Valid()
      ensures ms == Largest(added)
    {
      ms := max;
    }

    method Reset()
      modifies this
      ensures Valid() && added == []
    {
      samples, max, added := [], 0, [];
    }
  }

  lemma SortingKeepsCounts(s: seq<int>)
    ensures forall d :: Below(Sorted(s), d) == Below(s, d)
  {
    forall d {
      BelowSorted(s, d);
    }
  }
}
