/**
 Pairwise kinship and the per-sample statistics PC-AiR derives from it.

 Samples are the indices 0..n-1. The kinship estimator is outside this model:
 it is a total function `phi` from an ordered (row, column) pair of samples to
 a real coefficient, with the diagonal present and no symmetry assumed.
 */
module Kinship {

  /** Kinship coefficient of row sample r against column sample c. */
  type Phi = (nat, nat) -> real

  /** The relatedness and divergence thresholds, fixed for one partitioning. */
  datatype Thresholds = Thresholds(relatedness: real, divergence: real)

  /** The defaults of the partitioner's keyword arguments, kept for reference: every member takes the thresholds as a parameter. */
  const DefaultThresholds: Thresholds := Thresholds(0.025, 0.025)

  /** Per-sample statistics: relatives still unrelated, divergent others, summed kinship to relatives. */
  datatype SampleStats = SampleStats(eta: int, delta: nat, gamma: real)

  /** The n sample indices of the cohort. */
  function Samples(n: nat): set<nat>
  {
    if n == 0 then {} else Samples(n - 1) + {n - 1}
  }

  /** The samples are exactly the indices below n, and there are n of them. */
  lemma {:induction false} SamplesAreIndices(n: nat)
    ensures forall i: int :: i in Samples(n) <==> 0 <= i < n
    ensures |Samples(n)| == n
  {
    if n > 0 {
      SamplesAreIndices(n - 1);
    }
  }

  /** Row r is related to column c: their kinship exceeds the relatedness threshold. */
  predicate IsRelated(phi: Phi, t: Thresholds, r: nat, c: nat)
  {
    phi(r, c) > t.relatedness
  }

  /** Row r is ancestrally divergent from column c. */
  predicate IsDivergent(phi: Phi, t: Thresholds, r: nat, c: nat)
  {
    phi(r, c) < t.relatedness && phi(r, c) < -t.divergence
  }

  /** The rows of `pool`, other than c itself, related to column c. */
  function Relatives(phi: Phi, t: Thresholds, pool: set<nat>, c: nat): set<nat>
  {
    set r | r in pool && r != c && IsRelated(phi, t, r, c)
  }

  /** The rows of `pool`, other than c itself, divergent from column c. */
  function Divergents(phi: Phi, t: Thresholds, pool: set<nat>, c: nat): set<nat>
  {
    set r | r in pool && r != c && IsDivergent(phi, t, r, c)
  }

  /**
   The number of rows r < k of `pool`, other than c itself, related to
   column c. With the whole cohort as pool this is the initial eta; with the
   unrelated set as pool it is the eta the partitioner maintains.
   */
  function CountRelatives(phi: Phi, t: Thresholds, pool: set<nat>, c: nat, k: nat): nat
  {
    if k == 0 then 0
    else CountRelatives(phi, t, pool, c, k - 1)
         + (if k - 1 in pool && k - 1 != c && IsRelated(phi, t, k - 1, c) then 1 else 0)
  }

  /** The number of rows r < k of `pool`, other than c itself, divergent from column c. */
  function CountDivergents(phi: Phi, t: Thresholds, pool: set<nat>, c: nat, k: nat): nat
  {
    if k == 0 then 0
    else CountDivergents(phi, t, pool, c, k - 1)
         + (if k - 1 in pool && k - 1 != c && IsDivergent(phi, t, k - 1, c) then 1 else 0)
  }

  /** Sum of phi(r, c) over the rows r < k of `pool`, other than c itself, related to column c. */
  function RelatedKinshipSum(phi: Phi, t: Thresholds, pool: set<nat>, c: nat, k: nat): real
  {
    if k == 0 then 0.0
    else RelatedKinshipSum(phi, t, pool, c, k - 1)
         + (if k - 1 in pool && k - 1 != c && IsRelated(phi, t, k - 1, c) then phi(k - 1, c) else 0.0)
  }

  /** The statistics column c starts with, aggregated over every row of the cohort of n samples. */
  predicate IsInitialStats(phi: Phi, t: Thresholds, n: nat, c: nat, s: SampleStats)
  {
    && s.eta == CountRelatives(phi, t, Samples(n), c, n)
    && s.delta == CountDivergents(phi, t, Samples(n), c, n)
    && s.gamma == RelatedKinshipSum(phi, t, Samples(n), c, n)
  }

  /** The counts look only at rows below k: pools that agree there give the same counts. */
  lemma {:induction false} CountsIgnoreRowsAbove(phi: Phi, t: Thresholds, pool: set<nat>, other: set<nat>, c: nat, k: nat)
    requires forall r :: r < k ==> (r in pool <==> r in other)
    ensures CountRelatives(phi, t, pool, c, k) == CountRelatives(phi, t, other, c, k)
    ensures CountDivergents(phi, t, pool, c, k) == CountDivergents(phi, t, other, c, k)
  {
    if k > 0 {
      CountsIgnoreRowsAbove(phi, t, pool, other, c, k - 1);
    }
  }

  /** For a pool of rows below k, the running related count is the size of the pool's relative set. */
  lemma {:induction false} CountRelativesIsCardinality(phi: Phi, t: Thresholds, pool: set<nat>, c: nat, k: nat)
    requires forall r :: r in pool ==> r < k
    ensures CountRelatives(phi, t, pool, c, k) == |Relatives(phi, t, pool, c)|
  {
    if k == 0 {
      assert Relatives(phi, t, pool, c) == {};
    } else {
      var j := k - 1;
      var lower := pool - {j};
      assert forall r :: r in lower ==> r < j;
      CountRelativesIsCardinality(phi, t, lower, c, j);
      CountsIgnoreRowsAbove(phi, t, pool, lower, c, j);
      var before := Relatives(phi, t, lower, c);
      var after := Relatives(phi, t, pool, c);
      if j in pool && j != c && IsRelated(phi, t, j, c) {
        assert j in after && after - {j} == before;
      } else {
        assert after == before;
      }
    }
  }

  /** For a pool of rows below k, the running divergent count is the size of the pool's divergent set. */
  lemma {:induction false} CountDivergentsIsCardinality(phi: Phi, t: Thresholds, pool: set<nat>, c: nat, k: nat)
    requires forall r :: r in pool ==> r < k
    ensures CountDivergents(phi, t, pool, c, k) == |Divergents(phi, t, pool, c)|
  {
    if k == 0 {
      assert Divergents(phi, t, pool, c) == {};
    } else {
      var j := k - 1;
      var lower := pool - {j};
      assert forall r :: r in lower ==> r < j;
      CountDivergentsIsCardinality(phi, t, lower, c, j);
      CountsIgnoreRowsAbove(phi, t, pool, lower, c, j);
      var before := Divergents(phi, t, lower, c);
      var after := Divergents(phi, t, pool, c);
      if j in pool && j != c && IsDivergent(phi, t, j, c) {
        assert j in after && after - {j} == before;
      } else {
        assert after == before;
      }
    }
  }

  /**
   The initial eta and delta of a sample are the numbers of other samples of
   the cohort related to it and divergent from it.
   */
  lemma InitialStatsAreCounts(phi: Phi, t: Thresholds, n: nat, c: nat, s: SampleStats)
    requires IsInitialStats(phi, t, n, c, s)
    ensures s.eta == |Relatives(phi, t, Samples(n), c)|
    ensures s.delta == |Divergents(phi, t, Samples(n), c)|
  {
    SamplesAreIndices(n);
    CountRelativesIsCardinality(phi, t, Samples(n), c, n);
    CountDivergentsIsCardinality(phi, t, Samples(n), c, n);
  }

  /** The count is positive exactly when some row r < k of the pool, other than c, is related to c. */
  lemma {:induction false} CountRelativesPositive(phi: Phi, t: Thresholds, pool: set<nat>, c: nat, k: nat)
    ensures CountRelatives(phi, t, pool, c, k) > 0 <==>
              exists r :: 0 <= r < k && r in pool && r != c && IsRelated(phi, t, r, c)
  {
    if k > 0 {
      CountRelativesPositive(phi, t, pool, c, k - 1);
      if k - 1 in pool && k - 1 != c && IsRelated(phi, t, k - 1, c) {
        assert CountRelatives(phi, t, pool, c, k) > 0;
      }
    }
  }

  /**
   Removing a row s below k from the pool lowers the count of every other
   column c by one exactly when s is related to c.
   */
  lemma {:induction false} CountRelativesShrink(phi: Phi, t: Thresholds, pool: set<nat>, s: nat, c: nat, k: nat)
    requires s in pool && s != c
    ensures CountRelatives(phi, t, pool - {s}, c, k)
            == CountRelatives(phi, t, pool, c, k) - (if s < k && IsRelated(phi, t, s, c) then 1 else 0)
  {
    if k > 0 {
      CountRelativesShrink(phi, t, pool, s, c, k - 1);
    }
  }

  /** x added to itself `count` times; the linear stand-in for count * x. */
  function Times(count: nat, x: real): real
  {
    if count == 0 then 0.0 else Times(count - 1, x) + x
  }

  /** Times is multiplication of reals. */
  lemma {:induction false} TimesIsProduct(count: nat, x: real)
    ensures Times(count, x) == count as real * x
  {
    if count > 0 {
      TimesIsProduct(count - 1, x);
      assert count as real * x == (count - 1) as real * x + x;
    }
  }

  /** A sum of `count` terms, each above `threshold`: zero when empty, above count * threshold otherwise. */
  predicate SumExceedsThreshold(sum: real, count: nat, threshold: real)
  {
    && (count == 0 ==> sum == 0.0)
    && (count > 0 ==> sum > Times(count, threshold))
  }

  /**
   gamma is tied to eta: every related row adds more than the threshold, so
   the sum exceeds count * threshold when there is any relative and is
   exactly zero when there is none.
   */
  lemma {:induction false} RelatedKinshipSumBounds(phi: Phi, t: Thresholds, pool: set<nat>, c: nat, k: nat)
    ensures SumExceedsThreshold(RelatedKinshipSum(phi, t, pool, c, k), CountRelatives(phi, t, pool, c, k), t.relatedness)
  {
    if k > 0 {
      var j := k - 1;
      RelatedKinshipSumBounds(phi, t, pool, c, j);
      if j in pool && j != c && IsRelated(phi, t, j, c) {
        AddTerm(RelatedKinshipSum(phi, t, pool, c, j), CountRelatives(phi, t, pool, c, j), phi(j, c), t.relatedness);
      }
    }
  }

  /** One more term above the threshold keeps a sum of such terms above count * threshold. */
  lemma AddTerm(sum: real, count: nat, term: real, threshold: real)
    requires SumExceedsThreshold(sum, count, threshold)
    requires term > threshold
    ensures SumExceedsThreshold(sum + term, count + 1, threshold)
  {
  }

  /** The initial gamma of a sample with relatives exceeds eta times the relatedness threshold. */
  lemma InitialGammaBound(phi: Phi, t: Thresholds, n: nat, c: nat, s: SampleStats)
    requires IsInitialStats(phi, t, n, c, s)
    ensures s.eta == 0 ==> s.gamma == 0.0
    ensures s.eta > 0 ==> s.gamma > s.eta as real * t.relatedness
  {
    RelatedKinshipSumBounds(phi, t, Samples(n), c, n);
    TimesIsProduct(s.eta, t.relatedness);
  }
}
