/**
 The PC-AiR greedy partition of samples into an unrelated and a related set.

 The state carries one SampleStats record per sample and the two membership
 sets. The loop repeatedly picks the head of the (eta, delta, gamma) ordering,
 stops when its eta is not positive, and otherwise moves it from the unrelated
 set to the related set and lowers the eta of every sample it is related to.
 */
module Partition {
  import opened Kinship
  import opened Selection

  datatype State = State(stats: seq<SampleStats>, unrelated: set<nat>, related: set<nat>)

  /** The result of partitioning: the two sets, or the failure to pick a sample from an empty cohort. */
  datatype Outcome =
    | Partitioned(unrelated: set<nat>, related: set<nat>)
    | NoSamples

  /** unrelated and related are disjoint and together cover the n samples. */
  predicate IsPartition(n: nat, unrelated: set<nat>, related: set<nat>)
  {
    unrelated * related == {} && unrelated + related == Samples(n)
  }

  /** No two distinct samples of `pool` are related, in either orientation. */
  predicate InternallyUnrelated(phi: Phi, t: Thresholds, pool: set<nat>)
  {
    forall r, c :: r in pool && c in pool && r != c ==> !IsRelated(phi, t, r, c)
  }

  /** Some other sample among the n is related to s. */
  predicate HasRelative(phi: Phi, t: Thresholds, n: nat, s: nat)
  {
    exists r :: 0 <= r < n && r != s && IsRelated(phi, t, r, s)
  }

  /** Some sample of `pool` among the n, other than s, is related to s. */
  predicate HasRelativeIn(phi: Phi, t: Thresholds, n: nat, pool: set<nat>, s: nat)
  {
    exists r :: 0 <= r < n && r in pool && r != s && IsRelated(phi, t, r, s)
  }

  /** The j-th removed sample had a relative that had not been removed before or with it. */
  predicate RemovedWithRelative(phi: Phi, t: Thresholds, n: nat, order: seq<nat>, j: nat)
    requires j < |order|
  {
    exists r :: 0 <= r < n && r !in order[..j + 1] && IsRelated(phi, t, r, order[j])
  }

  /**
   `order` lists the related samples once each, in the order the loop removed
   them, and each was removed while a relative of it was still unrelated.
   */
  predicate IsEliminationOrder(phi: Phi, t: Thresholds, n: nat, order: seq<nat>, related: set<nat>)
  {
    && (forall x :: x in related ==> x in order)
    && (forall x :: x in order ==> x in related)
    && (forall i, j :: 0 <= i < j < |order| ==> order[i] != order[j])
    && (forall j :: 0 <= j < |order| ==> RemovedWithRelative(phi, t, n, order, j))
  }

  /**
   The loop invariant on eta: an unrelated sample's eta counts its relatives
   still in the unrelated set, and a related sample's eta is never positive.
   */
  predicate EtaTracksUnrelated(phi: Phi, t: Thresholds, st: State)
  {
    && (forall i :: i in st.unrelated ==>
          i < |st.stats| && st.stats[i].eta == CountRelatives(phi, t, st.unrelated, i, |st.stats|))
    && (forall i :: i in st.related && i < |st.stats| ==> st.stats[i].eta <= 0)
  }

  /** A reachable state of the partitioner over n samples. */
  predicate Valid(phi: Phi, t: Thresholds, n: nat, st: State)
  {
    && |st.stats| == n
    && IsPartition(n, st.unrelated, st.related)
    && EtaTracksUnrelated(phi, t, st)
  }

  /** The statistics of column c, aggregated over every row of the cohort. */
  method ColumnStats(phi: Phi, t: Thresholds, n: nat, c: nat) returns (s: SampleStats)
    ensures IsInitialStats(phi, t, n, c, s)
    ensures s.eta == |Relatives(phi, t, Samples(n), c)|
    ensures s.delta == |Divergents(phi, t, Samples(n), c)|
  {
    SamplesAreIndices(n);
    var eta: nat := 0;
    var delta: nat := 0;
    var gamma: real := 0.0;
    var r := 0;
    while r < n
      invariant r <= n
      invariant eta == CountRelatives(phi, t, Samples(n), c, r)
      invariant delta == CountDivergents(phi, t, Samples(n), c, r)
      invariant gamma == RelatedKinshipSum(phi, t, Samples(n), c, r)
    {
      if r != c && IsRelated(phi, t, r, c) {
        eta := eta + 1;
        gamma := gamma + phi(r, c);
      }
      if r != c && IsDivergent(phi, t, r, c) {
        delta := delta + 1;
      }
      r := r + 1;
    }
    s := SampleStats(eta, delta, gamma);
    InitialStatsAreCounts(phi, t, n, c, s);
  }

  /** Every sample starts unrelated, with its statistics taken over the whole cohort. */
  method InitialState(phi: Phi, t: Thresholds, n: nat) returns (init: State)
    ensures Valid(phi, t, n, init)
    ensures init.unrelated == Samples(n) && init.related == {}
    ensures forall i :: 0 <= i < n ==> IsInitialStats(phi, t, n, i, init.stats[i])
  {
    var stats: seq<SampleStats> := [];
    var c := 0;
    while c < n
      invariant c <= n && |stats| == c
      invariant forall i :: 0 <= i < c ==> IsInitialStats(phi, t, n, i, stats[i])
    {
      var s := ColumnStats(phi, t, n, c);
      stats := stats + [s];
      c := c + 1;
    }
    SamplesAreIndices(n);
    init := State(stats, Samples(n), {});
  }

  /**
   One round of elimination of the selected sample s, whose eta is positive.
   s must still be unrelated; it alone moves to the related set, its eta
   becomes 0, every other column's eta drops by one exactly when s is related
   to it, delta and gamma stay as they were, and the eta invariant holds for
   the smaller unrelated set.
   */
  method Eliminate(phi: Phi, t: Thresholds, n: nat, st: State, s: nat) returns (next: State)
    requires Valid(phi, t, n, st)
    requires s < n && st.stats[s].eta > 0
    ensures s in st.unrelated && HasRelativeIn(phi, t, n, st.unrelated, s)
    ensures next.unrelated == st.unrelated - {s} && next.related == st.related + {s}
    ensures |next.unrelated| == |st.unrelated| - 1
    ensures Valid(phi, t, n, next)
    ensures next.stats[s].eta == 0
    ensures forall i :: 0 <= i < n && i != s ==>
              next.stats[i].eta == st.stats[i].eta - (if IsRelated(phi, t, s, i) then 1 else 0)
    ensures forall i :: 0 <= i < n ==>
              next.stats[i].delta == st.stats[i].delta && next.stats[i].gamma == st.stats[i].gamma
  {
    PositiveEtaHasRelative(phi, t, n, st, s);

    var stats := LowerRelatedEta(phi, t, st.stats, s);
    stats := stats[s := stats[s].(eta := 0)];
    next := State(stats, st.unrelated - {s}, st.related + {s});

    EliminationKeepsEtaTracking(phi, t, n, st, s, next);
  }

  /**
   The decrement pass of one round: every column c with phi(s, c) above the
   threshold loses one from its eta, whatever its membership; nothing else changes.
   */
  method LowerRelatedEta(phi: Phi, t: Thresholds, stats: seq<SampleStats>, s: nat) returns (lowered: seq<SampleStats>)
    ensures |lowered| == |stats|
    ensures forall i :: 0 <= i < |stats| ==>
              lowered[i] == stats[i].(eta := stats[i].eta - (if IsRelated(phi, t, s, i) then 1 else 0))
  {
    lowered := stats;
    var c := 0;
    while c < |stats|
      invariant c <= |stats| && |lowered| == |stats|
      invariant forall i :: 0 <= i < |stats| ==>
                  lowered[i] == stats[i].(eta := stats[i].eta - (if i < c && IsRelated(phi, t, s, i) then 1 else 0))
    {
      if IsRelated(phi, t, s, c) {
        lowered := lowered[c := lowered[c].(eta := lowered[c].eta - 1)];
      }
      c := c + 1;
    }
  }

  /** A sample with positive eta is still unrelated and has a relative among the unrelated samples. */
  lemma PositiveEtaHasRelative(phi: Phi, t: Thresholds, n: nat, st: State, s: nat)
    requires Valid(phi, t, n, st)
    requires s < n && st.stats[s].eta > 0
    ensures s in st.unrelated && HasRelativeIn(phi, t, n, st.unrelated, s)
  {
    assert s in Samples(n) by {
      SamplesAreIndices(n);
    }
    assert s in st.unrelated;
    CountRelativesPositive(phi, t, st.unrelated, s, n);
  }

  /**
   The eta update of one round keeps the eta invariant for the unrelated set
   without the eliminated sample.
   */
  lemma EliminationKeepsEtaTracking(phi: Phi, t: Thresholds, n: nat, st: State, s: nat, next: State)
    requires Valid(phi, t, n, st)
    requires s in st.unrelated && |next.stats| == n
    requires next.unrelated == st.unrelated - {s} && next.related == st.related + {s}
    requires next.stats[s].eta == 0
    requires forall i :: 0 <= i < n && i != s ==>
               next.stats[i].eta == st.stats[i].eta - (if IsRelated(phi, t, s, i) then 1 else 0)
    ensures Valid(phi, t, n, next)
  {
    assert IsPartition(n, next.unrelated, next.related);
    forall i | i in next.unrelated
      ensures i < n && next.stats[i].eta == CountRelatives(phi, t, next.unrelated, i, n)
    {
      assert i in st.unrelated && i != s;
      CountRelativesShrink(phi, t, st.unrelated, s, i, n);
    }
    forall i | i in next.related && i < n
      ensures next.stats[i].eta <= 0
    {
      if i != s {
        assert i in st.related;
      }
    }
  }

  /**
   Removing a still-unrelated sample s that has a relative among the
   unrelated samples extends the elimination order by s.
   */
  lemma ExtendOrder(phi: Phi, t: Thresholds, n: nat, order: seq<nat>, unrelated: set<nat>, related: set<nat>, s: nat)
    requires IsEliminationOrder(phi, t, n, order, related)
    requires unrelated * related == {}
    requires s in unrelated && HasRelativeIn(phi, t, n, unrelated, s)
    ensures IsEliminationOrder(phi, t, n, order + [s], related + {s})
  {
    var extended := order + [s];
    forall j | 0 <= j < |order|
      ensures RemovedWithRelative(phi, t, n, extended, j)
    {
      assert RemovedWithRelative(phi, t, n, order, j);
      var r :| 0 <= r < n && r !in order[..j + 1] && IsRelated(phi, t, r, order[j]);
      assert extended[..j + 1] == order[..j + 1] && extended[j] == order[j];
    }
    assert s !in unrelated * related;
    forall i, j | 0 <= i < j < |extended|
      ensures extended[i] != extended[j]
    {
      if j == |order| {
        assert extended[i] == order[i] && order[i] in order;
      }
    }
    var r :| 0 <= r < n && r in unrelated && r != s && IsRelated(phi, t, r, s);
    assert r !in unrelated * related;
    assert r !in related && r !in order;
    assert extended[..|order| + 1] == extended && extended[|order|] == s && r !in extended;
    assert RemovedWithRelative(phi, t, n, extended, |order|);
  }

  /**
   The eta invariant at the stopping point: if the head of the ordering has
   eta <= 0, every unrelated sample has no relative left in the unrelated set.
   */
  lemma SettledIsInternallyUnrelated(phi: Phi, t: Thresholds, n: nat, st: State, k: nat)
    requires Valid(phi, t, n, st)
    requires IsSelectable(st.stats, k) && st.stats[k].eta <= 0
    ensures InternallyUnrelated(phi, t, st.unrelated)
  {
    forall r, c | r in st.unrelated && c in st.unrelated && r != c
      ensures !IsRelated(phi, t, r, c)
    {
      assert RanksFirst(st.stats[k], st.stats[c]);
      CountRelativesPositive(phi, t, st.unrelated, c, n);
    }
  }

  /**
   Only samples with a relative are ever moved, so a cohort without any
   related pair keeps every sample in the unrelated set.
   */
  lemma NoRelatedPairKeepsAll(phi: Phi, t: Thresholds, n: nat, unrelated: set<nat>, related: set<nat>)
    requires IsPartition(n, unrelated, related)
    requires forall s :: s in related ==> HasRelative(phi, t, n, s)
    ensures InternallyUnrelated(phi, t, Samples(n)) ==> unrelated == Samples(n) && related == {}
  {
    SamplesAreIndices(n);
  }

  /**
   The partitioner. On a non-empty cohort the result is a partition whose
   unrelated set has no related pair, and a cohort without any related pair
   comes back whole. The ghost `order` lists the related samples as they were
   removed, at most n of them: each one had a relative still in the unrelated
   set at its removal.
   */
  method PartitionSamples(phi: Phi, t: Thresholds, n: nat) returns (out: Outcome, ghost order: seq<nat>)
    ensures n == 0 <==> out == NoSamples
    ensures out.Partitioned? ==> IsPartition(n, out.unrelated, out.related)
    ensures out.Partitioned? ==> InternallyUnrelated(phi, t, out.unrelated)
    ensures out.Partitioned? ==> forall s :: s in out.related ==> HasRelative(phi, t, n, s)
    ensures out.Partitioned? && InternallyUnrelated(phi, t, Samples(n)) ==>
              out.unrelated == Samples(n) && out.related == {}
    ensures out.Partitioned? ==> IsEliminationOrder(phi, t, n, order, out.related)
    ensures |order| <= n
  {
    var st := InitialState(phi, t, n);
    SamplesAreIndices(n);
    ghost var initial := st.stats;
    order := [];
    if n == 0 {
      return NoSamples, order;
    }
    while true
      invariant Valid(phi, t, n, st)
      invariant IsEliminationOrder(phi, t, n, order, st.related)
      invariant |order| == |st.related| == n - |st.unrelated|
      invariant forall s :: s in st.related ==> HasRelative(phi, t, n, s)
      invariant forall i :: 0 <= i < n ==>
                  st.stats[i].delta == initial[i].delta && st.stats[i].gamma == initial[i].gamma
      decreases |st.unrelated|
    {
      var k := SelectSample(st.stats);
      if st.stats[k].eta <= 0 {
        SettledIsInternallyUnrelated(phi, t, n, st, k);
        NoRelatedPairKeepsAll(phi, t, n, st.unrelated, st.related);
        return Partitioned(st.unrelated, st.related), order;
      }
      var next := Eliminate(phi, t, n, st, k);
      ExtendOrder(phi, t, n, order, st.unrelated, st.related, k);
      order := order + [k];
      st := next;
    }
  }

  /** Within the n samples, the only related ordered pairs are (a, b) and (b, a). */
  predicate IsLonePair(phi: Phi, t: Thresholds, n: nat, a: nat, b: nat)
  {
    && a < n && b < n && a != b
    && (IsRelated(phi, t, a, b) || IsRelated(phi, t, b, a))
    && forall r, c :: 0 <= r < n && 0 <= c < n && r != c && IsRelated(phi, t, r, c) ==>
         (r == a && c == b) || (r == b && c == a)
  }

  /**
   In a lone-pair cohort, when one member of the pair is removed the other one
   has not been removed yet: it is the only relative that can justify the removal.
   */
  lemma PartnerNotYetRemoved(phi: Phi, t: Thresholds, n: nat, a: nat, b: nat, order: seq<nat>, j: nat)
    requires IsLonePair(phi, t, n, a, b) && j < |order|
    requires IsEliminationOrder(phi, t, n, order, set x | x in order)
    requires order[j] == a || order[j] == b
    ensures forall k :: 0 <= k <= j ==> order[k] != (if order[j] == a then b else a)
  {
    assert RemovedWithRelative(phi, t, n, order, j);
    var r :| 0 <= r < n && r !in order[..j + 1] && IsRelated(phi, t, r, order[j]);
    assert order[..j + 1][j] == order[j];
    forall k | 0 <= k <= j
      ensures order[k] != r
    {
      assert order[..j + 1][k] == order[k];
    }
  }

  /**
   A cohort whose only related samples are one pair a, b (in either
   orientation) loses exactly one of the two: the one removed second would
   have had no unrelated relative left.
   */
  lemma LonePairLosesOne(phi: Phi, t: Thresholds, n: nat, a: nat, b: nat,
                         unrelated: set<nat>, related: set<nat>, order: seq<nat>)
    requires IsPartition(n, unrelated, related) && InternallyUnrelated(phi, t, unrelated)
    requires IsEliminationOrder(phi, t, n, order, related)
    requires IsLonePair(phi, t, n, a, b)
    ensures related == {a} || related == {b}
  {
    SamplesAreIndices(n);
    assert related == set x | x in order;
    forall x | x in related
      ensures x == a || x == b
    {
      var j :| 0 <= j < |order| && order[j] == x;
      assert RemovedWithRelative(phi, t, n, order, j);
      var r :| 0 <= r < n && r !in order[..j + 1] && IsRelated(phi, t, r, x);
      assert order[..j + 1][j] == x;
    }
    if a in related && b in related {
      var i :| 0 <= i < |order| && order[i] == a;
      var j :| 0 <= j < |order| && order[j] == b;
      if i < j {
        PartnerNotYetRemoved(phi, t, n, a, b, order, j);
        assert false;
      } else {
        PartnerNotYetRemoved(phi, t, n, a, b, order, i);
        assert false;
      }
    }
    if a !in related && b !in related {
      assert false;
    }
  }
}
