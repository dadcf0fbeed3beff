/**
 The order in which the partitioner considers samples for elimination:
 largest eta first, then smallest delta, then smallest gamma. Ties beyond
 these three keys are broken here by the lowest sample index.
 */
module Selection {
  import opened Kinship

  /** a is ordered no later than b under (eta descending, delta ascending, gamma ascending). */
  predicate RanksFirst(a: SampleStats, b: SampleStats)
  {
    || a.eta > b.eta
    || (a.eta == b.eta && (a.delta < b.delta || (a.delta == b.delta && a.gamma <= b.gamma)))
  }

  /** Sample k heads the ordering of all samples: it may be the one the partitioner picks. */
  predicate IsSelectable(stats: seq<SampleStats>, k: nat)
  {
    k < |stats| && forall j :: 0 <= j < |stats| ==> RanksFirst(stats[k], stats[j])
  }

  /** Any two samples are comparable, and the order is transitive: sorting by it is well defined. */
  lemma RanksFirstIsTotalPreorder(a: SampleStats, b: SampleStats, c: SampleStats)
    ensures RanksFirst(a, b) || RanksFirst(b, a)
    ensures RanksFirst(a, b) && RanksFirst(b, c) ==> RanksFirst(a, c)
  {
  }

  /** Two selectable samples agree on all three keys, so the choice among them is a pure tie-break. */
  lemma SelectableAreTied(stats: seq<SampleStats>, j: nat, k: nat)
    requires IsSelectable(stats, j) && IsSelectable(stats, k)
    ensures stats[j].eta == stats[k].eta
    ensures stats[j].delta == stats[k].delta
    ensures stats[j].gamma == stats[k].gamma
  {
    assert RanksFirst(stats[j], stats[k]) && RanksFirst(stats[k], stats[j]);
  }

  /**
   The head of the ordering. The result has maximal eta over all samples, then
   minimal delta among those, then minimal gamma among those; among equal keys
   it is the lowest index.
   */
  method SelectSample(stats: seq<SampleStats>) returns (k: nat)
    requires |stats| > 0
    ensures IsSelectable(stats, k)
    ensures forall j :: 0 <= j < k ==> !IsSelectable(stats, j)
  {
    k := 0;
    var i := 1;
    while i < |stats|
      invariant 0 <= k < i <= |stats|
      invariant forall j :: 0 <= j < i ==> RanksFirst(stats[k], stats[j])
      invariant forall j :: 0 <= j < k ==> !RanksFirst(stats[j], stats[k])
    {
      if !RanksFirst(stats[k], stats[i]) {
        k := i;
      }
      i := i + 1;
    }
  }
}
