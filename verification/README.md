# PC-AiR sample partitioning in Dafny

This project models `_partition_samples` from Hail's PC-AiR implementation
(`hail/python/hail/methods/relatedness/pc_air.py`). The function splits a
cohort into an **unrelated** set and a **related** set using pairwise kinship
coefficients. The model follows the code's greedy elimination loop.

- **Kinship** (`kinship.dfy`). Samples are the indices `0..n-1`. The kinship
  matrix produced by `king` is a total function `phi: (nat, nat) -> real`. Its
  diagonal is present and it is not assumed symmetric. Row `r` is *related*
  to column `c` when `phi(r, c) > relatedness`. It is *divergent* from `c`
  when `phi(r, c) < relatedness` and `phi(r, c) < -divergence`. Each column
  gets a `SampleStats(eta, delta, gamma)` record:
  - `eta` counts the related rows other than `c`;
  - `delta` counts the divergent rows other than `c`;
  - `gamma` sums `phi(r, c)` over the related rows other than `c`.
- **Selection** (`selection.dfy`). This is the `order_by(desc(eta), delta, gamma)`
  ordering and the pick of its head. Ties on all three keys go to the
  lowest index.
- **Partition** (`partition.dfy`). This holds the initial state, one
  elimination round, and the loop itself. The loop stops when the head's
  `eta` is `<= 0`. Otherwise it moves the head from unrelated to related. It
  then decrements `eta` of every column `c` with `phi(head, c) > relatedness`,
  and resets the head's own `eta` to 0.

The statistics are defined as running counts over rows (`CountRelatives`,
`CountDivergents`, `RelatedKinshipSum`), each restricted to a pool of rows.
Lemmas tie the counts to the sizes of the matching sets of samples.

The proof rests on the loop invariant `EtaTracksUnrelated`:
- for every unrelated sample `i`, `eta[i]` is the number of rows `r != i`
  that are still unrelated and have `phi(r, i) > relatedness`;
- every related sample has `eta <= 0`.

From this invariant:
- a head with positive `eta` is always still unrelated;
- each round removes exactly that one sample, so the loop runs at most `n`
  rounds (`decreases |unrelated|`);
- at the stop, no two distinct unrelated samples are related, in either
  orientation;
- each removed sample still had an unrelated relative when it was removed.
  So when the cohort's only related samples are one pair, exactly one
  member of the pair ends up in the related set (`LonePairLosesOne`).

The model keeps these details of the code:
- The head is chosen among all samples, not only the unrelated ones. This
  is harmless, because related samples have `eta <= 0`.
- The decrement touches every column related to the head. That includes
  samples already in the related set, whose `eta` can then go below zero.
  So `eta` is an `int` and not a count. It also includes the head itself
  when its diagonal `phi(s, s)` exceeds the threshold; the reset to 0 follows.
- The loop stops on `eta <= 0`, not on `eta == 0`.
- Nothing requires `phi` to be symmetric. The invariant holds in the code's
  row-to-column orientation.
- On an empty cohort, `samples.head(1).collect()[0]` has no row to index and
  raises. The model returns `NoSamples` instead of partitioning.

## Model

| member | source | states |
|---|---|---|
| `Kinship.SamplesAreIndices` | hail/python/hail/methods/relatedness/pc_air.py:81 | The cohort's sample set holds exactly the indices `0..n-1`, so it has `n` members |
| `Kinship.CountRelativesIsCardinality` | hail/python/hail/methods/relatedness/pc_air.py:71 | For a pool of rows below `k`, the running related count equals the size of the set of pool rows `r != c` with `phi(r, c) > relatedness` |
| `Kinship.CountDivergentsIsCardinality` | hail/python/hail/methods/relatedness/pc_air.py:72-76 | For a pool of rows below `k`, the running divergent count equals the size of the set of pool rows `r != c` with `phi(r, c)` below both `relatedness` and `-divergence` |
| `Kinship.InitialStatsAreCounts` | hail/python/hail/methods/relatedness/pc_air.py:71-76 | A sample's initial eta is the number of other samples related to it, and its initial delta is the number of other samples divergent from it |
| `Kinship.CountRelativesPositive` | hail/python/hail/methods/relatedness/pc_air.py:91-92 | A column's related count is positive if and only if some other row of the pool is related to it |
| `Kinship.CountRelativesShrink` | hail/python/hail/methods/relatedness/pc_air.py:98-123 | Removing a sample `s` from the pool lowers another column's related count by one exactly when `phi(s, c)` exceeds the threshold, and leaves it unchanged otherwise |
| `Kinship.RelatedKinshipSumBounds` | hail/python/hail/methods/relatedness/pc_air.py:77-79 | The summed kinship over related rows is 0 when there are no related rows, and exceeds (number of related rows) x threshold otherwise |
| `Kinship.InitialGammaBound` | hail/python/hail/methods/relatedness/pc_air.py:71-79 | For initial statistics, `eta == 0` implies `gamma == 0`, and `eta > 0` implies `gamma > eta * relatedness` |
| `Selection.RanksFirstIsTotalPreorder` | hail/python/hail/methods/relatedness/pc_air.py:87 | The (eta desc, delta asc, gamma asc) ordering compares any two samples and is transitive, so sorting by it is well defined |
| `Selection.SelectableAreTied` | hail/python/hail/methods/relatedness/pc_air.py:87-89 | Any two samples that may head the ordering have equal eta, delta and gamma, so the choice among them is only a tie-break |
| `Selection.SelectSample` | hail/python/hail/methods/relatedness/pc_air.py:87-89 | The picked sample has the largest eta over all samples, the smallest delta among those, and the smallest gamma among those; it is the lowest index with that property |
| `Partition.ColumnStats` | hail/python/hail/methods/relatedness/pc_air.py:63-79 | The computed record is the column's initial statistics. Its eta is the number of other samples related to the column, its delta the number of other samples divergent from it, and its gamma the related kinship sum |
| `Partition.InitialState` | hail/python/hail/methods/relatedness/pc_air.py:71-82 | Initially every sample is unrelated, the related set is empty, every sample carries its whole-cohort statistics, and the eta invariant holds |
| `Partition.LowerRelatedEta` | hail/python/hail/methods/relatedness/pc_air.py:117-123 | The decrement pass lowers by one the eta of exactly the columns the selected sample is related to, whatever their membership, and changes nothing else |
| `Partition.PositiveEtaHasRelative` | hail/python/hail/methods/relatedness/pc_air.py:91-96 | In a reachable state, a sample with positive eta is still in the unrelated set and has a relative that is itself still unrelated |
| `Partition.EliminationKeepsEtaTracking` | hail/python/hail/methods/relatedness/pc_air.py:98-126 | The decrement-then-reset update re-establishes the eta invariant for the unrelated set without the eliminated sample, and keeps the partition |
| `Partition.Eliminate` | hail/python/hail/methods/relatedness/pc_air.py:94-126 | One round moves exactly the selected sample to the related set, so the unrelated set shrinks by one. That sample was still unrelated and had a relative still in the unrelated set. It zeroes that sample's eta and lowers each other eta by one exactly when the sample is related to it. delta and gamma are unchanged, and the state stays valid |
| `Partition.SettledIsInternallyUnrelated` | hail/python/hail/methods/relatedness/pc_air.py:86-92 | When the head of the ordering has eta <= 0, no two distinct unrelated samples are related |
| `Partition.NoRelatedPairKeepsAll` | hail/python/hail/methods/relatedness/pc_air.py:91-92 | If every moved sample has a relative and the cohort holds no related pair, the related set is empty and the unrelated set is the whole cohort |
| `Partition.PartitionSamples` | hail/python/hail/methods/relatedness/pc_air.py:27-126 | On a non-empty cohort, the result partitions the samples and its unrelated set holds no related pair. A cohort with no related pair is returned whole with an empty related set. The related samples, in removal order, number at most n, and each had a relative still unrelated when it was removed. An empty cohort is an error |
| `Partition.ExtendOrder` | hail/python/hail/methods/relatedness/pc_air.py:94-126 | Removing a still-unrelated sample that has an unrelated relative keeps the removal order valid: the related samples are listed once each, and each had a relative not yet removed |
| `Partition.LonePairLosesOne` | hail/python/hail/methods/relatedness/pc_air.py:86-126 | If the only related pair of the cohort is a, b (in either orientation), a result of the loop has exactly one of a, b in its related set |

## Left out

- Computing `phi` with `king` (pc_air.py:56) is an external estimator. `phi` is a parameter of every member.
- Hail table plumbing is left out: `cache`, executing `order_by`, `head`/`collect`, `annotate_cols`, `aggregate_cols`, `filter_rows`/`filter_cols`. Rows and columns become plain indices, and the result sets become `set<nat>` of indices.
- The key-schema assertions (pc_air.py:59-61) are not modelled. Rows and columns range over the same indices by construction.
- `@typecheck` and threshold expressions are left out. The two thresholds are fixed reals per call, and `DefaultThresholds` records the 0.025 defaults of pc_air.py:11-12 for reference; no member depends on the values.
- Floating point is left out: `phi` and `gamma` are exact reals. NaN kinship values have no counterpart in the model.
- `pc_air` (pc_air.py:129-132) only calls the partitioner and raises `NotImplementedError`. The `__main__` block (pc_air.py:135-139) is file I/O. Allele-frequency standardisation and the eigen-projection have no code in this repository to model.
- `query/lib/Analysis/MissingnessAwareConstantPropagationAnalysis.cpp` is not part of this model. It is an MLIR dataflow visitor unrelated to partitioning.
- Which sample `order_by` puts first among full ties is unspecified in the source. The model fixes the lowest index. The loop's proofs use only the fact that the pick heads the ordering, so they hold for any such choice.
