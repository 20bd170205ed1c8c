# 4-D tensor pruning operator

This is a Dafny model of the BPETS dimension-control pruning operator. The
operator takes a Time x Space x Feature x Channel tensor and a per-feature
weight vector. It zeroes the feature slices whose weight falls below a
threshold `tau` and reports a normalised Hamiltonian energy
`H_norm = min(1, sum(w) / H_CRIT)`. A second operation prunes a feature
adjacency matrix: an edge survives when its weight reaches `tau` or when both
endpoints share a cluster. A third maps the numerical rank of the pruned tensor
and the energy to a Freedom-of-Dexterity (FOD) score in [0, 6].

The code is pure: each function is one vectorised numpy expression. The model
therefore uses functions and lemmas over `real`, with no classes and no
methods:

- `tensors.dfy`, module `Tensors`: tensors as `seq<seq<seq<seq<real>>>>`,
  square matrices, shape predicates, `Sum`, and the row-major reshape
  `Flatten`.
- `pruning_operator.dfy`, module `PruningOperator`:
  - the constants `H_CRIT = 1.0`, `RANK_TOLERANCE = 1e-10` and `MAX_FOD = 6.0`;
  - `NodePruning`, `Energy`, `EdgeClusterPruning`, `RankEff`, `FodFromRank`
    and `FodScore`;
  - the lemmas about them.

numpy's `tensor * mask` is modelled literally. Each entry is multiplied by
1.0 or 0.0 from the boolean mask. The keep-or-zero rule is proved from that,
not assumed.

`test_pruning.py` is a byte-for-byte copy of `pruning_operator.py`: the same
56 lines, the same constant, the same three functions. One model covers both
files. A row below that cites one file covers the same lines in the other.

The energy is described as a normalised value, but line 26 clamps it only from
above. The model follows the code. `EnergyNegative` shows that negative weight
sums give a negative energy.

## Model

| member | source | states |
|---|---|---|
| `PruningOperator.NodePruning` | computing/blueshare-polyglot-exosketelon/pruning/pruning_operator.py:9-27 | The pruned tensor has the input's shape at every level. Entry (t, s, f, c) equals the input entry when `tau <= w[f]` (a tie is kept) and is 0 otherwise. The energy returned is `Energy(w)`, whose contract is in the next row. |
| `PruningOperator.Energy` | computing/blueshare-polyglot-exosketelon/pruning/pruning_operator.py:26 | `min(1, sum(w) / H_CRIT)`: never above 1, equal to 1 iff the weights sum to at least `H_CRIT`, otherwise the unclamped ratio (no lower clamp). |
| `PruningOperator.NodePruningKeepsShape` | computing/blueshare-polyglot-exosketelon/pruning/test_pruning.py:22-25 | A rectangular (T, S, F, C) tensor with F = `|w|` is still (T, S, F, C) after pruning: entries are zeroed, never removed. |
| `PruningOperator.NodePruningKeepsAll` | computing/blueshare-polyglot-exosketelon/pruning/pruning_operator.py:22-25 | If `tau <= w[f]` for every feature, the pruned tensor equals the input. |
| `PruningOperator.NodePruningZeroesAll` | computing/blueshare-polyglot-exosketelon/pruning/test_pruning.py:24-25 | If `w[f] < tau` for every feature, every entry of the pruned tensor is 0. |
| `PruningOperator.NodePruningIdempotent` | computing/blueshare-polyglot-exosketelon/pruning/pruning_operator.py:24-25 | Pruning the pruned tensor again with the same weights and threshold returns it unchanged. |
| `PruningOperator.EnergyMonotone` | computing/blueshare-polyglot-exosketelon/pruning/test_pruning.py:26 | Raising any weights, pointwise, never lowers the energy. |
| `PruningOperator.EnergyMonotoneInOneWeight` | computing/blueshare-polyglot-exosketelon/pruning/pruning_operator.py:7-26 | Raising one weight by a non-negative amount never lowers the energy. |
| `PruningOperator.EnergyNegative` | computing/blueshare-polyglot-exosketelon/pruning/test_pruning.py:7-26 | A non-empty vector of negative weights gives a negative energy: there is no lower clamp. |
| `PruningOperator.NodePruningScenario` | computing/blueshare-polyglot-exosketelon/pruning/test_pruning.py:22-27 | On a (2, 3, 4, 5) tensor with weights [0.2, 0.8, 0.5, 1.2], `tau = 0.6` keeps features 1 and 3 and zeroes features 0 and 2. `tau = 0.5` keeps feature 2 (a tie). The energy is 1. |
| `PruningOperator.EdgeClusterPruning` | computing/blueshare-polyglot-exosketelon/pruning/pruning_operator.py:29-46 | The result is n x n. Entry (i, j) equals `adj[i][j]` when `w[i][j] >= tau` or `cluster[i] == cluster[j]`, and is 0 otherwise. |
| `PruningOperator.EdgePruningKeepsDiagonal` | computing/blueshare-polyglot-exosketelon/pruning/test_pruning.py:45-46 | Diagonal entries are never pruned. |
| `PruningOperator.EdgePruningSingleCluster` | computing/blueshare-polyglot-exosketelon/pruning/test_pruning.py:45 | When all cluster labels are equal, the result equals `adj` for any weights and threshold. |
| `PruningOperator.EdgePruningIdempotent` | computing/blueshare-polyglot-exosketelon/pruning/pruning_operator.py:45-46 | Pruning the pruned matrix again with the same clusters, weights and threshold returns it unchanged. |
| `PruningOperator.EdgePruningKeepsSymmetry` | computing/blueshare-polyglot-exosketelon/pruning/pruning_operator.py:45 | Both keep criteria are symmetric, so a symmetric adjacency matrix with symmetric edge weights stays symmetric. |
| `PruningOperator.EdgePruningScenario` | computing/blueshare-polyglot-exosketelon/pruning/test_pruning.py:29-46 | A 3 x 3 all-ones matrix with clusters [0, 0, 1], zero weights and `tau = 0.5` becomes [[1,1,0],[1,1,0],[0,0,1]]. |
| `PruningOperator.RankEff` | computing/blueshare-polyglot-exosketelon/pruning/pruning_operator.py:54 | The numerical rank is between 0 and the number of singular values. It equals that number iff every value exceeds `1e-10`, and is 0 iff none does. |
| `PruningOperator.RankEffOfDescending` | computing/blueshare-polyglot-exosketelon/pruning/test_pruning.py:53-54 | For singular values in non-increasing order, as an SVD returns them, value i exceeds `1e-10` iff i is below the numerical rank. |
| `PruningOperator.FodFromRank` | computing/blueshare-polyglot-exosketelon/pruning/pruning_operator.py:55-56 | `6 * (rank / 6) * (1 - H_norm)` clipped to [0, 6]. The score lies in [0, 6]. It is `rank * (1 - H_norm)` when that lies in [0, 6], 0 when that is not positive, and 6 when that is at least 6. |
| `PruningOperator.FodScore` | computing/blueshare-polyglot-exosketelon/pruning/pruning_operator.py:48-56 | The FOD score from the singular values of the reshaped pruned tensor always lies in [0, 6]. |
| `PruningOperator.FodScoreSaturated` | computing/blueshare-polyglot-exosketelon/pruning/test_pruning.py:55-56 | The score is 0 whenever `H_norm >= 1`, whatever the rank. |
| `PruningOperator.FodScoreAtZeroEnergy` | computing/blueshare-polyglot-exosketelon/pruning/pruning_operator.py:54-56 | At `H_norm = 0` the score is `min(rank_eff, 6)`. |
| `PruningOperator.FodAntitoneInEnergy` | computing/blueshare-polyglot-exosketelon/pruning/test_pruning.py:55-56 | A higher energy never raises the score. |
| `PruningOperator.FodMonotoneInRank` | computing/blueshare-polyglot-exosketelon/pruning/test_pruning.py:54-56 | A higher numerical rank never lowers the score, for any `H_norm`. |
| `PruningOperator.FodZeroIff` | computing/blueshare-polyglot-exosketelon/pruning/pruning_operator.py:55-56 | With `H_norm <= 1`, the score is 0 iff the numerical rank is 0 or `H_norm == 1`. |
| `PruningOperator.FodScoreAfterNodePruning` | computing/blueshare-polyglot-exosketelon/pruning/test_pruning.py:26-56 | With the energy that node pruning computes from `w`, the score is 0 exactly when the weights reach `H_CRIT` or no singular value exceeds `1e-10`. |
| `PruningOperator.RankBoundedByReshape` | computing/blueshare-polyglot-exosketelon/pruning/pruning_operator.py:52-54 | For C > 0, the singular values number min(T*S*F, C), so the numerical rank is at most the row count and at most the column count of the reshaped matrix. |
| `Tensors.FlattenShape` | computing/blueshare-polyglot-exosketelon/pruning/pruning_operator.py:52 | `reshape(-1, shape[-1])` of a (T, S, F, C) tensor with C > 0 has T*S*F rows of C entries each. |

## Left out

- The singular value decomposition (`np.linalg.svd`, line 53) is a foreign
  floating-point routine. `FodScore` takes the singular values as a parameter.
  Only their count above the tolerance and the scoring are modelled.
  `RankBoundedByReshape` states how many there are.
- FodScore: its own contract states only the [0, 6] bound. The exact value is
  stated on `FodFromRank`, which `FodScore` applies to `RankEff` of the
  singular values.
- IEEE-754 behaviour is not modelled: NaN or infinity times a 0 mask entry,
  `-0.0`, and rounding in `w.sum()` and `rank_eff / 6`. All arithmetic is over
  exact reals. So `6 * (rank_eff / 6)` is exactly `rank_eff`.
- NaN cluster labels are not modelled. With float labels, `NaN == NaN` is
  False at line 45, so a diagonal entry whose weight is below `tau` would be
  zeroed. `EdgePruningKeepsDiagonal` holds for the integer labels of the model.
- numpy broadcasting of length-1 axes is not modelled. A feature axis of
  length 1 against a longer `w`, or a length-1 `w`, would broadcast in numpy.
  The model instead requires the feature axis to have exactly `|w|` entries.
  Edge pruning requires `adj` and `w` to be n x n with n cluster labels.
- The shape-mismatch error path is not modelled. The code validates nothing
  itself, but numpy raises ValueError when shapes neither match nor
  broadcast: at line 25 for a weight vector that does not fit the feature
  axis, at line 45 for a cluster vector whose length does not fit the edge
  weights, and at line 46 for an adjacency matrix that does not fit the mask.
  The preconditions exclude exactly those inputs.
- FlattenShape: requires C > 0. For C = 0, `reshape(-1, 0)` at line 52 raises
  ValueError because numpy cannot infer the `-1` from an empty array. That
  error path is not modelled. `RankBoundedByReshape` has the same
  precondition.
- Cluster labels are modelled as integers. Labels of any type whose equality
  is reflexive behave the same.
- The model fixes `H_CRIT` at 1.0. Line 26 reads the module global on every
  call, so a caller that rebinds `H_CRIT` at run time changes the energy. That
  rebinding is not modelled.
