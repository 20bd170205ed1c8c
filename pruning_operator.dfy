/** The 4-D tensor pruning operator: node pruning with its normalised
    Hamiltonian energy, edge pruning that spares intra-cluster edges, and the
    Freedom-of-Dexterity (FOD) score computed from a numerical rank. Every
    operation is a pure function of its inputs. */
module PruningOperator {
  import opened Tensors

  /** Critical Hamiltonian that normalises the summed feature weights. */
  const H_CRIT: real := 1.0

  /** Singular values at or below this tolerance do not add to the numerical rank. */
  const RANK_TOLERANCE: real := 1e-10

  /** The assumed number of degrees of freedom; the FOD score lies in [0, MAX_FOD]. */
  const MAX_FOD: real := 6.0

  /** A boolean mask entry used as a multiplier, as numpy does in `tensor * mask`. */
  function Indicator(b: bool): real {
    if b then 1.0 else 0.0
  }

  /** The smaller of two reals, as Python's `min(a, b)` (which returns `a` on a tie). */
  function Min(a: real, b: real): real {
    if b < a then b else a
  }

  /** `np.clip(v, lo, hi)`: raise to `lo`, then cap at `hi`. */
  function Clip(v: real, lo: real, hi: real): real {
    var raised := if v < lo then lo else v;
    if hi < raised then hi else raised
  }

  // ---------------------------------------------------------------------------
  // Node pruning

  /** The feature axis of every (time, space) slice has one entry per weight. */
  predicate FeatureAxisMatches(x: Tensor4, w: seq<real>) {
    forall t, s :: 0 <= t < |x| && 0 <= s < |x[t]| ==> |x[t][s]| == |w|
  }

  /** `w >= tau`: which features survive node pruning. */
  function NodeMask(w: seq<real>, tau: real): seq<bool> {
    seq(|w|, f requires 0 <= f < |w| => w[f] >= tau)
  }

  /** The normalised Hamiltonian energy `min(1.0, sum(w) / H_CRIT)`. It is
      capped at 1 and has no lower clamp. */
  function Energy(w: seq<real>): (h: real)
    ensures h <= 1.0
    ensures h == 1.0 <==> Sum(w) >= H_CRIT
    ensures h < 1.0 ==> h == Sum(w) / H_CRIT
  {
    Min(1.0, Sum(w) / H_CRIT)
  }

  /** One (feature x channel) slice times the feature mask: row f is scaled by
      the indicator of `mask[f]`. */
  function MaskSlice(slice: seq<seq<real>>, mask: seq<bool>): (r: seq<seq<real>>)
    requires |slice| == |mask|
    ensures |r| == |slice|
    ensures forall f :: 0 <= f < |slice| ==> |r[f]| == |slice[f]|
    ensures forall f, c :: 0 <= f < |slice| && 0 <= c < |slice[f]| ==>
      r[f][c] == if mask[f] then slice[f][c] else 0.0
  {
    var r := seq(|slice|, f requires 0 <= f < |slice| =>
      seq(|slice[f]|, c requires 0 <= c < |slice[f]| => slice[f][c] * Indicator(mask[f])));
    assert forall f, c :: 0 <= f < |slice| && 0 <= c < |slice[f]| ==>
      r[f][c] == slice[f][c] * Indicator(mask[f]);
    r
  }

  /** Multiplies every feature slice by its mask entry (broadcast over time,
      space and channel) and reports the energy of the weights. */
  function NodePruning(x: Tensor4, w: seq<real>, tau: real): (r: (Tensor4, real))
    requires FeatureAxisMatches(x, w)
    ensures SameShape(r.0, x)
    ensures forall t, s, f, c | IsIndex(x, t, s, f, c) ::
      r.0[t][s][f][c] == if tau <= w[f] then x[t][s][f][c] else 0.0
    ensures r.1 == Energy(w)
  {
    var mask := NodeMask(w, tau);
    var pruned :=
      seq(|x|, t requires 0 <= t < |x| =>
        seq(|x[t]|, s requires 0 <= s < |x[t]| => MaskSlice(x[t][s], mask)));
    assert forall t, s :: 0 <= t < |x| && 0 <= s < |x[t]| ==> pruned[t][s] == MaskSlice(x[t][s], mask);
    (pruned, Energy(w))
  }

  /** Pruning zeroes entries but never removes them: a rectangular tensor keeps its extents. */
  lemma NodePruningKeepsShape(x: Tensor4, w: seq<real>, tau: real, sh: Shape4)
    requires HasShape(x, sh) && sh.feature == |w|
    ensures HasShape(NodePruning(x, w, tau).0, sh)
  {
  }

  /** A threshold at or below every weight prunes nothing. */
  lemma NodePruningKeepsAll(x: Tensor4, w: seq<real>, tau: real)
    requires FeatureAxisMatches(x, w)
    requires forall f :: 0 <= f < |w| ==> tau <= w[f]
    ensures NodePruning(x, w, tau).0 == x
  {
    TensorExtensionality(NodePruning(x, w, tau).0, x);
  }

  /** A threshold above every weight zeroes the whole tensor. */
  lemma NodePruningZeroesAll(x: Tensor4, w: seq<real>, tau: real)
    requires FeatureAxisMatches(x, w)
    requires forall f :: 0 <= f < |w| ==> w[f] < tau
    ensures AllZero(NodePruning(x, w, tau).0)
  {
  }

  /** Pruning a pruned tensor again with the same weights and threshold changes nothing. */
  lemma NodePruningIdempotent(x: Tensor4, w: seq<real>, tau: real)
    requires FeatureAxisMatches(x, w)
    ensures FeatureAxisMatches(NodePruning(x, w, tau).0, w)
    ensures NodePruning(NodePruning(x, w, tau).0, w, tau).0 == NodePruning(x, w, tau).0
  {
    var once := NodePruning(x, w, tau).0;
    TensorExtensionality(NodePruning(once, w, tau).0, once);
  }

  /** Raising any weights never lowers the energy. */
  lemma EnergyMonotone(v: seq<real>, u: seq<real>)
    requires |v| == |u|
    requires forall f :: 0 <= f < |v| ==> v[f] <= u[f]
    ensures Energy(v) <= Energy(u)
  {
    SumMonotone(v, u);
  }

  /** Raising a single weight by a non-negative amount never lowers the energy. */
  lemma EnergyMonotoneInOneWeight(w: seq<real>, f: nat, d: real)
    requires f < |w| && 0.0 <= d
    ensures Energy(w) <= Energy(w[f := w[f] + d])
  {
    SumUpdate(w, f, d);
  }

  /** There is no lower clamp: all-negative weights give a negative energy. */
  lemma EnergyNegative(w: seq<real>)
    requires |w| > 0
    requires forall f :: 0 <= f < |w| ==> w[f] < 0.0
    ensures Energy(w) < 0.0
  {
    SumNegative(w);
  }

  /** A (2, 3, 4, 5) tensor with weights [0.2, 0.8, 0.5, 1.2]: at tau = 0.6 features 1
      and 3 survive and 0 and 2 are zeroed; at tau = 0.5 the tie at feature 2 survives
      too; the weights sum to 2.7, so the energy saturates at 1. */
  lemma NodePruningScenario(x: Tensor4)
    requires HasShape(x, Shape4(2, 3, 4, 5))
    ensures var w := [0.2, 0.8, 0.5, 1.2];
      && NodePruning(x, w, 0.6).1 == 1.0
      && (forall t, s, c :: 0 <= t < 2 && 0 <= s < 3 && 0 <= c < 5 ==>
            && NodePruning(x, w, 0.6).0[t][s][0][c] == 0.0
            && NodePruning(x, w, 0.6).0[t][s][1][c] == x[t][s][1][c]
            && NodePruning(x, w, 0.6).0[t][s][2][c] == 0.0
            && NodePruning(x, w, 0.6).0[t][s][3][c] == x[t][s][3][c]
            && NodePruning(x, w, 0.5).0[t][s][2][c] == x[t][s][2][c])
  {
    var w := [0.2, 0.8, 0.5, 1.2];
    assert Sum(w) == 2.7 by {
      assert w[1..] == [0.8, 0.5, 1.2];
      assert w[1..][1..] == [0.5, 1.2];
      assert w[1..][1..][1..] == [1.2];
      assert w[1..][1..][1..][1..] == [];
    }
    forall t, s, c | 0 <= t < 2 && 0 <= s < 3 && 0 <= c < 5
      ensures IsIndex(x, t, s, 0, c) && IsIndex(x, t, s, 3, c)
    {
    }
  }

  // ---------------------------------------------------------------------------
  // Edge / cluster pruning

  /** `(w >= tau) | (cluster[:, None] == cluster[None, :])`. */
  function EdgeMask(cluster: seq<int>, w: Matrix, tau: real): seq<seq<bool>>
    requires IsSquare(w, |cluster|)
  {
    seq(|w|, i requires 0 <= i < |w| =>
      seq(|w|, j requires 0 <= j < |w| => w[i][j] >= tau || cluster[i] == cluster[j]))
  }

  /** Keeps an edge whose weight reaches the threshold or whose endpoints share a
      cluster, and zeroes every other edge; the matrix stays n x n. */
  function EdgeClusterPruning(adj: Matrix, cluster: seq<int>, w: Matrix, tau: real): (r: Matrix)
    requires IsSquare(adj, |adj|) && IsSquare(w, |adj|) && |cluster| == |adj|
    ensures IsSquare(r, |adj|)
    ensures forall i, j :: 0 <= i < |adj| && 0 <= j < |adj| ==>
      r[i][j] == if tau <= w[i][j] || cluster[i] == cluster[j] then adj[i][j] else 0.0
  {
    var n := |adj|;
    var mask := EdgeMask(cluster, w, tau);
    seq(n, i requires 0 <= i < n =>
      seq(n, j requires 0 <= j < n => adj[i][j] * Indicator(mask[i][j])))
  }

  /** The diagonal is never pruned: every feature shares its own cluster. */
  lemma EdgePruningKeepsDiagonal(adj: Matrix, cluster: seq<int>, w: Matrix, tau: real, i: nat)
    requires IsSquare(adj, |adj|) && IsSquare(w, |adj|) && |cluster| == |adj|
    requires i < |adj|
    ensures EdgeClusterPruning(adj, cluster, w, tau)[i][i] == adj[i][i]
  {
  }

  /** With every feature in one cluster, edge pruning is the identity for any weights and threshold. */
  lemma EdgePruningSingleCluster(adj: Matrix, cluster: seq<int>, w: Matrix, tau: real)
    requires IsSquare(adj, |adj|) && IsSquare(w, |adj|) && |cluster| == |adj|
    requires forall i, j :: 0 <= i < |cluster| && 0 <= j < |cluster| ==> cluster[i] == cluster[j]
    ensures EdgeClusterPruning(adj, cluster, w, tau) == adj
  {
    MatrixExtensionality(EdgeClusterPruning(adj, cluster, w, tau), adj, |adj|);
  }

  /** Edge pruning applied twice with the same inputs equals applying it once. */
  lemma EdgePruningIdempotent(adj: Matrix, cluster: seq<int>, w: Matrix, tau: real)
    requires IsSquare(adj, |adj|) && IsSquare(w, |adj|) && |cluster| == |adj|
    ensures var once := EdgeClusterPruning(adj, cluster, w, tau);
      EdgeClusterPruning(once, cluster, w, tau) == once
  {
    var once := EdgeClusterPruning(adj, cluster, w, tau);
    MatrixExtensionality(EdgeClusterPruning(once, cluster, w, tau), once, |adj|);
  }

  /** Both keep criteria are symmetric in (i, j), so a symmetric adjacency matrix
      with symmetric edge weights stays symmetric. */
  lemma EdgePruningKeepsSymmetry(adj: Matrix, cluster: seq<int>, w: Matrix, tau: real)
    requires IsSquare(adj, |adj|) && IsSquare(w, |adj|) && |cluster| == |adj|
    requires forall i, j :: 0 <= i < |adj| && 0 <= j < |adj| ==> adj[i][j] == adj[j][i]
    requires forall i, j :: 0 <= i < |adj| && 0 <= j < |adj| ==> w[i][j] == w[j][i]
    ensures var r := EdgeClusterPruning(adj, cluster, w, tau);
      forall i, j :: 0 <= i < |adj| && 0 <= j < |adj| ==> r[i][j] == r[j][i]
  {
  }

  /** A 3 x 3 all-ones adjacency with clusters [0, 0, 1], zero edge weights and
      tau = 0.5 keeps the edges inside cluster 0 and drops those to feature 2. */
  lemma EdgePruningScenario()
    ensures var r := EdgeClusterPruning([[1.0, 1.0, 1.0], [1.0, 1.0, 1.0], [1.0, 1.0, 1.0]], [0, 0, 1],
                                        [[0.0, 0.0, 0.0], [0.0, 0.0, 0.0], [0.0, 0.0, 0.0]], 0.5);
      r == [[1.0, 1.0, 0.0], [1.0, 1.0, 0.0], [0.0, 0.0, 1.0]]
  {
    var r := EdgeClusterPruning([[1.0, 1.0, 1.0], [1.0, 1.0, 1.0], [1.0, 1.0, 1.0]], [0, 0, 1],
                                [[0.0, 0.0, 0.0], [0.0, 0.0, 0.0], [0.0, 0.0, 0.0]], 0.5);
    MatrixExtensionality(r, [[1.0, 1.0, 0.0], [1.0, 1.0, 0.0], [0.0, 0.0, 1.0]], 3);
  }

  // ---------------------------------------------------------------------------
  // FOD score

  /** The numerical rank: how many singular values exceed RANK_TOLERANCE. */
  function RankEff(sv: seq<real>): (k: nat)
    ensures k <= |sv|
    ensures k == |sv| <==> forall i :: 0 <= i < |sv| ==> sv[i] > RANK_TOLERANCE
    ensures k == 0 <==> forall i :: 0 <= i < |sv| ==> sv[i] <= RANK_TOLERANCE
  {
    if sv == [] then 0
    else
      assert forall i :: 1 <= i < |sv| ==> sv[i] == sv[1..][i - 1];
      (if sv[0] > RANK_TOLERANCE then 1 else 0) + RankEff(sv[1..])
  }

  /** Singular values in non-increasing order, as an SVD returns them. */
  predicate Descending(sv: seq<real>) {
    forall i, j :: 0 <= i < j < |sv| ==> sv[j] <= sv[i]
  }

  /** For descending singular values, the first RankEff of them are exactly those
      above the tolerance. */
  lemma {:induction false} RankEffOfDescending(sv: seq<real>, i: nat)
    requires Descending(sv) && i < |sv|
    ensures sv[i] > RANK_TOLERANCE <==> i < RankEff(sv)
  {
    if i > 0 {
      RankEffOfDescending(sv[1..], i - 1);
      assert sv[1..][i - 1] == sv[i];
      if sv[0] <= RANK_TOLERANCE {
        assert sv[i] <= sv[0];
      }
    } else if sv[0] <= RANK_TOLERANCE {
      assert forall k :: 0 <= k < |sv| ==> sv[k] <= sv[0];
    }
  }

  /** `np.clip(6 * (rank_eff / 6) * (1 - H_norm), 0, 6)`: the numerical rank scaled
      by the unused share of the energy, kept within [0, MAX_FOD]. */
  function FodFromRank(rankEff: nat, hNorm: real): (score: real)
    ensures 0.0 <= score <= MAX_FOD
    ensures (rankEff as real) * (1.0 - hNorm) <= 0.0 ==> score == 0.0
    ensures (rankEff as real) * (1.0 - hNorm) >= MAX_FOD ==> score == MAX_FOD
    ensures 0.0 <= (rankEff as real) * (1.0 - hNorm) <= MAX_FOD ==>
      score == (rankEff as real) * (1.0 - hNorm)
  {
    var fod := 6.0 * ((rankEff as real) / 6.0) * (1.0 - hNorm);
    assert fod == (rankEff as real) * (1.0 - hNorm) by {
      assert 6.0 * ((rankEff as real) / 6.0) == rankEff as real;
    }
    Clip(fod, 0.0, 6.0)
  }

  /** The FOD score of a pruned tensor, given the singular values of its reshaped matrix. */
  function FodScore(sv: seq<real>, hNorm: real): (score: real)
    ensures 0.0 <= score <= MAX_FOD
  {
    FodFromRank(RankEff(sv), hNorm)
  }

  /** The clamp in the score preserves the order of the unclamped values. */
  lemma FodFromRankMonotone(k1: nat, h1: real, k2: nat, h2: real)
    requires (k1 as real) * (1.0 - h1) <= (k2 as real) * (1.0 - h2)
    ensures FodFromRank(k1, h1) <= FodFromRank(k2, h2)
  {
    var r1, r2 := (k1 as real) * (1.0 - h1), (k2 as real) * (1.0 - h2);
    if r1 <= 0.0 {
    } else if r2 >= MAX_FOD {
    } else {
      assert 0.0 <= r1 <= MAX_FOD && 0.0 <= r2 <= MAX_FOD;
    }
  }

  /** Scaling by a non-negative factor preserves order. */
  lemma ScaleMonotone(k: real, a: real, b: real)
    requires 0.0 <= k && a <= b
    ensures k * a <= k * b
  {
    assert k * b - k * a == k * (b - a);
  }

  /** Multiplying on the right by a non-negative factor preserves order. */
  lemma ProductMonotone(a: real, b: real, e: real)
    requires a <= b && 0.0 <= e
    ensures a * e <= b * e
  {
    assert b * e - a * e == (b - a) * e;
  }

  /** The product of two positive reals is positive. */
  lemma ProductPositive(a: real, b: real)
    requires 0.0 < a && 0.0 < b
    ensures 0.0 < a * b
  {
  }

  /** Saturated energy leaves no freedom: the score is 0 whenever H_norm >= 1. */
  lemma FodScoreSaturated(sv: seq<real>, hNorm: real)
    requires hNorm >= 1.0
    ensures FodScore(sv, hNorm) == 0.0
  {
    ScaleMonotone(RankEff(sv) as real, 1.0 - hNorm, 0.0);
  }

  /** At zero energy the score is the numerical rank, capped at MAX_FOD. */
  lemma FodScoreAtZeroEnergy(sv: seq<real>)
    ensures FodScore(sv, 0.0) == Min(RankEff(sv) as real, MAX_FOD)
  {
  }

  /** More energy never raises the score. */
  lemma FodAntitoneInEnergy(rankEff: nat, h1: real, h2: real)
    requires h1 <= h2
    ensures FodFromRank(rankEff, h2) <= FodFromRank(rankEff, h1)
  {
    ScaleMonotone(rankEff as real, 1.0 - h2, 1.0 - h1);
    FodFromRankMonotone(rankEff, h2, rankEff, h1);
  }

  /** A higher numerical rank never lowers the score. */
  lemma FodMonotoneInRank(k1: nat, k2: nat, hNorm: real)
    requires k1 <= k2
    ensures FodFromRank(k1, hNorm) <= FodFromRank(k2, hNorm)
  {
    if hNorm <= 1.0 {
      assert (k1 as real) * (1.0 - hNorm) <= (k2 as real) * (1.0 - hNorm) by {
        ProductMonotone(k1 as real, k2 as real, 1.0 - hNorm);
      }
      FodFromRankMonotone(k1, hNorm, k2, hNorm);
    } else {
      assert FodFromRank(k1, hNorm) == 0.0 by {
        ScaleMonotone(k1 as real, 1.0 - hNorm, 0.0);
      }
    }
  }

  /** With energy at most 1, the score is zero exactly when the rank is zero or
      the energy is saturated. */
  lemma FodZeroIff(rankEff: nat, hNorm: real)
    requires hNorm <= 1.0
    ensures FodFromRank(rankEff, hNorm) == 0.0 <==> rankEff == 0 || hNorm == 1.0
  {
    if rankEff > 0 && hNorm < 1.0 {
      ProductPositive(rankEff as real, 1.0 - hNorm);
    } else if rankEff == 0 {
      assert (rankEff as real) * (1.0 - hNorm) == 0.0;
    }
  }

  /** With the energy that node pruning reports for `w`, the score is zero exactly
      when the weights reach H_CRIT or no singular value exceeds the tolerance. */
  lemma FodScoreAfterNodePruning(w: seq<real>, sv: seq<real>)
    ensures FodScore(sv, Energy(w)) == 0.0 <==>
      Sum(w) >= H_CRIT || forall i :: 0 <= i < |sv| ==> sv[i] <= RANK_TOLERANCE
  {
    FodZeroIff(RankEff(sv), Energy(w));
  }

  /** The singular values of the reshaped (T*S*F) x C matrix number min(T*S*F, C),
      so the numerical rank never exceeds the smaller dimension. */
  lemma RankBoundedByReshape(x: Tensor4, sh: Shape4, sv: seq<real>)
    requires HasShape(x, sh) && sh.channel > 0
    requires |sv| == if sh.channel < sh.time * (sh.space * sh.feature)
                     then sh.channel else sh.time * (sh.space * sh.feature)
    ensures RankEff(sv) <= |Flatten(x)| && RankEff(sv) <= sh.channel
  {
    FlattenShape(x, sh);
  }
}
