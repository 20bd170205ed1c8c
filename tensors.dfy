/** Dense numeric arrays as nested sequences of reals: the 4-D tensors
    (time x space x feature x channel) and the square matrices that the
    pruning operator works on, with their shapes and the sums over them. */
module Tensors {

  /** A 4-D tensor indexed [time][space][feature][channel]. */
  type Tensor4 = seq<seq<seq<seq<real>>>>

  /** A 2-D matrix indexed [row][column]. */
  type Matrix = seq<seq<real>>

  /** The extents of the four axes of a rectangular tensor. */
  datatype Shape4 = Shape4(time: nat, space: nat, feature: nat, channel: nat)

  /** `x` is rectangular with extents `sh` on its four axes. */
  predicate HasShape(x: Tensor4, sh: Shape4) {
    && |x| == sh.time
    && (forall t :: 0 <= t < |x| ==> |x[t]| == sh.space)
    && (forall t, s :: 0 <= t < |x| && 0 <= s < |x[t]| ==> |x[t][s]| == sh.feature)
    && (forall t, s, f :: 0 <= t < |x| && 0 <= s < |x[t]| && 0 <= f < |x[t][s]| ==>
          |x[t][s][f]| == sh.channel)
  }

  /** `a` and `b` have the same length at every level of nesting. */
  predicate SameShape(a: Tensor4, b: Tensor4) {
    && |a| == |b|
    && (forall t :: 0 <= t < |a| ==> |a[t]| == |b[t]|)
    && (forall t, s :: 0 <= t < |a| && 0 <= s < |a[t]| ==> |a[t][s]| == |b[t][s]|)
    && (forall t, s, f :: 0 <= t < |a| && 0 <= s < |a[t]| && 0 <= f < |a[t][s]| ==>
          |a[t][s][f]| == |b[t][s][f]|)
  }

  /** (t, s, f, c) addresses an entry of `x`. */
  predicate IsIndex(x: Tensor4, t: int, s: int, f: int, c: int) {
    0 <= t < |x| && 0 <= s < |x[t]| && 0 <= f < |x[t][s]| && 0 <= c < |x[t][s][f]|
  }

  /** Every entry of `x` is zero. */
  ghost predicate AllZero(x: Tensor4) {
    forall t, s, f, c | IsIndex(x, t, s, f, c) :: x[t][s][f][c] == 0.0
  }

  /** `m` is an n x n matrix. */
  predicate IsSquare(m: Matrix, n: nat) {
    |m| == n && forall i :: 0 <= i < n ==> |m[i]| == n
  }

  /** Two tensors of the same shape that agree entry by entry are equal. */
  lemma TensorExtensionality(a: Tensor4, b: Tensor4)
    requires SameShape(a, b)
    requires forall t, s, f, c | IsIndex(a, t, s, f, c) :: a[t][s][f][c] == b[t][s][f][c]
    ensures a == b
  {
    forall t | 0 <= t < |a| ensures a[t] == b[t] {
      forall s | 0 <= s < |a[t]| ensures a[t][s] == b[t][s] {
        forall f | 0 <= f < |a[t][s]| ensures a[t][s][f] == b[t][s][f] {
          assert forall c :: 0 <= c < |a[t][s][f]| ==> IsIndex(a, t, s, f, c);
        }
      }
    }
  }

  /** Two n x n matrices that agree entry by entry are equal. */
  lemma MatrixExtensionality(a: Matrix, b: Matrix, n: nat)
    requires IsSquare(a, n) && IsSquare(b, n)
    requires forall i, j :: 0 <= i < n && 0 <= j < n ==> a[i][j] == b[i][j]
    ensures a == b
  {
    forall i | 0 <= i < n ensures a[i] == b[i] {
    }
  }

  /** The sum of a vector (numpy's `sum` over reals, where order is immaterial). */
  function Sum(v: seq<real>): real {
    if v == [] then 0.0 else v[0] + Sum(v[1..])
  }

  /** Raising entries never lowers the sum. */
  lemma {:induction false} SumMonotone(v: seq<real>, u: seq<real>)
    requires |v| == |u|
    requires forall i :: 0 <= i < |v| ==> v[i] <= u[i]
    ensures Sum(v) <= Sum(u)
  {
    if v != [] {
      SumMonotone(v[1..], u[1..]);
    }
  }

  /** Raising one entry by `d` raises the sum by exactly `d`. */
  lemma {:induction false} SumUpdate(v: seq<real>, k: nat, d: real)
    requires k < |v|
    ensures Sum(v[k := v[k] + d]) == Sum(v) + d
  {
    if k == 0 {
      assert v[k := v[k] + d][1..] == v[1..];
    } else {
      assert v[k := v[k] + d][1..] == v[1..][k - 1 := v[k] + d];
      SumUpdate(v[1..], k - 1, d);
    }
  }

  /** A non-empty vector of negative entries has a negative sum. */
  lemma {:induction false} SumNegative(v: seq<real>)
    requires |v| > 0
    requires forall i :: 0 <= i < |v| ==> v[i] < 0.0
    ensures Sum(v) < 0.0
  {
    if |v| > 1 {
      SumNegative(v[1..]);
    }
  }

  /** The rows of one time slab, feature rows of every space index in order. */
  function SlabRows(slab: seq<seq<seq<real>>>): Matrix {
    if slab == [] then [] else slab[0] + SlabRows(slab[1..])
  }

  /** `reshape(-1, shape[-1])`: all leading axes collapsed into rows, in row-major order. */
  function Flatten(x: Tensor4): Matrix {
    if x == [] then [] else SlabRows(x[0]) + Flatten(x[1..])
  }

  /** The rows of a (S, F, C) slab are S*F rows of C entries. */
  lemma {:induction false} SlabRowsShape(slab: seq<seq<seq<real>>>, feature: nat, channel: nat)
    requires forall s :: 0 <= s < |slab| ==> |slab[s]| == feature
    requires forall s, f :: 0 <= s < |slab| && 0 <= f < |slab[s]| ==> |slab[s][f]| == channel
    ensures |SlabRows(slab)| == |slab| * feature
    ensures forall r :: 0 <= r < |SlabRows(slab)| ==> |SlabRows(slab)[r]| == channel
  {
    if slab != [] {
      SlabRowsShape(slab[1..], feature, channel);
      assert |SlabRows(slab)| == feature + (|slab| - 1) * feature;
      forall r | 0 <= r < |SlabRows(slab)| ensures |SlabRows(slab)[r]| == channel {
        if r >= |slab[0]| {
          assert SlabRows(slab)[r] == SlabRows(slab[1..])[r - |slab[0]|];
        }
      }
    }
  }

  /** Reshaping a (T, S, F, C) tensor gives a (T*S*F) x C matrix. With C = 0
      numpy cannot infer the `-1` and raises instead, hence C > 0. */
  lemma {:induction false} FlattenShape(x: Tensor4, sh: Shape4)
    requires HasShape(x, sh) && sh.channel > 0
    ensures |Flatten(x)| == sh.time * (sh.space * sh.feature)
    ensures forall r :: 0 <= r < |Flatten(x)| ==> |Flatten(x)[r]| == sh.channel
  {
    if x != [] {
      var slab, tail := x[0], x[1..];
      SlabRowsShape(slab, sh.feature, sh.channel);
      var rest := Shape4(sh.time - 1, sh.space, sh.feature, sh.channel);
      assert HasShape(tail, rest) by {
        forall t | 0 <= t < |tail| ensures tail[t] == x[t + 1] { }
      }
      FlattenShape(tail, rest);
      var k, m := |SlabRows(slab)|, sh.space * sh.feature;
      assert Flatten(x) == SlabRows(slab) + Flatten(tail);
      MulSucc(sh.time - 1, m);
      forall r | 0 <= r < |Flatten(x)| ensures |Flatten(x)[r]| == sh.channel {
        if r >= k {
          assert Flatten(x)[r] == Flatten(tail)[r - k];
        } else {
          assert Flatten(x)[r] == SlabRows(slab)[r];
        }
      }
    }
  }

  /** One more copy of `b` in a product. */
  lemma MulSucc(a: nat, b: nat)
    ensures b + a * b == (a + 1) * b
  {
  }
}
