/**
 * Embedding vectors over exact reals: the element-wise mean that gives an author's
 * centroid, and the squared Euclidean distance between two centroids.
 */
module Vectors {

  import opened Sequences

  type Vector = seq<real>

  /** Every vector of `vs` has `d` components. */
  ghost predicate HasDim(vs: seq<Vector>, d: nat) {
    forall i :: 0 <= i < |vs| ==> |vs[i]| == d
  }

  /** The sum of component `j` over all vectors of `vs`. */
  function SumAt(vs: seq<Vector>, j: nat): real
    requires forall i :: 0 <= i < |vs| ==> j < |vs[i]|
  {
    if |vs| == 0 then 0.0 else SumAt(vs[..|vs| - 1], j) + vs[|vs| - 1][j]
  }

  /** The element-wise mean of a non-empty list of `d`-dimensional vectors. */
  function Mean(vs: seq<Vector>, d: nat): (m: Vector)
    requires |vs| > 0 && HasDim(vs, d)
    ensures |m| == d
    ensures forall j :: 0 <= j < d ==> m[j] * (|vs| as real) == SumAt(vs, j)
  {
    seq(d, j requires 0 <= j < d => SumAt(vs, j) / (|vs| as real))
  }

  lemma {:induction false} SumAtCopies(v: Vector, k: nat, j: nat)
    requires j < |v|
    ensures SumAt(Repeat(v, k), j) == (k as real) * v[j]
  {
    if k > 0 {
      assert Repeat(v, k)[..k - 1] == Repeat(v, k - 1);
      SumAtCopies(v, k - 1, j);
    }
  }

  /**
   * The mean of one or more copies of a vector is that vector: the centroid of an
   * author whose embeddings all come from one paper is that paper's embedding.
   */
  lemma MeanOfCopies(v: Vector, k: nat)
    requires k > 0
    ensures Mean(Repeat(v, k), |v|) == v
  {
    var m := Mean(Repeat(v, k), |v|);
    forall j | 0 <= j < |v| ensures m[j] == v[j] {
      SumAtCopies(v, k, j);
      assert m[j] == ((k as real) * v[j]) / (k as real);
    }
  }

  /** The squared Euclidean distance between two vectors of the same dimension. */
  function SqDist(u: Vector, v: Vector): (r: real)
    requires |u| == |v|
    ensures r >= 0.0
  {
    if |u| == 0 then 0.0
    else
      var diff := u[|u| - 1] - v[|v| - 1];
      SqDist(u[..|u| - 1], v[..|v| - 1]) + diff * diff
  }

  lemma {:induction false} SqDistSelf(u: Vector)
    ensures SqDist(u, u) == 0.0
  {
    if |u| > 0 {
      SqDistSelf(u[..|u| - 1]);
    }
  }

  lemma {:induction false} SqDistSymmetric(u: Vector, v: Vector)
    requires |u| == |v|
    ensures SqDist(u, v) == SqDist(v, u)
  {
    if |u| > 0 {
      SqDistSymmetric(u[..|u| - 1], v[..|v| - 1]);
    }
  }

}
