/** Dense integer matrices as sequences of rows, the few linear-algebra
    notions the oracle is judged by, and NumPy's `np.eye` on a 2-D array. */
module Matrices {
  import opened Sequences

  /** `m` has `size` rows of `size` entries each. */
  ghost predicate IsSquare(m: seq<seq<int>>, size: nat)
  {
    |m| == size && forall i :: 0 <= i < size ==> |m[i]| == size
  }

  /** The `size` by `size` identity matrix. */
  function Identity(size: nat): (m: seq<seq<int>>)
  {
    seq(size, i => seq(size, j => if i == j then 1 else 0))
  }

  /** Column `j` of `m`, top to bottom. */
  function Column(m: seq<seq<int>>, j: nat): (c: seq<int>)
    requires forall i :: 0 <= i < |m| ==> j < |m[i]|
  {
    seq(|m|, i requires 0 <= i < |m| => m[i][j])
  }

  function Transpose(m: seq<seq<int>>): (t: seq<seq<int>>)
    requires IsSquare(m, |m|)
  {
    seq(|m|, j requires 0 <= j < |m| => Column(m, j))
  }

  /** Scalar product of two vectors of the same length. */
  function Dot(u: seq<int>, v: seq<int>): int
    requires |u| == |v|
  {
    if u == [] then 0
    else Dot(u[..|u| - 1], v[..|v| - 1]) + u[|u| - 1] * v[|v| - 1]
  }

  /** Matrix product of two square matrices of the same size. */
  function MatMul(a: seq<seq<int>>, b: seq<seq<int>>): (c: seq<seq<int>>)
    requires IsSquare(a, |a|) && IsSquare(b, |a|)
  {
    seq(|a|, i requires 0 <= i < |a| =>
      seq(|a|, j requires 0 <= j < |a| => Dot(a[i], Column(b, j))))
  }

  ghost predicate IsSymmetric(m: seq<seq<int>>)
    requires IsSquare(m, |m|)
  {
    forall i, j :: 0 <= i < |m| && 0 <= j < |m| ==> m[i][j] == m[j][i]
  }

  /** A 0/1 matrix with exactly one 1 in every row and in every column. */
  ghost predicate IsPermutationMatrix(m: seq<seq<int>>)
  {
    && IsSquare(m, |m|)
    && (forall i, j :: 0 <= i < |m| && 0 <= j < |m| ==> m[i][j] == 0 || m[i][j] == 1)
    && (forall i :: 0 <= i < |m| ==> Count(m[i], 1) == 1)
    && (forall j :: 0 <= j < |m| ==> Count(Column(m, j), 1) == 1)
  }

  /** A dot product against a vector that is zero outside position `p`
      picks out the entry at `p`. */
  lemma {:induction false} DotSingle(u: seq<int>, v: seq<int>, p: nat)
    requires |u| == |v| && p < |u|
    requires forall k :: 0 <= k < |u| && k != p ==> u[k] == 0
    ensures Dot(u, v) == u[p] * v[p]
  {
    var n := |u|;
    if p < n - 1 {
      DotSingle(u[..n - 1], v[..n - 1], p);
    } else {
      DotZero(u[..n - 1], v[..n - 1]);
    }
  }

  /** The zero vector is orthogonal to every vector. */
  lemma {:induction false} DotZero(u: seq<int>, v: seq<int>)
    requires |u| == |v|
    requires forall k :: 0 <= k < |u| ==> u[k] == 0
    ensures Dot(u, v) == 0
  {
    if u != [] {
      DotZero(u[..|u| - 1], v[..|v| - 1]);
    }
  }

  /** The contents of a 2-D array, row by row. */
  ghost predicate Holds(a: array2<int>, m: seq<seq<int>>)
    reads a
  {
    && a.Length0 == |m|
    && (forall i :: 0 <= i < |m| ==> |m[i]| == a.Length1)
    && (forall i, j :: 0 <= i < a.Length0 && 0 <= j < a.Length1 ==> a[i, j] == m[i][j])
  }

  /** `np.eye(size, dtype=int)`: a fresh array holding the identity matrix. */
  method Eye(size: nat) returns (a: array2<int>)
    ensures fresh(a) && a.Length0 == size && a.Length1 == size
    ensures Holds(a, Identity(size))
  {
    a := new int[size, size]((i, j) => if i == j then 1 else 0);
  }
}
