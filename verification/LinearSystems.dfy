/**
 What elimination says about linear systems: with a pivot in every column the transform solves
 them, and otherwise two different vectors have the same image.
 */
module LinearSystems {
  import opened GaloisField
  import opened LinearAlgebra
  import opened Elimination

  /** The only nonzero terms of the sum are at i and j. */
  lemma SumPair(n: nat, f: nat -> Byte, i: nat, j: nat)
    requires i < n && j < n && i != j
    requires forall k: nat :: k < n && k != i && k != j ==> f(k) == 0
    ensures Sum(n, f) == Add(f(i), f(j))
  {
    hide Add;
    var g := (k: nat) => if k == i then f(i) else 0;
    var h := (k: nat) => if k == i then 0 else f(k);
    AddZeroSelf(f(i));
    forall k: nat | k < n && k != i ensures f(k) == Add(g(k), h(k)) { AddZeroSelf(f(k)); }
    SumAdd(n, g, h, f);
    SumSingle(n, g, i);
    SumSingle(n, h, j);
  }

  lemma DotZero(v: Vector, x: nat -> Byte)
    requires forall k: nat :: k < |v| ==> v[k] == 0 || x(k) == 0
    ensures Dot(v, x) == 0
  {
    hide Add, Mul;
    forall k: nat | k < |v| ensures Terms(v, x)(k) == 0 { NoZeroDivisors(Coef(v, k), x(k)); }
    SumOfZeros(|v|, Terms(v, x));
  }

  /** The reduced matrix and the transform act alike. */
  lemma TransformActs(a: Matrix, mat: Matrix, inv: Matrix, i: nat, n: nat, k: nat, x: nat -> Byte)
    requires Invariant(a, mat, inv, i, n) && k < |mat|
    ensures Dot(mat[k], x) == Dot(inv[k], Products(a, x))
  {
    hide Dot;
    DotAssociates(inv[k], a, mat[k], x);
  }

  /** With a pivot in every column, the transform recovers x from its image under a. */
  lemma TransformSolves(a: Matrix, n: nat, x: nat -> Byte, y: nat -> Byte, i: nat)
    requires HasShape(a, |a|, n) && Eliminate(a, n).rank == n && i < n
    requires forall r: nat :: r < |a| ==> y(r) == Dot(a[r], x)
    ensures Dot(Eliminate(a, n).inv[i], y) == x(i)
  {
    hide Dot, Eliminate;
    var e := Eliminate(a, n);
    EliminateInvariant(a, n);
    TransformActs(a, e.mat, e.inv, n, n, i, x);
    DotUnit(e.mat[i], i, x);
    DotEqual(e.inv[i], y, Products(a, x));
  }

  /** Where column i has no pivot: minus the reduced column, with a one at i. */
  function KernelVector(mat: Matrix, i: nat): nat -> Byte {
    (k: nat) => if k < i then At(mat, k, i) else Delta(k, i)
  }

  lemma KernelVectorInReduced(mat: Matrix, i: nat, n: nat)
    requires HasShape(mat, |mat|, n) && i < n && i <= |mat| && UnitColumns(mat, i)
    requires forall r :: i <= r < |mat| ==> mat[r][i] == 0
    ensures InKernel(mat, KernelVector(mat, i))
  {
    hide Add, Mul;
    var x := KernelVector(mat, i);
    forall k | 0 <= k < |mat|
      ensures Dot(mat[k], x) == 0
    {
      var f := Terms(mat[k], x);
      if k < i {
        forall j: nat | j < n && j != k && j != i
          ensures f(j) == 0
        {
          NoZeroDivisors(mat[k][j], x(j));
          assert if j < i then mat[k][j] == Delta(k, j) else x(j) == Delta(j, i);
        }
        SumPair(n, f, k, i);
        assert mat[k][k] == Delta(k, k) && x(k) == mat[k][i];
        MulOneLeft(mat[k][i]);
        MulOneRight(mat[k][i]);
        AddZeroSelf(mat[k][i]);
      } else {
        DotZero(mat[k], x);
      }
    }
  }

  /** A column without a pivot yields a nonzero vector that a sends to zero. */
  lemma MissingPivot(a: Matrix, n: nat)
    requires HasShape(a, |a|, n) && Eliminate(a, n).rank < n
    ensures var e := Eliminate(a, n);
            InKernel(a, KernelVector(e.mat, e.rank)) && KernelVector(e.mat, e.rank)(e.rank) == 1
  {
    hide Dot, Eliminate;
    var e := Eliminate(a, n);
    EliminateInvariant(a, n);
    KernelVectorInReduced(e.mat, e.rank, n);
    var x := KernelVector(e.mat, e.rank);
    forall k | 0 <= k < |a|
      ensures Dot(e.inv[k], Products(a, x)) == 0
    {
      TransformActs(a, e.mat, e.inv, e.rank, n, k, x);
      assert Dot(e.mat[k], x) == 0;
    }
    assert InKernel(e.inv, Products(a, x));
    forall r: nat | r < |a| ensures Dot(a[r], x) == 0 { assert Products(a, x)(r) == 0; }
  }

  /** Elimination finds a pivot in every column exactly if only zero is sent to zero. */
  lemma FullRankIffTrivialKernel(a: Matrix, n: nat)
    requires HasShape(a, |a|, n)
    ensures Eliminate(a, n).rank == n <==> TrivialKernel(a, n)
  {
    hide Dot, Eliminate, KernelVector;
    var e := Eliminate(a, n);
    if e.rank < n {
      MissingPivot(a, n);
    } else {
      forall x: nat -> Byte, k: nat | InKernel(a, x) && k < n
        ensures x(k) == 0
      {
        TransformSolves(a, n, x, (r: nat) => 0, k);
        DotZero(e.inv[k], (r: nat) => 0);
      }
    }
  }
}
