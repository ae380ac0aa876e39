/**
 Gauss-Jordan elimination on values. Eliminate is the textbook algorithm on whole rows; the
 in-place method of module FiniteField is proved equal to it. The main results say what the
 transform matrix is good for: it solves every consistent system when all columns get a pivot,
 and a column without a pivot yields a nonzero vector that the matrix sends to zero.
 */
module Elimination {
  import opened GaloisField
  import opened LinearAlgebra

  datatype Reduced = Reduced(mat: Matrix, inv: Matrix, rank: nat)

  /** The first row from `from` on that has a nonzero entry in column col, or |m|. */
  function PivotRow(m: Matrix, col: nat, from: nat): (p: nat)
    requires from <= |m|
    ensures from <= p <= |m|
    ensures p < |m| ==> At(m, p, col) != 0
    ensures forall r :: from <= r < p ==> At(m, r, col) == 0
    decreases |m| - from
  {
    if from == |m| || At(m, from, col) != 0 then from else PivotRow(m, col, from + 1)
  }

  // ----- row operations -----

  function Swap<T>(s: seq<T>, a: nat, b: nat): (r: seq<T>)
    requires a < |s| && b < |s|
    ensures |r| == |s|
  {
    s[a := s[b]][b := s[a]]
  }

  function ScaleRow(m: Matrix, i: nat, c: Byte): Matrix
    requires i < |m|
  {
    m[i := Scaled(m[i], c)]
  }

  /** Adds f[k] times row i to every other row k. */
  function ClearColumn(m: Matrix, i: nat, f: Vector): (r: Matrix)
    requires i < |m| == |f|
    requires forall k :: 0 <= k < |m| ==> |m[k]| == |m[i]|
    ensures HasShape(r, |m|, |m[i]|)
  {
    seq(|m|, k requires 0 <= k < |m| => if k == i then m[i] else AddScaled(m[k], m[i], f[k]))
  }

  function ColumnVector(m: Matrix, col: nat): (v: Vector)
    ensures |v| == |m|
  {
    seq(|m|, (r: nat) => At(m, r, col))
  }

  /** Swap rows i and p, scale row i by c, then add f[k] times row i to every other row k. */
  function RowStep(m: Matrix, i: nat, p: nat, c: Byte, f: Vector): (r: Matrix)
    requires i < |m| == |f| && p < |m|
    requires forall k :: 0 <= k < |m| ==> |m[k]| == |m[0]|
    ensures HasShape(r, |m|, |m[0]|)
  {
    ClearColumn(ScaleRow(Swap(m, i, p), i, c), i, f)
  }

  /** The row that a swap of rows i and p moves to position k. */
  function Source(i: nat, p: nat, k: nat): nat {
    if k == i then p else if k == p then i else k
  }

  // ----- elimination -----

  function Scale(mat: Matrix, i: nat, p: nat): Byte {
    DivElem(1, At(mat, p, i))
  }

  function Factors(mat: Matrix, i: nat, p: nat): (f: Vector)
    requires i < |mat| && p < |mat|
    ensures |f| == |mat|
  {
    ColumnVector(ScaleRow(Swap(mat, i, p), i, Scale(mat, i, p)), i)
  }

  function EliminateFrom(mat: Matrix, inv: Matrix, i: nat, n: nat): (e: Reduced)
    requires HasShape(mat, |mat|, n) && HasShape(inv, |mat|, |mat|) && i <= n && i <= |mat|
    ensures HasShape(e.mat, |mat|, n) && HasShape(e.inv, |mat|, |mat|) && i <= e.rank <= n && e.rank <= |mat|
    decreases n - i
  {
    if i == n then Reduced(mat, inv, n)
    else
      var p := PivotRow(mat, i, i);
      if p == |mat| then Reduced(mat, inv, i)
      else
        var c, f := Scale(mat, i, p), Factors(mat, i, p);
        EliminateFrom(RowStep(mat, i, p, c, f), RowStep(inv, i, p, c, f), i + 1, n)
  }

  /** Elimination of a matrix with n columns, starting the transform at the identity. */
  function Eliminate(a: Matrix, n: nat): (e: Reduced)
    requires HasShape(a, |a|, n)
    ensures HasShape(e.mat, |a|, n) && HasShape(e.inv, |a|, |a|) && e.rank <= n && e.rank <= |a|
  {
    EliminateFrom(a, Identity(|a|), 0, n)
  }

  // ----- the invariant of elimination -----

  /** inv times a equals mat. */
  ghost predicate Tracks(a: Matrix, mat: Matrix, inv: Matrix) {
    |mat| == |inv| &&
    forall k, j :: 0 <= k < |mat| && 0 <= j < |mat[k]| ==> mat[k][j] == Dot(inv[k], Column(a, j))
  }

  ghost predicate InKernel(m: Matrix, x: nat -> Byte) {
    forall k :: 0 <= k < |m| ==> Dot(m[k], x) == 0
  }

  /** Only the zero vector is sent to zero. */
  ghost predicate TrivialKernel(m: Matrix, cols: nat) {
    forall x: nat -> Byte :: InKernel(m, x) ==> forall k: nat :: k < cols ==> x(k) == 0
  }

  /** The columns before i are columns of the identity. */
  predicate UnitColumns(m: Matrix, i: nat) {
    forall k, j :: 0 <= k < |m| && 0 <= j < i && j < |m[k]| ==> m[k][j] == Delta(k, j)
  }

  ghost predicate Invariant(a: Matrix, mat: Matrix, inv: Matrix, i: nat, n: nat) {
    HasShape(a, |mat|, n) && HasShape(mat, |mat|, n) && HasShape(inv, |mat|, |mat|) && i <= n && i <= |mat| &&
    Tracks(a, mat, inv) && TrivialKernel(inv, |mat|) && UnitColumns(mat, i)
  }

  // ----- what a row step does -----

  lemma RowStepRow(m: Matrix, i: nat, p: nat, c: Byte, f: Vector, k: nat)
    requires i < |m| == |f| && p < |m| && k < |m|
    requires forall k :: 0 <= k < |m| ==> |m[k]| == |m[0]|
    ensures RowStep(m, i, p, c, f)[k]
         == if k == i then Scaled(m[p], c) else AddScaled(m[Source(i, p, k)], Scaled(m[p], c), f[k])
  {
    hide Add, Mul;
  }

  lemma RowStepDot(m: Matrix, i: nat, p: nat, c: Byte, f: Vector, k: nat, x: nat -> Byte)
    requires i < |m| == |f| && p < |m| && k < |m|
    requires forall k :: 0 <= k < |m| ==> |m[k]| == |m[0]|
    ensures Dot(RowStep(m, i, p, c, f)[k], x)
         == if k == i then Mul(c, Dot(m[p], x))
            else Add(Dot(m[Source(i, p, k)], x), Mul(f[k], Mul(c, Dot(m[p], x))))
  {
    hide Add, Mul, Dot, RowStep;
    RowStepRow(m, i, p, c, f, k);
    DotScaled(m[p], c, x);
    if k != i { DotAddScaled(m[Source(i, p, k)], Scaled(m[p], c), f[k], x); }
  }

  lemma RowStepKeepsTracks(a: Matrix, mat: Matrix, inv: Matrix, i: nat, p: nat, c: Byte, f: Vector)
    requires i < |mat| == |f| && p < |mat|
    requires HasShape(mat, |mat|, |mat[0]|) && HasShape(inv, |mat|, |mat|)
    requires Tracks(a, mat, inv)
    ensures Tracks(a, RowStep(mat, i, p, c, f), RowStep(inv, i, p, c, f))
  {
    hide Add, Mul, Dot, RowStep;
    var mat', inv' := RowStep(mat, i, p, c, f), RowStep(inv, i, p, c, f);
    forall k, j | 0 <= k < |mat'| && 0 <= j < |mat'[k]|
      ensures mat'[k][j] == Dot(inv'[k], Column(a, j))
    {
      RowStepRow(mat, i, p, c, f, k);
      RowStepDot(inv, i, p, c, f, k, Column(a, j));
      assert mat[p][j] == Dot(inv[p], Column(a, j));
      assert mat[Source(i, p, k)][j] == Dot(inv[Source(i, p, k)], Column(a, j));
    }
  }

  lemma RowStepKeepsKernel(m: Matrix, i: nat, p: nat, c: Byte, f: Vector, x: nat -> Byte)
    requires i < |m| == |f| && p < |m| && c != 0
    requires forall k :: 0 <= k < |m| ==> |m[k]| == |m[0]|
    ensures InKernel(RowStep(m, i, p, c, f), x) <==> InKernel(m, x)
  {
    hide Add, Mul, Dot, RowStep;
    var m' := RowStep(m, i, p, c, f);
    var d := Dot(m[p], x);
    NoZeroDivisors(c, d);
    RowStepDot(m, i, p, c, f, i, x);
    if d == 0 {
      forall k | 0 <= k < |m|
        ensures k != i ==> Dot(m'[k], x) == Dot(m[Source(i, p, k)], x)
      {
        RowStepDot(m, i, p, c, f, k, x);
        NoZeroDivisors(f[k], 0);
        AddZeroSelf(Dot(m[Source(i, p, k)], x));
      }
      forall k | 0 <= k < |m| && InKernel(m', x)
        ensures Dot(m[k], x) == 0
      {
        var k' := Source(i, p, k);
        assert Source(i, p, k') == k;
        assert Dot(m'[k'], x) == 0;
      }
    }
  }

  lemma PivotStep(a: Matrix, mat: Matrix, inv: Matrix, i: nat, n: nat)
    requires Invariant(a, mat, inv, i, n) && i < n && PivotRow(mat, i, i) < |mat|
    ensures var p := PivotRow(mat, i, i);
            var c, f := Scale(mat, i, p), Factors(mat, i, p);
            Invariant(a, RowStep(mat, i, p, c, f), RowStep(inv, i, p, c, f), i + 1, n)
  {
    hide Add, Mul, Inverse, Dot, RowStep;
    var p := PivotRow(mat, i, i);
    var c, f := Scale(mat, i, p), Factors(mat, i, p);
    PivotScale(mat[p][i]);
    RowStepKeepsTracks(a, mat, inv, i, p, c, f);
    forall x: nat -> Byte | InKernel(RowStep(inv, i, p, c, f), x)
      ensures forall k: nat :: k < |mat| ==> x(k) == 0
    {
      RowStepKeepsKernel(inv, i, p, c, f, x);
    }
    PivotStepColumns(mat, i, p, n);
  }

  lemma PivotScale(y: Byte)
    requires y != 0
    ensures DivElem(1, y) != 0 && Mul(DivElem(1, y), y) == 1
  {
    hide Mul, Inverse;
    MulOneLeft(Inverse(y));
    MulInverse(y);
    NoZeroDivisors(Inverse(y), y);
  }

  lemma PivotStepColumns(mat: Matrix, i: nat, p: nat, n: nat)
    requires HasShape(mat, |mat|, n) && UnitColumns(mat, i)
    requires i < n && i <= p < |mat| && mat[p][i] != 0
    ensures UnitColumns(RowStep(mat, i, p, Scale(mat, i, p), Factors(mat, i, p)), i + 1)
  {
    hide Add, Mul, Inverse, RowStep;
    var c, f := Scale(mat, i, p), Factors(mat, i, p);
    var m' := RowStep(mat, i, p, c, f);
    PivotScale(mat[p][i]);
    forall k, j | 0 <= k < |m'| && 0 <= j < i + 1 && j < |m'[k]|
      ensures m'[k][j] == Delta(k, j)
    {
      RowStepRow(mat, i, p, c, f, k);
      var s := Source(i, p, k);
      NoZeroDivisors(c, 0);
      NoZeroDivisors(f[k], 0);
      AddZeroSelf(mat[s][j]);
      if j == i && k != i {
        assert f[k] == mat[s][i];
        MulOneRight(f[k]);
      }
    }
  }

  lemma {:induction false} EliminateFromInvariant(a: Matrix, mat: Matrix, inv: Matrix, i: nat, n: nat)
    requires Invariant(a, mat, inv, i, n)
    ensures var e := EliminateFrom(mat, inv, i, n);
            Invariant(a, e.mat, e.inv, e.rank, n) &&
            (e.rank < n ==> forall r :: e.rank <= r < |e.mat| ==> e.mat[r][e.rank] == 0)
    decreases n - i
  {
    hide Add, Mul, RowStep, Dot, Scale, Factors;
    if i < n {
      var p := PivotRow(mat, i, i);
      if p == |mat| {
        assert forall r :: i <= r < |mat| ==> At(mat, r, i) == mat[r][i];
      } else {
        var c, f := Scale(mat, i, p), Factors(mat, i, p);
        PivotStep(a, mat, inv, i, n);
        EliminateFromInvariant(a, RowStep(mat, i, p, c, f), RowStep(inv, i, p, c, f), i + 1, n);
      }
    }
  }

  lemma InvariantAtStart(a: Matrix, n: nat)
    requires HasShape(a, |a|, n)
    ensures Invariant(a, a, Identity(|a|), 0, n)
  {
    hide Dot;
    var id := Identity(|a|);
    forall k, j | 0 <= k < |a| && 0 <= j < |a[k]|
      ensures a[k][j] == Dot(id[k], Column(a, j))
    {
      DotUnit(id[k], k, Column(a, j));
    }
    forall x: nat -> Byte, k: nat | InKernel(id, x) && k < |a|
      ensures x(k) == 0
    {
      DotUnit(id[k], k, x);
    }
  }

  /** What elimination leaves: the transform applied to a is the reduced matrix, the transform is
      invertible, and the columns before the rank are unit columns; a missing pivot means that the
      column at the rank is zero from that row on. */
  lemma EliminateInvariant(a: Matrix, n: nat)
    requires HasShape(a, |a|, n)
    ensures var e := Eliminate(a, n);
            Invariant(a, e.mat, e.inv, e.rank, n) &&
            (e.rank < n ==> forall r :: e.rank <= r < |e.mat| ==> e.mat[r][e.rank] == 0)
  {
    InvariantAtStart(a, n);
    EliminateFromInvariant(a, a, Identity(|a|), 0, n);
  }
}
