/**
 The rank of a matrix as the dimension of its row space, and forward elimination, which finds it.
 */
module Rank {
  import opened GaloisField
  import opened LinearAlgebra
  import opened Elimination
  import opened LinearSystems

  // ----- spans and dimension -----

  /** Row k of x is the combination of the rows of y with the coefficients c[k]. */
  ghost predicate Combines(x: Matrix, c: Matrix, y: Matrix, n: nat) {
    HasShape(x, |x|, n) && HasShape(y, |y|, n) && HasShape(c, |x|, |y|) &&
    forall k, j: nat :: 0 <= k < |x| && j < n ==> x[k][j] == Dot(c[k], Column(y, j))
  }

  /** Every row of x is a combination of the rows of y. */
  ghost predicate SpannedBy(x: Matrix, y: Matrix, n: nat) {
    exists c: Matrix :: Combines(x, c, y, n)
  }

  /** No combination of the rows vanishes but the trivial one. */
  ghost predicate Independent(b: Matrix, n: nat) {
    forall c: Vector :: |c| == |b| && (forall j: nat :: j < n ==> Dot(c, Column(b, j)) == 0) ==>
      forall k :: 0 <= k < |c| ==> c[k] == 0
  }

  /** Some r independent rows span the same space as the rows of a. */
  ghost predicate IsRank(a: Matrix, n: nat, r: nat) {
    exists b: Matrix :: IsBasis(b, a, n) && |b| == r
  }

  ghost predicate IsBasis(b: Matrix, a: Matrix, n: nat) {
    Independent(b, n) && SpannedBy(b, a, n) && SpannedBy(a, b, n)
  }

  lemma CombinesTransitive(x: Matrix, c: Matrix, y: Matrix, d: Matrix, z: Matrix, n: nat)
    requires Combines(x, c, y, n) && Combines(y, d, z, n)
    ensures SpannedBy(x, z, n)
  {
    hide Dot;
    var e := seq(|x|, k requires 0 <= k < |x| => seq(|z|, (l: nat) => Dot(c[k], Column(d, l))));
    forall k, j: nat | 0 <= k < |x| && j < n
      ensures x[k][j] == Dot(e[k], Column(z, j))
    {
      DotAssociates(c[k], d, e[k], Column(z, j));
      DotEqual(c[k], Column(y, j), Products(d, Column(z, j)));
    }
    assert Combines(x, e, z, n);
  }

  lemma SpannedByTransitive(x: Matrix, y: Matrix, z: Matrix, n: nat)
    requires SpannedBy(x, y, n) && SpannedBy(y, z, n)
    ensures SpannedBy(x, z, n)
  {
    var c: Matrix :| Combines(x, c, y, n);
    var d: Matrix :| Combines(y, d, z, n);
    CombinesTransitive(x, c, y, d, z, n);
  }

  function Transpose(c: Matrix, rows: nat, cols: nat): (t: Matrix)
    ensures HasShape(t, cols, rows)
  {
    seq(cols, (l: nat) => seq(rows, (k: nat) => At(c, k, l)))
  }

  lemma DotTransposed(c: Matrix, rows: nat, cols: nat, l: nat, x: nat -> Byte, v: Vector)
    requires HasShape(c, rows, cols) && l < cols && |v| == rows && forall k: nat :: k < rows ==> v[k] == x(k)
    ensures Dot(Transpose(c, rows, cols)[l], x) == Dot(v, Column(c, l))
  {
    hide Mul;
    var row := Transpose(c, rows, cols)[l];
    forall k: nat | k < rows ensures Terms(row, x)(k) == Terms(v, Column(c, l))(k) {
      ColumnTerm(v, c, k, l);
      MulCommutes(row[k], x(k));
    }
    SumEqual(rows, Terms(row, x), Terms(v, Column(c, l)));
  }

  /** More rows than a spanning set has are dependent. */
  lemma Dependency(b: Matrix, y: Matrix, n: nat) returns (v: Vector, i: nat)
    requires SpannedBy(b, y, n) && |y| < |b|
    ensures |v| == |b| && i < |v| && v[i] == 1 && forall j: nat :: j < n ==> Dot(v, Column(b, j)) == 0
  {
    hide Dot, Eliminate, Transpose;
    var c: Matrix :| Combines(b, c, y, n);
    var r, s := |b|, |y|;
    var t := Transpose(c, r, s);
    MissingPivot(t, r);
    var x := KernelVector(Eliminate(t, r).mat, Eliminate(t, r).rank);
    v, i := seq(r, (k: nat) => x(k)), Eliminate(t, r).rank;
    var zero := seq(s, (l: nat) => 0 as Byte);
    forall l: nat | l < s ensures Dot(v, Column(c, l)) == 0 {
      DotTransposed(c, r, s, l, x, v);
      assert Dot(t[l], x) == 0;
    }
    forall j: nat | j < n ensures Dot(v, Column(b, j)) == 0 {
      DotAssociates(v, c, zero, Column(y, j));
      DotZero(zero, Column(y, j));
      DotEqual(v, Column(b, j), Products(c, Column(y, j)));
    }
  }

  lemma IndependentAtMost(b: Matrix, y: Matrix, n: nat)
    requires Independent(b, n) && SpannedBy(b, y, n)
    ensures |b| <= |y|
  {
    hide Dot, SpannedBy;
    if |y| < |b| {
      var v, i := Dependency(b, y, n);
    }
  }

  /** The rank is a number: a matrix has only one. */
  lemma RankIsUnique(a: Matrix, n: nat, r: nat, s: nat)
    requires IsRank(a, n, r) && IsRank(a, n, s)
    ensures r == s
  {
    hide SpannedBy, Independent;
    var b: Matrix :| IsBasis(b, a, n) && |b| == r;
    var c: Matrix :| IsBasis(c, a, n) && |c| == s;
    SpannedByTransitive(b, a, c, n);
    SpannedByTransitive(c, a, b, n);
    IndependentAtMost(b, c, n);
    IndependentAtMost(c, b, n);
  }

  // ----- row steps keep the row space -----

  /** An invertible transform does not change the row space. */
  lemma TransformKeepsSpan(a: Matrix, mat: Matrix, inv: Matrix, n: nat)
    requires HasShape(a, |mat|, n) && HasShape(mat, |mat|, n) && HasShape(inv, |mat|, |mat|)
    requires Tracks(a, mat, inv) && TrivialKernel(inv, |mat|)
    ensures SpannedBy(mat, a, n) && SpannedBy(a, mat, n)
  {
    hide Dot, Eliminate;
    var m := |mat|;
    assert Combines(mat, inv, a, n);
    FullRankIffTrivialKernel(inv, m);
    var back := Eliminate(inv, m).inv;
    forall k, j: nat | 0 <= k < m && j < n
      ensures a[k][j] == Dot(back[k], Column(mat, j))
    {
      TransformSolves(inv, m, Column(a, j), Column(mat, j), k);
    }
    assert Combines(a, back[..m], mat, n);
  }

  lemma DotPrefix(v: Vector, i: nat, x: nat -> Byte, y: nat -> Byte)
    requires i <= |v| && (forall k: nat :: k < i ==> x(k) == y(k)) && forall k: nat :: i <= k < |v| ==> x(k) == 0
    ensures Dot(v, x) == Dot(v[..i], y)
  {
    hide Add, Mul;
    forall k: nat | k < i ensures Terms(v, x)(k) == Terms(v[..i], y)(k) {}
    forall k: nat | i <= k < |v| ensures Terms(v, x)(k) == 0 { NoZeroDivisors(v[k], 0); }
    SumEqual(i, Terms(v, x), Terms(v[..i], y));
    SumStops(|v|, i, Terms(v, x));
  }

  lemma {:induction false} SumStops(n: nat, i: nat, f: nat -> Byte)
    requires i <= n && forall k: nat :: i <= k < n ==> f(k) == 0
    ensures Sum(n, f) == Sum(i, f)
  {
    hide Add;
    if i < n {
      SumStops(n - 1, i, f);
      AddZeroSelf(Sum(i, f));
    }
  }

  /** Zero rows at the end contribute nothing to the span. */
  lemma DropZeroRows(m: Matrix, i: nat, n: nat)
    requires HasShape(m, |m|, n) && i <= |m|
    requires forall k, j: nat :: i <= k < |m| && j < n ==> m[k][j] == 0
    ensures SpannedBy(m, m[..i], n) && SpannedBy(m[..i], m, n)
  {
    hide Dot;
    var id := Identity(|m|);
    var c := seq(|m|, k requires 0 <= k < |m| => id[k][..i]);
    forall k, j: nat | 0 <= k < |m| && j < n
      ensures m[k][j] == Dot(id[k], Column(m, j)) == Dot(c[k], Column(m[..i], j))
    {
      DotUnit(id[k], k, Column(m, j));
      DotPrefix(id[k], i, Column(m, j), Column(m[..i], j));
    }
    assert Combines(m, c, m[..i], n);
    assert Combines(m[..i], id[..i], m, n);
  }

  // ----- forward elimination -----

  /** What forward elimination adds to the rows below the pivot row. */
  function ForwardFactors(m: Matrix, i: nat, p: nat, r: nat): (f: Vector)
    requires i < |m| && p < |m|
    ensures |f| == |m|
  {
    var s := ScaleRow(Swap(m, i, p), i, DivElem(1, At(m, p, r)));
    seq(|m|, (k: nat) => if k > i then At(s, k, r) else 0)
  }

  function ForwardStep(m: Matrix, i: nat, p: nat, r: nat): (q: Matrix)
    requires i < |m| && p < |m| && forall k :: 0 <= k < |m| ==> |m[k]| == |m[0]|
    ensures HasShape(q, |m|, |m[0]|)
  {
    RowStep(m, i, p, DivElem(1, At(m, p, r)), ForwardFactors(m, i, p, r))
  }

  function MinOf(a: nat, b: nat): nat { if a <= b then a else b }

  /** i pivots have been found in columns up to r; returns the number of all pivots. The column is
      left only when a search in it has failed. */
  function RankFrom(m: Matrix, i: nat, r: nat, n: nat): (rank: nat)
    requires HasShape(m, |m|, n) && i <= MinOf(|m|, n) && (r < n || i == MinOf(|m|, n))
    decreases |m| - i, n - r
  {
    if i == MinOf(|m|, n) then i
    else
      var p := PivotRow(m, r, i);
      if p < |m| then RankFrom(ForwardStep(m, i, p, r), i + 1, r, n)
      else if r + 1 >= n then i
      else RankFrom(m, i, r + 1, n)
  }

  function RankOf(m: Matrix, n: nat): nat
    requires HasShape(m, |m|, n)
  {
    RankFrom(m, 0, 0, n)
  }

  // ----- echelon form -----

  /** The pivots of the first i rows: ones, with zeros below, in increasing columns up to r; the
      other rows are zero before column r. */
  ghost predicate Echelon(m: Matrix, piv: seq<nat>, r: nat, n: nat) {
    HasShape(m, |m|, n) && |piv| <= |m| &&
    (forall t :: 0 <= t < |piv| ==> piv[t] <= r && piv[t] < n && m[t][piv[t]] == 1) &&
    (forall t, s :: 0 <= t < |piv| && t < s < |m| ==> m[s][piv[t]] == 0) &&
    (forall t, u :: 0 <= t < u < |piv| ==> piv[t] < piv[u]) &&
    (forall s, j :: |piv| <= s < |m| && 0 <= j < r && j < n ==> m[s][j] == 0)
  }

  /** m is a in echelon form so far. */
  ghost predicate Reached(a: Matrix, m: Matrix, inv: Matrix, piv: seq<nat>, r: nat, n: nat) {
    Echelon(m, piv, r, n) && HasShape(a, |m|, n) && HasShape(inv, |m|, |m|) && Tracks(a, m, inv) &&
    TrivialKernel(inv, |m|)
  }

  lemma ForwardStepRow(m: Matrix, i: nat, p: nat, r: nat, n: nat, k: nat)
    requires HasShape(m, |m|, n) && i <= p < |m| && k < |m| && r < n && m[p][r] != 0
    ensures var c := DivElem(1, m[p][r]);
            var q := Scaled(m[p], c);
            q[r] == 1 &&
            ForwardStep(m, i, p, r)[k] ==
            if k < i then m[k] else if k == i then q
            else AddScaled(m[Source(i, p, k)], q, m[Source(i, p, k)][r])
  {
    hide Add, Mul, Inverse, RowStep;
    var c, f := DivElem(1, At(m, p, r)), ForwardFactors(m, i, p, r);
    PivotScale(m[p][r]);
    RowStepRow(m, i, p, c, f, k);
    if k < i { AddScaledZero(m[k], Scaled(m[p], c)); }
  }

  lemma ForwardKeepsEchelon(m: Matrix, piv: seq<nat>, p: nat, r: nat, n: nat)
    requires Echelon(m, piv, r, n) && |piv| <= p < |m| && r < n && m[p][r] != 0
    ensures Echelon(ForwardStep(m, |piv|, p, r), piv + [r], r, n)
  {
    hide Add, Mul, Inverse, ForwardStep, Scaled, AddScaled;
    var i, m', piv' := |piv|, ForwardStep(m, |piv|, p, r), piv + [r];
    forall t | 0 <= t < i ensures piv[t] < r { assert m[p][piv[t]] == 0; }
    forall k, j | 0 <= k < |m| && 0 <= j < n
      ensures k < i ==> m'[k][j] == m[k][j]
      ensures k == i && j == r ==> m'[k][j] == 1
      ensures k == i && m[p][j] == 0 ==> m'[k][j] == 0
      ensures k > i && m[p][j] == 0 && m[Source(i, p, k)][j] == 0 ==> m'[k][j] == 0
      ensures k > i && j == r ==> m'[k][j] == 0
    {
      ForwardStepRow(m, i, p, r, n, k);
      var c, src := DivElem(1, m[p][r]), m[Source(i, p, k)];
      ScaledAt(m[p], c, j);
      AddScaledAt(src, Scaled(m[p], c), src[r], j);
      NoZeroDivisors(c, 0);
      NoZeroDivisors(src[r], 0);
      MulOneRight(src[r]);
      AddZeroSelf(src[j]);
    }
    forall s, j | i + 1 <= s < |m| && 0 <= j < r ensures m'[s][j] == 0 {
      assert m[p][j] == 0 && m[Source(i, p, s)][j] == 0;
    }
    forall t, s | 0 <= t < i && t < s < |m| ensures m'[s][piv[t]] == 0 {
      assert m[p][piv[t]] == 0 && m[Source(i, p, s)][piv[t]] == 0;
    }
  }

  lemma ScaledAt(v: Vector, c: Byte, j: nat)
    requires j < |v|
    ensures Scaled(v, c)[j] == Mul(c, v[j])
  {
  }

  lemma AddScaledAt(z: Vector, x: Vector, c: Byte, j: nat)
    requires |z| == |x| && j < |z|
    ensures AddScaled(z, x, c)[j] == Add(z[j], Mul(c, x[j]))
  {
  }

  lemma ForwardKeepsReached(a: Matrix, m: Matrix, inv: Matrix, piv: seq<nat>, p: nat, r: nat, n: nat)
    requires Reached(a, m, inv, piv, r, n) && |piv| <= p < |m| && r < n && m[p][r] != 0
    ensures Reached(a, ForwardStep(m, |piv|, p, r),
                    RowStep(inv, |piv|, p, DivElem(1, At(m, p, r)), ForwardFactors(m, |piv|, p, r)), piv + [r], r, n)
  {
    hide Add, Mul, Inverse, Dot, RowStep, Echelon, ForwardFactors;
    EchelonShape(m, piv, r, n);
    var i, c, f := |piv|, DivElem(1, At(m, p, r)), ForwardFactors(m, |piv|, p, r);
    ForwardKeepsEchelon(m, piv, p, r, n);
    PivotScale(m[p][r]);
    RowStepKeepsTracks(a, m, inv, i, p, c, f);
    forall x: nat -> Byte | InKernel(RowStep(inv, i, p, c, f), x)
      ensures forall k: nat :: k < |m| ==> x(k) == 0
    {
      RowStepKeepsKernel(inv, i, p, c, f, x);
    }
  }

  lemma EchelonShape(m: Matrix, piv: seq<nat>, r: nat, n: nat)
    requires Echelon(m, piv, r, n)
    ensures HasShape(m, |m|, n) && |piv| <= |m|
  {
  }

  /** The rows from i on are zero before column r. */
  predicate ZeroRows(m: Matrix, i: nat, r: nat) {
    forall s, j :: i <= s < |m| && 0 <= j < r && j < |m[s]| ==> m[s][j] == 0
  }

  lemma ForwardKeepsZeroRows(m: Matrix, i: nat, p: nat, r: nat, n: nat)
    requires HasShape(m, |m|, n) && i <= p < |m| && r < n && m[p][r] != 0 && ZeroRows(m, i, r)
    ensures ZeroRows(ForwardStep(m, i, p, r), i + 1, r)
  {
    hide Add, Mul, Inverse, ForwardStep, Scaled, AddScaled;
    forall k, j | i + 1 <= k < |m| && 0 <= j < r
      ensures ForwardStep(m, i, p, r)[k][j] == 0
    {
      ForwardStepRow(m, i, p, r, n, k);
      var c, src := DivElem(1, m[p][r]), m[Source(i, p, k)];
      ScaledAt(m[p], c, j);
      AddScaledAt(src, Scaled(m[p], c), src[r], j);
      NoZeroDivisors(c, 0);
      NoZeroDivisors(src[r], 0);
      AddZeroSelf(src[j]);
    }
  }

  // ----- what echelon form says about the rank -----

  lemma {:induction false} EchelonIndependentAt(m: Matrix, piv: seq<nat>, r: nat, n: nat, c: Vector, t: nat)
    requires Echelon(m, piv, r, n) && |c| == |piv| && t <= |c|
    requires forall j: nat :: j < n ==> Dot(c, Column(m[..|piv|], j)) == 0
    ensures forall k :: 0 <= k < t ==> c[k] == 0
  {
    hide Add, Mul;
    if t > 0 {
      EchelonIndependentAt(m, piv, r, n, c, t - 1);
      var b, j := m[..|piv|], piv[t - 1];
      var f := Terms(c, Column(b, j));
      forall k: nat | k < |c| && k != t - 1 ensures f(k) == 0 {
        ColumnTerm(c, b, k, j);
        NoZeroDivisors(c[k], b[k][j]);
      }
      SumSingle(|c|, f, t - 1);
      ColumnTerm(c, b, t - 1, j);
      MulOneRight(c[t - 1]);
    }
  }

  lemma {:induction false} PivotsSpread(piv: seq<nat>, n: nat, t: nat)
    requires |piv| == n && t < n && (forall t :: 0 <= t < n ==> piv[t] < n)
    requires forall t, u :: 0 <= t < u < n ==> piv[t] < piv[u]
    ensures piv[t] == t
  {
    PivotsAbove(piv, t);
    PivotsBelow(piv, n, t);
  }

  lemma {:induction false} PivotsAbove(piv: seq<nat>, t: nat)
    requires t < |piv| && forall t, u :: 0 <= t < u < |piv| ==> piv[t] < piv[u]
    ensures piv[t] >= t
  {
    if t > 0 { PivotsAbove(piv, t - 1); }
  }

  lemma {:induction false} PivotsBelow(piv: seq<nat>, n: nat, t: nat)
    requires |piv| == n && t < n && (forall t :: 0 <= t < n ==> piv[t] < n)
    requires forall t, u :: 0 <= t < u < n ==> piv[t] < piv[u]
    ensures piv[t] <= t
    decreases n - t
  {
    if t < n - 1 { PivotsBelow(piv, n, t + 1); }
  }

  /** When nothing is left below the pivot rows, their number is the rank. */
  lemma EchelonRank(a: Matrix, m: Matrix, inv: Matrix, piv: seq<nat>, r: nat, n: nat)
    requires Reached(a, m, inv, piv, r, n)
    requires forall s, j: nat :: |piv| <= s < |m| && j < n ==> m[s][j] == 0
    ensures IsRank(a, n, |piv|)
  {
    hide Dot, Echelon, TrivialKernel, SpannedBy;
    EchelonShape(m, piv, r, n);
    var b := m[..|piv|];
    forall c: Vector | |c| == |b| && forall j: nat :: j < n ==> Dot(c, Column(b, j)) == 0
      ensures forall k :: 0 <= k < |c| ==> c[k] == 0
    {
      EchelonIndependentAt(m, piv, r, n, c, |c|);
    }
    TransformKeepsSpan(a, m, inv, n);
    DropZeroRows(m, |piv|, n);
    SpannedByTransitive(b, m, a, n);
    SpannedByTransitive(a, m, b, n);
    assert IsBasis(b, a, n);
  }

  lemma {:induction false} RankFromIsRank(a: Matrix, m: Matrix, inv: Matrix, piv: seq<nat>, r: nat, n: nat)
    requires Reached(a, m, inv, piv, r, n) && |piv| <= MinOf(|m|, n) && (r < n || |piv| == MinOf(|m|, n))
    ensures IsRank(a, n, RankFrom(m, |piv|, r, n))
    decreases |m| - |piv|, n - r
  {
    hide Dot, TrivialKernel, ForwardStep, IsRank, Tracks;
    var i := |piv|;
    if i == MinOf(|m|, n) {
      forall s, j: nat | i <= s < |m| && j < n ensures m[s][j] == 0 {
        PivotsSpread(piv, n, j);
        assert m[s][piv[j]] == 0;
      }
      EchelonRank(a, m, inv, piv, r, n);
    } else {
      var p := PivotRow(m, r, i);
      if p < |m| {
        ForwardKeepsReached(a, m, inv, piv, p, r, n);
        RankFromIsRank(a, ForwardStep(m, i, p, r),
          RowStep(inv, i, p, DivElem(1, At(m, p, r)), ForwardFactors(m, i, p, r)), piv + [r], r, n);
      } else {
        forall s, j | i <= s < |m| && 0 <= j < r + 1 && j < n ensures m[s][j] == 0 {
          assert j == r ==> At(m, s, r) == 0;
        }
        if r + 1 >= n {
          EchelonRank(a, m, inv, piv, r, n);
        } else {
          RankFromIsRank(a, m, inv, piv, r + 1, n);
        }
      }
    }
  }

  /** The rank routine returns the dimension of the row space, for every matrix. */
  lemma RankOfIsRank(a: Matrix, n: nat)
    requires HasShape(a, |a|, n)
    ensures IsRank(a, n, RankOf(a, n))
    ensures forall r: nat :: IsRank(a, n, r) ==> r == RankOf(a, n)
  {
    hide IsRank, RankFrom, Dot;
    InvariantAtStart(a, n);
    assert Reached(a, a, Identity(|a|), [], 0, n);
    RankFromIsRank(a, a, Identity(|a|), [], 0, n);
    forall r: nat | IsRank(a, n, r) ensures r == RankOf(a, n) { RankIsUnique(a, n, r, RankOf(a, n)); }
  }

  // ----- when the result of Gauss-Jordan elimination is the rank -----

  /** No nonzero vector that is zero from position r on is sent to zero: the first r columns are independent. */
  ghost predicate LeadingIndependent(a: Matrix, n: nat, r: nat) {
    forall x: nat -> Byte :: InKernel(a, x) && (forall k: nat :: r <= k < n ==> x(k) == 0) ==>
      forall k: nat :: k < n ==> x(k) == 0
  }

  lemma PivotCountAtMostRank(a: Matrix, n: nat, r: nat)
    requires HasShape(a, |a|, n) && IsRank(a, n, r)
    ensures Eliminate(a, n).rank <= r
  {
    hide Dot, Eliminate, SpannedBy;
    var e := Eliminate(a, n);
    EliminateInvariant(a, n);
    var piv := seq(e.rank, (t: nat) => t);
    assert Echelon(e.mat, piv, e.rank, n);
    var b := e.mat[..e.rank];
    forall c: Vector | |c| == |b| && forall j: nat :: j < n ==> Dot(c, Column(b, j)) == 0
      ensures forall k :: 0 <= k < |c| ==> c[k] == 0
    {
      EchelonIndependentAt(e.mat, piv, e.rank, n, c, |c|);
    }
    CombinesSpans(b, e.inv[..e.rank], a, n);
    var basis: Matrix :| IsBasis(basis, a, n) && |basis| == r;
    SpannedByTransitive(b, a, basis, n);
    IndependentAtMost(b, basis, n);
  }

  lemma CombinesSpans(x: Matrix, c: Matrix, y: Matrix, n: nat)
    requires Combines(x, c, y, n)
    ensures SpannedBy(x, y, n)
  {
  }

  lemma LeadingUnitColumns(a: Matrix, n: nat, x: nat -> Byte, k: nat)
    requires HasShape(a, |a|, n) && k < Eliminate(a, n).rank && InKernel(a, x)
    requires forall j: nat :: Eliminate(a, n).rank <= j < n ==> x(j) == 0
    ensures x(k) == 0
  {
    hide Dot, Eliminate, Mul;
    var e := Eliminate(a, n);
    EliminateInvariant(a, n);
    TransformActs(a, e.mat, e.inv, e.rank, n, k, x);
    DotZero(e.inv[k], Products(a, x));
    DotUnitUpTo(e.mat[k], k, e.rank, x);
  }

  lemma DotUnitUpTo(v: Vector, i: nat, r: nat, x: nat -> Byte)
    requires i < r <= |v| && (forall k :: 0 <= k < r ==> v[k] == Delta(i, k))
    requires forall k: nat :: r <= k < |v| ==> x(k) == 0
    ensures Dot(v, x) == x(i)
  {
    hide Add, Mul;
    var f := Terms(v, x);
    forall k: nat | k < |v| && k != i ensures f(k) == 0 { NoZeroDivisors(v[k], x(k)); }
    SumSingle(|v|, f, i);
    MulOneLeft(x(i));
  }

  /** Elimination promises the rank, but stops at the first column without a pivot. What it returns
      is the rank exactly if the leading columns, as many as the rank, are independent. */
  lemma PivotCountIsRankIff(a: Matrix, n: nat)
    requires HasShape(a, |a|, n)
    ensures Eliminate(a, n).rank == RankOf(a, n) <==> LeadingIndependent(a, n, RankOf(a, n))
  {
    hide Dot, Eliminate, RankOf, IsRank, KernelVector;
    var e, r := Eliminate(a, n), RankOf(a, n);
    RankOfIsRank(a, n);
    PivotCountAtMostRank(a, n, r);
    if e.rank == r {
      forall x: nat -> Byte, k: nat | InKernel(a, x) && (forall j: nat :: r <= j < n ==> x(j) == 0) && k < n
        ensures x(k) == 0
      {
        if k < r { LeadingUnitColumns(a, n, x, k); }
      }
    } else {
      RankAtMostColumns(a, n);
      MissingPivot(a, n);
      KernelVectorEnds(e.mat, e.rank);
      assert KernelVector(e.mat, e.rank)(e.rank) == 1;
    }
  }

  lemma KernelVectorEnds(mat: Matrix, i: nat)
    ensures forall k: nat :: i < k ==> KernelVector(mat, i)(k) == 0
  {
  }

  lemma {:induction false} RankFromBound(m: Matrix, i: nat, r: nat, n: nat)
    requires HasShape(m, |m|, n) && i <= MinOf(|m|, n) && (r < n || i == MinOf(|m|, n))
    ensures RankFrom(m, i, r, n) <= MinOf(|m|, n)
    decreases |m| - i, n - r
  {
    hide ForwardStep;
    if i < MinOf(|m|, n) {
      var p := PivotRow(m, r, i);
      if p < |m| {
        RankFromBound(ForwardStep(m, i, p, r), i + 1, r, n);
      } else if r + 1 < n {
        RankFromBound(m, i, r + 1, n);
      }
    }
  }

  lemma RankAtMostColumns(a: Matrix, n: nat)
    requires HasShape(a, |a|, n)
    ensures RankOf(a, n) <= n
  {
    RankFromBound(a, 0, 0, n);
  }

  /** A matrix of rank one for which elimination returns zero. */
  lemma PivotCountIsNotRank()
    ensures Eliminate([[0, 1]], 2).rank == 0 && RankOf([[0, 1]], 2) == 1
  {
    var a: Matrix := [[0, 1]];
    assert PivotRow(a, 0, 0) == 1;
    assert PivotRow(a, 1, 0) == 0;
    assert RankFrom(a, 0, 0, 2) == RankFrom(a, 0, 1, 2);
  }
}
