/**
 Elimination when several row pointers may lead to the same row, as happens when packets with the
 same coefficient id are decoded together: decode points all of them at one row of its table.
 EliminateShared is the algorithm as it runs in memory, on the columns it touches. With different
 pointers it is the elimination of module Elimination; module RepeatedRows tells what equal
 pointers do.
 */
module SharedRows {
  import opened GaloisField
  import opened LinearAlgebra
  import opened Elimination

  /** Rows in memory, the pointers to them, and the transform, which is never shared. */
  datatype Tables = Tables(store: Matrix, ptr: seq<nat>, inv: Matrix) {
    predicate Valid(n: nat) {
      HasShape(store, |store|, n) && HasShape(inv, |ptr|, |ptr|) && forall k :: 0 <= k < |ptr| ==> ptr[k] < |store|
    }

    /** The matrix that the pointers show. */
    function Shown(n: nat): (m: Matrix)
      requires Valid(n)
      ensures HasShape(m, |ptr|, n)
    {
      seq(|ptr|, k requires 0 <= k < |ptr| => store[ptr[k]])
    }
  }

  predicate Different(ids: seq<nat>) {
    forall k, l :: 0 <= k < l < |ids| ==> ids[k] != ids[l]
  }

  // ----- row operations on the columns from i on -----

  /** The entries of v before i are zero. */
  predicate ZeroBefore(v: Vector, i: nat) {
    forall j :: 0 <= j < i && j < |v| ==> v[j] == 0
  }

  predicate ZeroFrom(v: Vector, i: nat) {
    forall j :: i <= j < |v| ==> v[j] == 0
  }

  function ScaledFrom(v: Vector, c: Byte, i: nat): (r: Vector)
    ensures |r| == |v|
  {
    seq(|v|, k requires 0 <= k < |v| => if k < i then v[k] else Mul(c, v[k]))
  }

  function AddScaledFrom(z: Vector, x: Vector, c: Byte, i: nat): (r: Vector)
    requires |z| == |x|
    ensures |r| == |z|
  {
    seq(|z|, k requires 0 <= k < |z| => if k < i then z[k] else Add(z[k], Mul(c, x[k])))
  }

  lemma ScaledFromIsScaled(v: Vector, c: Byte, i: nat)
    requires ZeroBefore(v, i)
    ensures ScaledFrom(v, c, i) == Scaled(v, c)
  {
    hide Mul;
    NoZeroDivisors(c, 0);
  }

  lemma AddScaledFromIsAddScaled(z: Vector, x: Vector, c: Byte, i: nat)
    requires |z| == |x| && ZeroBefore(x, i)
    ensures AddScaledFrom(z, x, c, i) == AddScaled(z, x, c)
  {
    hide Add, Mul;
    NoZeroDivisors(c, 0);
    forall k | 0 <= k < |z| && k < i ensures AddScaled(z, x, c)[k] == z[k] { AddZeroSelf(z[k]); }
  }

  /** A row subtracted from itself. */
  lemma OnceMoreVanishes(v: Vector, i: nat)
    ensures ZeroFrom(AddScaledFrom(v, v, 1, i), i)
  {
    hide Add, Mul;
    forall k | i <= k < |v| ensures Add(v[k], Mul(1, v[k])) == 0 {
      MulOneLeft(v[k]);
      AddZeroSelf(v[k]);
    }
  }

  // ----- elimination in memory -----

  /** Clears column i in the rows k, k + 1, ... one after the other. */
  function ClearFrom(t: Tables, i: nat, k: nat, n: nat): (u: Tables)
    requires t.Valid(n) && i < |t.ptr| && k <= |t.ptr| && i < n
    ensures u.Valid(n) && u.ptr == t.ptr && |u.store| == |t.store|
    decreases |t.ptr| - k
  {
    if k == |t.ptr| then t
    else
      var c := t.store[t.ptr[k]][i];
      if k == i || c == 0 then ClearFrom(t, i, k + 1, n) else ClearFrom(ClearOne(t, i, k, n), i, k + 1, n)
  }

  /** Subtracts the pivot row from row k, and the same in the transform. */
  function ClearOne(t: Tables, i: nat, k: nat, n: nat): (u: Tables)
    requires t.Valid(n) && i < |t.ptr| && k < |t.ptr| && i < n
    ensures u.Valid(n) && u.ptr == t.ptr && |u.store| == |t.store|
  {
    var c := t.store[t.ptr[k]][i];
    t.(store := t.store[t.ptr[k] := AddScaledFrom(t.store[t.ptr[k]], t.store[t.ptr[i]], c, i)],
       inv := t.inv[k := AddScaled(t.inv[k], t.inv[i], c)])
  }

  /** Swaps pointers and transform rows, and scales the pivot row. */
  function Prepared(t: Tables, i: nat, p: nat, n: nat): (u: Tables)
    requires t.Valid(n) && i < |t.ptr| && p < |t.ptr| && i < n
    ensures u.Valid(n) && u.ptr == Swap(t.ptr, i, p) && |u.store| == |t.store|
  {
    var inv := Swap(t.inv, i, p);
    var c := DivElem(1, t.store[t.ptr[p]][i]);
    Tables(t.store[t.ptr[p] := ScaledFrom(t.store[t.ptr[p]], c, i)], Swap(t.ptr, i, p), inv[i := Scaled(inv[i], c)])
  }

  function Round(t: Tables, i: nat, p: nat, n: nat): (u: Tables)
    requires t.Valid(n) && i < |t.ptr| && p < |t.ptr| && i < n
    ensures u.Valid(n) && u.ptr == Swap(t.ptr, i, p) && |u.store| == |t.store|
  {
    ClearFrom(Prepared(t, i, p, n), i, 0, n)
  }

  function EliminateShared(t: Tables, i: nat, n: nat): (r: (nat, Tables))
    requires t.Valid(n) && i <= n && i <= |t.ptr|
    ensures r.1.Valid(n) && |r.1.ptr| == |t.ptr| && i <= r.0 <= n && r.0 <= |t.ptr|
    decreases n - i
  {
    if i == n then (n, t)
    else
      var p := PivotRow(t.Shown(n), i, i);
      if p == |t.ptr| then (i, t) else EliminateShared(Round(t, i, p, n), i + 1, n)
  }

  // ----- different pointers -----

  /** With different pointers each row is cleared once, by the unchanged pivot row. */
  lemma {:induction false} ClearFromDistinct(t: Tables, i: nat, k: nat, n: nat, l: nat)
    requires t.Valid(n) && Different(t.ptr) && i < |t.ptr| && k <= |t.ptr| && i < n && l < |t.ptr|
    requires ZeroBefore(t.store[t.ptr[i]], i)
    ensures var u, c := ClearFrom(t, i, k, n), t.store[t.ptr[l]][i];
            if l < k || l == i || c == 0 then u.store[u.ptr[l]] == t.store[t.ptr[l]] && u.inv[l] == t.inv[l]
            else u.store[u.ptr[l]] == AddScaled(t.store[t.ptr[l]], t.store[t.ptr[i]], c) &&
                 u.inv[l] == AddScaled(t.inv[l], t.inv[i], c)
    decreases |t.ptr| - k
  {
    hide AddScaled, AddScaledFrom, ZeroBefore;
    if k < |t.ptr| {
      var c := t.store[t.ptr[k]][i];
      if k == i || c == 0 {
        ClearFromDistinct(t, i, k + 1, n, l);
      } else {
        AddScaledFromIsAddScaled(t.store[t.ptr[k]], t.store[t.ptr[i]], c, i);
        ClearFromDistinct(ClearOne(t, i, k, n), i, k + 1, n, l);
      }
    }
  }

  /** One round with different pointers is the row step of the textbook algorithm. */
  lemma RoundDistinct(t: Tables, i: nat, p: nat, n: nat)
    requires t.Valid(n) && Different(t.ptr) && i <= p < |t.ptr| && i < n && UnitColumns(t.Shown(n), i)
    ensures var m := t.Shown(n);
            var c, f := Scale(m, i, p), Factors(m, i, p);
            var u := Round(t, i, p, n);
            Different(u.ptr) && u.Shown(n) == RowStep(m, i, p, c, f) && u.inv == RowStep(t.inv, i, p, c, f)
  {
    hide AddScaled, Scaled, ScaledFrom, DivElem, ClearFrom;
    var m := t.Shown(n);
    var c, f := Scale(m, i, p), Factors(m, i, p);
    var u := Prepared(t, i, p, n);
    var r := ClearFrom(u, i, 0, n);
    assert m[p] == t.store[t.ptr[p]];
    assert ZeroBefore(m[p], i);
    ScaledFromIsScaled(m[p], c, i);
    assert u.store[u.ptr[i]] == Scaled(m[p], c);
    assert ZeroBefore(Scaled(m[p], c), i) by { ScaledZeroBefore(m[p], c, i); }
    assert u.Shown(n) == ScaleRow(Swap(m, i, p), i, c);
    forall l: nat | l < |t.ptr|
      ensures r.Shown(n)[l] == RowStep(m, i, p, c, f)[l] && r.inv[l] == RowStep(t.inv, i, p, c, f)[l]
    {
      ClearFromDistinct(u, i, 0, n, l);
      AddScaledZero(u.store[u.ptr[l]], u.store[u.ptr[i]]);
      AddScaledZero(u.inv[l], u.inv[i]);
      assert f[l] == u.Shown(n)[l][i];
    }
  }

  lemma ScaledZeroBefore(v: Vector, c: Byte, i: nat)
    requires ZeroBefore(v, i)
    ensures ZeroBefore(Scaled(v, c), i)
  {
    hide Mul;
    NoZeroDivisors(c, 0);
  }

  /** With different pointers elimination in shared memory is the textbook algorithm. */
  lemma {:induction false} DistinctIsEliminate(t: Tables, i: nat, n: nat)
    requires t.Valid(n) && Different(t.ptr) && i <= n && i <= |t.ptr| && UnitColumns(t.Shown(n), i)
    ensures var (rank, u) := EliminateShared(t, i, n);
            Reduced(u.Shown(n), u.inv, rank) == EliminateFrom(t.Shown(n), t.inv, i, n)
    decreases n - i
  {
    hide Round, RowStep, Scale, Factors, UnitColumns;
    if i < n {
      var m := t.Shown(n);
      var p := PivotRow(m, i, i);
      if p < |t.ptr| {
        RoundDistinct(t, i, p, n);
        PivotStepColumns(m, i, p, n);
        DistinctIsEliminate(Round(t, i, p, n), i + 1, n);
      }
    }
  }

  // ----- any pointers -----

  function IdSet(ids: seq<nat>): set<nat> {
    set k | 0 <= k < |ids| :: ids[k]
  }

  /** The rows that can still become a pivot row from round i on. */
  function Live(t: Tables, i: nat, n: nat): (s: set<nat>)
    requires t.Valid(n)
  {
    set k | i <= k < |t.ptr| && !ZeroFrom(t.store[t.ptr[k]], i) :: t.ptr[k]
  }

  /** Clearing leaves rows alone that have nothing left. */
  lemma {:induction false} ClearFromZero(t: Tables, i: nat, k: nat, n: nat, r: nat)
    requires t.Valid(n) && i < |t.ptr| && k <= |t.ptr| && i < n && r < |t.store| && ZeroFrom(t.store[r], i)
    ensures ClearFrom(t, i, k, n).store[r] == t.store[r]
    decreases |t.ptr| - k
  {
    hide AddScaledFrom;
    if k < |t.ptr| {
      if k == i || t.store[t.ptr[k]][i] == 0 {
        ClearFromZero(t, i, k + 1, n, r);
      } else {
        assert t.ptr[k] != r;
        ClearFromZero(ClearOne(t, i, k, n), i, k + 1, n, r);
      }
    }
  }

  /** A pivot row that a second pointer leads to is subtracted from itself. */
  lemma {:induction false} PivotVanishes(t: Tables, i: nat, k: nat, n: nat, l: nat)
    requires t.Valid(n) && i < |t.ptr| && k <= l < |t.ptr| && i < n
    requires l != i && t.ptr[l] == t.ptr[i] && t.store[t.ptr[i]][i] == 1
    ensures ZeroFrom(ClearFrom(t, i, k, n).store[t.ptr[i]], i)
    decreases |t.ptr| - k
  {
    hide AddScaledFrom;
    var row := t.store[t.ptr[i]];
    if k == i || t.store[t.ptr[k]][i] == 0 {
      PivotVanishes(t, i, k + 1, n, l);
    } else if t.ptr[k] == t.ptr[i] {
      OnceMoreVanishes(row, i);
      assert ClearOne(t, i, k, n).store[t.ptr[i]] == AddScaledFrom(row, row, 1, i);
      ClearFromZero(ClearOne(t, i, k, n), i, k + 1, n, t.ptr[i]);
    } else {
      PivotVanishes(ClearOne(t, i, k, n), i, k + 1, n, l);
    }
  }

  lemma PivotBecomesOne(v: Vector, i: nat)
    requires i < |v| && v[i] != 0
    ensures ScaledFrom(v, DivElem(1, v[i]), i)[i] == 1
  {
    hide Mul, DivElem;
    PivotScale(v[i]);
  }

  /** Every round uses up a row. */
  lemma RoundUsesRow(t: Tables, i: nat, p: nat, n: nat)
    requires t.Valid(n) && i <= p < |t.ptr| && i < n && t.store[t.ptr[p]][i] != 0
    ensures Live(Round(t, i, p, n), i + 1, n) <= Live(t, i, n) - {t.ptr[p]}
    ensures t.ptr[p] in Live(t, i, n)
  {
    hide ScaledFrom, DivElem, ClearFrom;
    var u, r := Prepared(t, i, p, n), Round(t, i, p, n);
    var pivot := t.ptr[p];
    PivotBecomesOne(t.store[pivot], i);
    forall k | i + 1 <= k < |r.ptr| && !ZeroFrom(r.store[r.ptr[k]], i + 1)
      ensures r.ptr[k] != pivot && r.ptr[k] in Live(t, i, n)
    {
      if r.ptr[k] == pivot {
        PivotVanishes(u, i, 0, n, k);
      } else {
        var row := r.ptr[k];
        if ZeroFrom(t.store[row], i) { ClearFromZero(u, i, 0, n, row); }
        assert t.ptr[Source(i, p, k)] == row;
      }
    }
  }

  lemma {:induction false} RankAtMostLive(t: Tables, i: nat, n: nat)
    requires t.Valid(n) && i <= n && i <= |t.ptr|
    ensures EliminateShared(t, i, n).0 <= i + |Live(t, i, n)|
    decreases n - i
  {
    hide Round, Live;
    if i < n {
      var p := PivotRow(t.Shown(n), i, i);
      if p < |t.ptr| {
        assert At(t.Shown(n), p, i) == t.store[t.ptr[p]][i];
        RoundUsesRow(t, i, p, n);
        RankAtMostLive(Round(t, i, p, n), i + 1, n);
        SubsetSize(Live(Round(t, i, p, n), i + 1, n), Live(t, i, n) - {t.ptr[p]});
      }
    }
  }

  lemma {:induction false} SubsetSize(a: set<nat>, b: set<nat>)
    requires a <= b
    ensures |a| <= |b|
    decreases b
  {
    if x :| x in b {
      SubsetSize(a - {x}, b - {x});
    } else {
      assert a == {};
    }
  }

  /** The number of pivots never exceeds the number of different rows, shared or not. */
  lemma RankAtMostDifferent(t: Tables, n: nat)
    requires t.Valid(n)
    ensures EliminateShared(t, 0, n).0 <= |IdSet(t.ptr)|
  {
    hide EliminateShared;
    RankAtMostLive(t, 0, n);
    SubsetSize(Live(t, 0, n), IdSet(t.ptr));
  }

  /** The same pointers and transform, and the same rows where the pointers lead. */
  predicate Alike(t: Tables, u: Tables, n: nat) {
    t.Valid(n) && u.Valid(n) && t.ptr == u.ptr && t.inv == u.inv &&
    forall k :: 0 <= k < |t.ptr| ==> t.store[t.ptr[k]] == u.store[u.ptr[k]]
  }

  lemma {:induction false} ClearAlike(t: Tables, u: Tables, i: nat, k: nat, n: nat)
    requires Alike(t, u, n) && i < |t.ptr| && k <= |t.ptr| && i < n
    ensures Alike(ClearFrom(t, i, k, n), ClearFrom(u, i, k, n), n)
    decreases |t.ptr| - k
  {
    hide AddScaled, AddScaledFrom;
    if k < |t.ptr| {
      if k == i || t.store[t.ptr[k]][i] == 0 {
        ClearAlike(t, u, i, k + 1, n);
      } else {
        ClearAlike(ClearOne(t, i, k, n), ClearOne(u, i, k, n), i, k + 1, n);
      }
    }
  }

  lemma RoundAlike(t: Tables, u: Tables, i: nat, p: nat, n: nat)
    requires Alike(t, u, n) && i < |t.ptr| && p < |t.ptr| && i < n
    ensures Alike(Round(t, i, p, n), Round(u, i, p, n), n)
  {
    hide Scaled, ScaledFrom, DivElem, ClearFrom;
    var t', u' := Prepared(t, i, p, n), Prepared(u, i, p, n);
    assert forall k :: 0 <= k < |t.ptr| ==> t'.ptr[k] == t.ptr[Source(i, p, k)];
    ClearAlike(t', u', i, 0, n);
  }

  /** Rows that no pointer leads to play no role. */
  lemma {:induction false} EliminateAlike(t: Tables, u: Tables, i: nat, n: nat)
    requires Alike(t, u, n) && i <= n && i <= |t.ptr|
    ensures EliminateShared(t, i, n).0 == EliminateShared(u, i, n).0
    ensures EliminateShared(t, i, n).1.inv == EliminateShared(u, i, n).1.inv
    decreases n - i
  {
    hide Round;
    assert t.Shown(n) == u.Shown(n);
    if i < n {
      var p := PivotRow(t.Shown(n), i, i);
      if p < |t.ptr| {
        RoundAlike(t, u, i, p, n);
        EliminateAlike(Round(t, i, p, n), Round(u, i, p, n), i + 1, n);
      }
    }
  }
}
