/**
 The vector kernels, Gauss-Jordan elimination, the solver and the rank routine, as they run on
 buffers. A matrix is an array of row pointers; rows may be longer than the part in use.
 */
module FiniteField {
  import opened GaloisField
  import opened LinearAlgebra
  import opened Elimination
  import opened Rank
  import opened SharedRows

  // ----- vector kernels -----

  /** One table lookup of the kernels: the row index is shifted once, before the loop. */
  function Lookup(yIndex: bv16, v: Byte): Byte {
    MulTable(yIndex | (v as bv16))
  }

  lemma LookupMultiplies(y: Byte)
    ensures forall v: Byte :: Lookup((y as bv16) << 8, v) == Mul(y, v)
  {
    hide Mul;
    forall v: Byte ensures Lookup((y as bv16) << 8, v) == Mul(y, v) { IndexParts(y, v); }
  }

  lemma ZeroScaled(v: Vector)
    ensures forall k :: 0 <= k < |v| ==> Scaled(v, 0)[k] == 0
  {
    hide Mul;
    forall k | 0 <= k < |v| ensures Scaled(v, 0)[k] == 0 { NoZeroDivisors(0, v[k]); }
  }

  /** Four consecutive lines of an unrolled kernel; sixteen lines are four of these. */
  method MulQuad(z: array<Byte>, x: array<Byte>, yIndex: bv16, o: nat)
    requires o + 4 <= z.Length && o + 4 <= x.Length
    modifies z
    ensures forall k :: o <= k < o + 4 ==> z[k] == Lookup(yIndex, old(x[k]))
    ensures forall k :: 0 <= k < z.Length && !(o <= k < o + 4) ==> z[k] == old(z[k])
  {
    hide Lookup;
    z[o] := Lookup(yIndex, x[o]);
    z[o + 1] := Lookup(yIndex, x[o + 1]);
    z[o + 2] := Lookup(yIndex, x[o + 2]);
    z[o + 3] := Lookup(yIndex, x[o + 3]);
  }

  /** Four consecutive lines of the unrolled multiply-and-add kernel. */
  method AddMulQuad(z: array<Byte>, x: array<Byte>, yIndex: bv16, o: nat)
    requires o + 4 <= z.Length && o + 4 <= x.Length
    modifies z
    ensures forall k :: o <= k < o + 4 ==> z[k] == Add(old(z[k]), Lookup(yIndex, old(x[k])))
    ensures forall k :: 0 <= k < z.Length && !(o <= k < o + 4) ==> z[k] == old(z[k])
  {
    hide Lookup, Add;
    z[o] := Add(z[o], Lookup(yIndex, x[o]));
    z[o + 1] := Add(z[o + 1], Lookup(yIndex, x[o + 1]));
    z[o + 2] := Add(z[o + 2], Lookup(yIndex, x[o + 2]));
    z[o + 3] := Add(z[o + 3], Lookup(yIndex, x[o + 3]));
  }

  /** The first size entries of z become y times those of x, 16 at a time. */
  method MulVec(z: array<Byte>, x: array<Byte>, y: Byte, size: nat)
    requires size <= z.Length && size <= x.Length
    modifies z
    ensures z[..] == Scaled(old(x[..size]), y) + old(z[size..])
  {
    hide Mul, Lookup;
    if y == 0 {
      for i := 0 to size
        invariant forall k :: 0 <= k < i ==> z[k] == 0
        invariant forall k :: i <= k < z.Length ==> z[k] == old(z[k])
      {
        z[i] := 0;
      }
      ZeroScaled(old(x[..size]));
      return;
    }
    var yIndex := (y as bv16) << 8;
    LookupMultiplies(y);
    var offset, left := 0, size;
    while left >= 16
      invariant 0 <= left && offset + left == size
      invariant forall k :: 0 <= k < offset ==> z[k] == Mul(y, old(x[k]))
      invariant forall k :: offset <= k < z.Length ==> z[k] == old(z[k])
      invariant forall k :: offset <= k < x.Length ==> x[k] == old(x[k])
    {
      MulQuad(z, x, yIndex, offset);
      MulQuad(z, x, yIndex, offset + 4);
      MulQuad(z, x, yIndex, offset + 8);
      MulQuad(z, x, yIndex, offset + 12);
      offset := offset + 16;
      left := left - 16;
    }
    for i := 0 to left
      invariant forall k :: 0 <= k < offset + i ==> z[k] == Mul(y, old(x[k]))
      invariant forall k :: offset + i <= k < z.Length ==> z[k] == old(z[k])
      invariant forall k :: offset + i <= k < x.Length ==> x[k] == old(x[k])
    {
      z[offset + i] := Lookup(yIndex, x[offset + i]);
    }
  }

  /** The first size entries of x are multiplied by y, 16 at a time. */
  method MulVecLocal(x: array<Byte>, y: Byte, size: nat)
    requires size <= x.Length
    modifies x
    ensures x[..] == Scaled(old(x[..size]), y) + old(x[size..])
  {
    hide Mul, Lookup;
    if y == 0 {
      for i := 0 to size
        invariant forall k :: 0 <= k < i ==> x[k] == 0
        invariant forall k :: i <= k < x.Length ==> x[k] == old(x[k])
      {
        x[i] := 0;
      }
      ZeroScaled(old(x[..size]));
      return;
    }
    var yIndex := (y as bv16) << 8;
    LookupMultiplies(y);
    var offset, left := 0, size;
    while left >= 16
      invariant 0 <= left && offset + left == size
      invariant forall k :: 0 <= k < offset ==> x[k] == Mul(y, old(x[k]))
      invariant forall k :: offset <= k < x.Length ==> x[k] == old(x[k])
    {
      MulQuad(x, x, yIndex, offset);
      MulQuad(x, x, yIndex, offset + 4);
      MulQuad(x, x, yIndex, offset + 8);
      MulQuad(x, x, yIndex, offset + 12);
      offset := offset + 16;
      left := left - 16;
    }
    for i := 0 to left
      invariant forall k :: 0 <= k < offset + i ==> x[k] == Mul(y, old(x[k]))
      invariant forall k :: offset + i <= k < x.Length ==> x[k] == old(x[k])
    {
      x[offset + i] := Lookup(yIndex, x[offset + i]);
    }
  }

  /** y times the first size entries of x is added to those of z, 16 at a time. */
  method AddMulVec(z: array<Byte>, x: array<Byte>, y: Byte, size: nat)
    requires size <= z.Length && size <= x.Length
    modifies z
    ensures z[..] == AddScaled(old(z[..size]), old(x[..size]), y) + old(z[size..])
  {
    hide Mul, Lookup, Add;
    if y == 0 {
      AddScaledZero(z[..size], x[..size]);
      assert z[..] == z[..size] + z[size..];
      return;
    }
    var yIndex := (y as bv16) << 8;
    LookupMultiplies(y);
    var offset, left := 0, size;
    while left >= 16
      invariant 0 <= left && offset + left == size
      invariant forall k :: 0 <= k < offset ==> z[k] == Add(old(z[k]), Mul(y, old(x[k])))
      invariant forall k :: offset <= k < z.Length ==> z[k] == old(z[k])
      invariant forall k :: offset <= k < x.Length ==> x[k] == old(x[k])
    {
      AddMulQuad(z, x, yIndex, offset);
      AddMulQuad(z, x, yIndex, offset + 4);
      AddMulQuad(z, x, yIndex, offset + 8);
      AddMulQuad(z, x, yIndex, offset + 12);
      offset := offset + 16;
      left := left - 16;
    }
    for i := 0 to left
      invariant forall k :: 0 <= k < offset + i ==> z[k] == Add(old(z[k]), Mul(y, old(x[k])))
      invariant forall k :: offset + i <= k < z.Length ==> z[k] == old(z[k])
      invariant forall k :: offset + i <= k < x.Length ==> x[k] == old(x[k])
    {
      z[offset + i] := Add(z[offset + i], Lookup(yIndex, x[offset + i]));
    }
  }

  // ----- matrices on the heap -----

  /** The first width entries of each row. */
  ghost function Rows(p: seq<array<Byte>>, width: nat): (m: Matrix)
    requires forall k :: 0 <= k < |p| ==> width <= p[k].Length
    reads p
    ensures HasShape(m, |p|, width)
    ensures forall k :: 0 <= k < |p| ==> m[k] == p[k][..width]
  {
    seq(|p|, k requires 0 <= k < |p| reads p => p[k][..width])
  }

  /** Rows that are long enough and do not share memory. */
  ghost predicate Separate(p: seq<array<Byte>>, width: nat) {
    (forall k :: 0 <= k < |p| ==> width <= p[k].Length) &&
    (forall k, l :: 0 <= k < l < |p| ==> p[k] != p[l])
  }

  ghost predicate Disjoint(p: seq<array<Byte>>, q: seq<array<Byte>>) {
    forall k, l :: 0 <= k < |p| && 0 <= l < |q| ==> p[k] != q[l]
  }

  ghost predicate Within(p: seq<array<Byte>>, q: seq<array<Byte>>) {
    forall k :: 0 <= k < |p| ==> p[k] in q
  }

  /** z becomes the sum over all k of y[k] times x[k]. */
  method MulMat(z: array<Byte>, x: seq<array<Byte>>, y: array<Byte>, col: nat, row: nat)
    requires 1 <= col <= |x| && col <= y.Length && row <= z.Length
    requires forall k :: 0 <= k < |x| ==> row <= x[k].Length && x[k] != z
    requires z != y
    modifies z
    ensures z[..] == Combination(y[..col], Rows(x[..col], row), row) + old(z[row..])
  {
    hide Add, Mul, Scaled, AddScaled, Sum, Partial;
    ghost var m, ys := Rows(x[..col], row), y[..col];
    MulVec(z, x[0], y[0], row);
    PartialFirst(ys, m, row);
    assert m[0] == old(x[0][..row]);
    for i := 1 to col
      invariant z[row..] == old(z[row..])
      invariant z[..row] == Partial(ys, m, row, i)
    {
      assert m[i] == x[i][..row];
      PartialNext(ys, m, row, i);
      AddMulVec(z, x[i], y[i], row);
    }
    PartialAll(ys, m, row);
    assert Rows(x[..col], row) == m;
    assert z[..] == z[..row] + z[row..];
  }

  // ----- elimination in place -----

  /** The row table mat leads to the rows ptr[0], ptr[1], ... of the store; rows may be shared. */
  ghost predicate Views(mat: seq<array<Byte>>, store: seq<array<Byte>>, ptr: seq<nat>) {
    |mat| == |ptr| && forall k :: 0 <= k < |ptr| ==> ptr[k] < |store| && mat[k] == store[ptr[k]]
  }

  /** Store and transform do not overlap. */
  ghost predicate Sound(store: seq<array<Byte>>, ptr: seq<nat>, inv: seq<array<Byte>>, n: nat) {
    Separate(store, n) && Separate(inv, |inv|) && Disjoint(store, inv) && |inv| == |ptr| &&
    forall k :: 0 <= k < |ptr| ==> ptr[k] < |store|
  }

  /** What is in memory. */
  ghost function Memory(store: seq<array<Byte>>, ptr: seq<nat>, inv: seq<array<Byte>>, n: nat): (t: Tables)
    requires Sound(store, ptr, inv, n)
    reads store, inv
    ensures t.Valid(n) && t.store == Rows(store, n) && t.ptr == ptr && t.inv == Rows(inv, |inv|)
  {
    Tables(Rows(store, n), ptr, Rows(inv, |inv|))
  }

  /** Multiplies the entries i to n - 1 of x by c. */
  method ScaleTail(x: array<Byte>, c: Byte, i: nat, n: nat)
    requires i <= n <= x.Length
    modifies x
    ensures x[..n] == ScaledFrom(old(x[..n]), c, i) && x[n..] == old(x[n..])
  {
    hide Mul;
    var j := n;
    while j > i
      invariant i <= j <= n
      invariant forall k :: j <= k < n ==> x[k] == Mul(c, old(x[k]))
      invariant forall k :: 0 <= k < x.Length && !(j <= k < n) ==> x[k] == old(x[k])
    {
      j := j - 1;
      x[j] := MulElem(x[j], c);
      MulCommutes(old(x[j]), c);
    }
  }

  /** Subtracts c times x from z in the entries i to n - 1. The two may be the same row. */
  method SubtractTail(z: array<Byte>, x: array<Byte>, c: Byte, i: nat, n: nat)
    requires i <= n <= x.Length && n <= z.Length
    modifies z
    ensures z[..n] == AddScaledFrom(old(z[..n]), old(x[..n]), c, i) && z[n..] == old(z[n..])
  {
    hide Mul, Add;
    var j := n;
    while j > i
      invariant i <= j <= n
      invariant forall k :: j <= k < n ==> z[k] == Add(old(z[k]), Mul(c, old(x[k])))
      invariant forall k :: 0 <= k < z.Length && !(j <= k < n) ==> z[k] == old(z[k])
    {
      j := j - 1;
      MulCommutes(x[j], c);
      SubIsAdd(z[j], MulElem(x[j], c));
      z[j] := SubElem(z[j], MulElem(x[j], c));
    }
  }

  lemma SubIsAdd(x: Byte, y: Byte)
    ensures SubElem(x, y) == Add(x, y)
  {
  }

  /** Subtracts c times one row from another, in the matrix and in the transform. */
  method SubtractRow(mat: seq<array<Byte>>, inv: seq<array<Byte>>, i: nat, k: nat, n: nat,
                     ghost store: seq<array<Byte>>, ghost ptr: seq<nat>)
    requires Sound(store, ptr, inv, n) && Views(mat, store, ptr)
    requires i < |mat| && k < |mat| && k != i && i < n
    modifies mat[k], inv[k]
    ensures Memory(store, ptr, inv, n) == ClearOne(old(Memory(store, ptr, inv, n)), i, k, n)
  {
    hide AddScaled, AddScaledFrom, Add, Mul;
    ghost var t := Memory(store, ptr, inv, n);
    var c := mat[k][i];
    var z, zInv := mat[k], inv[k];
    assert forall r :: 0 <= r < |store| && r != ptr[k] ==> store[r] != z;
    assert forall l :: 0 <= l < |inv| && l != k ==> inv[l] != zInv;
    assert forall r :: 0 <= r < |store| ==> store[r] != zInv;
    SubtractTail(z, mat[i], c, i, n);
    AddMulVec(zInv, inv[i], c, |inv|);
    ghost var u := ClearOne(t, i, k, n);
    assert Rows(store, n) == u.store;
    assert inv[k][..|inv|] == AddScaled(t.inv[k], t.inv[i], c);
    assert Rows(inv, |inv|) == u.inv;
  }

  /** Clears the entry of row k in column i. */
  method ClearStep(mat: seq<array<Byte>>, inv: seq<array<Byte>>, i: nat, k: nat, n: nat,
                   ghost store: seq<array<Byte>>, ghost ptr: seq<nat>)
    requires Sound(store, ptr, inv, n) && Views(mat, store, ptr) && i < |ptr| && k < |ptr| && i < n
    modifies store, inv
    ensures ClearFrom(old(Memory(store, ptr, inv, n)), i, k, n) == ClearFrom(Memory(store, ptr, inv, n), i, k + 1, n)
  {
    hide ClearOne;
    assert mat[k][..n] == Memory(store, ptr, inv, n).store[ptr[k]];
    if k != i && mat[k][i] != 0 {
      SubtractRow(mat, inv, i, k, n, store, ptr);
    }
  }

  /** Clears column i in all rows but row i, one after the other. */
  method ClearOthers(mat: seq<array<Byte>>, inv: seq<array<Byte>>, i: nat, n: nat,
                     ghost store: seq<array<Byte>>, ghost ptr: seq<nat>)
    requires Sound(store, ptr, inv, n) && Views(mat, store, ptr) && i < |ptr| && i < n
    modifies store, inv
    ensures Memory(store, ptr, inv, n) == ClearFrom(old(Memory(store, ptr, inv, n)), i, 0, n)
  {
    hide Sound, ClearFrom;
    ghost var goal := ClearFrom(Memory(store, ptr, inv, n), i, 0, n);
    for k := 0 to |mat|
      invariant goal == ClearFrom(Memory(store, ptr, inv, n), i, k, n)
    {
      ClearStep(mat, inv, i, k, n, store, ptr);
    }
    ClearNone(Memory(store, ptr, inv, n), i, n);
  }

  lemma ClearNone(t: Tables, i: nat, n: nat)
    requires t.Valid(n) && i < |t.ptr| && i < n
    ensures ClearFrom(t, i, |t.ptr|, n) == t
  {
  }

  /** What ClearColumn makes of row k; nothing if the factor is zero. */
  lemma ClearedRow(m: Matrix, i: nat, f: Vector, k: nat)
    requires i < |m| == |f| && k < |m| && forall k :: 0 <= k < |m| ==> |m[k]| == |m[i]|
    ensures |ClearColumn(m, i, f)| == |m|
    ensures ClearColumn(m, i, f)[k] == if k == i || f[k] == 0 then m[k] else AddScaled(m[k], m[i], f[k])
  {
    hide AddScaled;
    AddScaledZero(m[k], m[i]);
  }

  /** The first row from `from` on with a nonzero entry in the column. */
  method FindPivot(mat: seq<array<Byte>>, col: nat, from: nat, n: nat) returns (p: nat)
    requires col < n && from <= |mat|
    requires forall k :: 0 <= k < |mat| ==> n <= mat[k].Length
    ensures p == PivotRow(Rows(mat, n), col, from)
  {
    ghost var m := Rows(mat, n);
    p := from;
    while p < |mat| && mat[p][col] == 0
      invariant from <= p <= |mat|
      invariant forall r :: from <= r < p ==> At(m, r, col) == 0
    {
      assert m[p] == mat[p][..n];
      p := p + 1;
    }
    assert p < |mat| ==> m[p] == mat[p][..n];
    PivotRowUnique(m, col, from, p);
  }

  lemma {:induction false} PivotRowUnique(m: Matrix, col: nat, from: nat, p: nat)
    requires from <= p <= |m|
    requires forall r :: from <= r < p ==> At(m, r, col) == 0
    requires p < |m| ==> At(m, p, col) != 0
    ensures p == PivotRow(m, col, from)
    decreases p - from
  {
    if from < p { PivotRowUnique(m, col, from + 1, p); }
  }

  /** Exchanges two pointers of a row table. */
  method SwapPointers(p: seq<array<Byte>>, a: nat, b: nat) returns (q: seq<array<Byte>>)
    requires a < |p| && b < |p|
    ensures q == Swap(p, a, b) && Within(q, p)
  {
    q := p[a := p[b]][b := p[a]];
  }

  lemma RowsSwapped(p: seq<array<Byte>>, a: nat, b: nat, width: nat)
    requires a < |p| && b < |p| && Separate(p, width)
    ensures Separate(Swap(p, a, b), width) && Rows(Swap(p, a, b), width) == Swap(Rows(p, width), a, b)
  {
  }

  /** Makes the pivot of row i one. */
  method ScalePivot(mat: seq<array<Byte>>, inv: seq<array<Byte>>, i: nat, n: nat,
                    ghost store: seq<array<Byte>>, ghost ptr: seq<nat>)
    requires Sound(store, ptr, inv, n) && Views(mat, store, ptr) && i < |ptr| && i < n
    modifies mat[i], inv[i]
    ensures var t := old(Memory(store, ptr, inv, n));
            var c := DivElem(1, t.store[ptr[i]][i]);
            Memory(store, ptr, inv, n)
            == Tables(t.store[ptr[i] := ScaledFrom(t.store[ptr[i]], c, i)], ptr, t.inv[i := Scaled(t.inv[i], c)])
  {
    hide Mul, DivElem, Scaled, ScaledFrom;
    ghost var t := Memory(store, ptr, inv, n);
    assert mat[i][..n] == t.store[ptr[i]];
    var x, y := mat[i], inv[i];
    assert forall r :: 0 <= r < |store| && r != ptr[i] ==> store[r] != x;
    assert forall l :: 0 <= l < |inv| && l != i ==> inv[l] != y;
    var c := DivElem(1, x[i]);
    ScaleTail(x, c, i, n);
    MulVecLocal(y, c, |inv|);
    assert Rows(store, n) == t.store[ptr[i] := ScaledFrom(t.store[ptr[i]], c, i)];
    assert inv[i][..|inv|] == Scaled(t.inv[i], c);
    assert Rows(inv, |inv|) == t.inv[i := Scaled(t.inv[i], c)];
  }

  /** Swaps the pivot row into place and makes its pivot one. */
  method PreparePivot(mat0: seq<array<Byte>>, inv0: seq<array<Byte>>, i: nat, p: nat, n: nat,
                      ghost store: seq<array<Byte>>, ghost ptr: seq<nat>)
    returns (mat: seq<array<Byte>>, inv: seq<array<Byte>>)
    requires Sound(store, ptr, inv0, n) && Views(mat0, store, ptr)
    requires i < |mat0| && p < |mat0| && i < n
    modifies store, inv0
    ensures Within(inv, inv0) && Sound(store, Swap(ptr, i, p), inv, n) && Views(mat, store, Swap(ptr, i, p))
    ensures Memory(store, Swap(ptr, i, p), inv, n) == Prepared(old(Memory(store, ptr, inv0, n)), i, p, n)
  {
    hide DivElem, Scaled, ScaledFrom;
    mat := SwapPointers(mat0, i, p);
    inv := SwapPointers(inv0, i, p);
    RowsSwapped(inv0, i, p, |inv0|);
    DisjointWithin(store, store, inv, inv0);
    ScalePivot(mat, inv, i, n, store, Swap(ptr, i, p));
  }

  /** One round of elimination, for the pivot in row p. */
  method EliminateColumn(mat0: seq<array<Byte>>, inv0: seq<array<Byte>>, i: nat, p: nat, n: nat,
                         ghost store: seq<array<Byte>>, ghost ptr: seq<nat>)
    returns (mat: seq<array<Byte>>, inv: seq<array<Byte>>)
    requires Sound(store, ptr, inv0, n) && Views(mat0, store, ptr)
    requires i < |mat0| && p < |mat0| && i < n
    modifies store, inv0
    ensures Within(inv, inv0) && Sound(store, Swap(ptr, i, p), inv, n) && Views(mat, store, Swap(ptr, i, p))
    ensures Memory(store, Swap(ptr, i, p), inv, n) == Round(old(Memory(store, ptr, inv0, n)), i, p, n)
  {
    hide Prepared, ClearFrom, Disjoint, Separate;
    mat, inv := PreparePivot(mat0, inv0, i, p, n, store, ptr);
    ClearOthers(mat, inv, i, n, store, Swap(ptr, i, p));
  }

  lemma EliminateUnfold(t: Tables, i: nat, n: nat)
    requires t.Valid(n) && i <= n && i <= |t.ptr|
    ensures i == n ==> EliminateShared(t, i, n) == (n, t)
    ensures i < n && PivotRow(t.Shown(n), i, i) == |t.ptr| ==> EliminateShared(t, i, n) == (i, t)
    ensures var p := PivotRow(t.Shown(n), i, i);
            i < n && p < |t.ptr| ==> EliminateShared(t, i, n) == EliminateShared(Round(t, i, p, n), i + 1, n)
  {
  }

  lemma DisjointWithin(p: seq<array<Byte>>, p0: seq<array<Byte>>, q: seq<array<Byte>>, q0: seq<array<Byte>>)
    requires Within(p, p0) && Within(q, q0) && Disjoint(p0, q0)
    ensures Disjoint(p, q)
  {
  }

  lemma WithinTransitive(p: seq<array<Byte>>, q: seq<array<Byte>>, r: seq<array<Byte>>)
    requires Within(p, q) && Within(q, r)
    ensures Within(p, r)
  {
  }

  /** The row table shows the rows that the pointers lead to. */
  lemma RowsShown(mat: seq<array<Byte>>, store: seq<array<Byte>>, ptr: seq<nat>, inv: seq<array<Byte>>, n: nat)
    requires Sound(store, ptr, inv, n) && Views(mat, store, ptr)
    ensures forall k :: 0 <= k < |mat| ==> n <= mat[k].Length
    ensures Rows(mat, n) == Memory(store, ptr, inv, n).Shown(n)
  {
    var s := Rows(store, n);
    forall k | 0 <= k < |mat| ensures mat[k][..n] == s[ptr[k]] {}
  }

  /** Looks for the pivot of column i and, if there is one, reduces the column. */
  method EliminationRound(mat0: seq<array<Byte>>, inv0: seq<array<Byte>>, i: nat, n: nat,
                          ghost store: seq<array<Byte>>, ghost ptr0: seq<nat>)
    returns (found: bool, mat: seq<array<Byte>>, inv: seq<array<Byte>>, ghost ptr: seq<nat>)
    requires Sound(store, ptr0, inv0, n) && Views(mat0, store, ptr0) && i < n && i <= |mat0|
    modifies store, inv0
    ensures Within(inv, inv0) && |ptr| == |ptr0| && Sound(store, ptr, inv, n) && Views(mat, store, ptr)
    ensures found ==> i < |ptr|
    ensures EliminateShared(old(Memory(store, ptr0, inv0, n)), i, n) ==
            if found then EliminateShared(Memory(store, ptr, inv, n), i + 1, n) else (i, Memory(store, ptr, inv, n))
  {
    hide EliminateShared, Round, Sound;
    mat, inv, ptr := mat0, inv0, ptr0;
    RowsShown(mat, store, ptr, inv, n);
    EliminateUnfold(Memory(store, ptr, inv, n), i, n);
    var p := FindPivot(mat, i, i, n);
    found := p < |mat|;
    if found {
      mat, inv := EliminateColumn(mat, inv, i, p, n, store, ptr);
      ptr := Swap(ptr, i, p);
    }
  }

  /** Reduces the first n columns of the matrix and applies every row operation to the transform
      as well. The rows are changed in place; the row tables are returned with their rows swapped.
      Pointers of the row table may lead to the same row. */
  method GaussianElimination(mat0: seq<array<Byte>>, inv0: seq<array<Byte>>, n: nat,
                             ghost store: seq<array<Byte>>, ghost ptr0: seq<nat>)
    returns (rank: nat, mat: seq<array<Byte>>, inv: seq<array<Byte>>, ghost ptr: seq<nat>)
    requires Sound(store, ptr0, inv0, n) && Views(mat0, store, ptr0)
    modifies store, inv0
    ensures Within(inv, inv0) && |ptr| == |ptr0| && Sound(store, ptr, inv, n) && Views(mat, store, ptr)
    ensures (rank, Memory(store, ptr, inv, n)) == EliminateShared(old(Memory(store, ptr0, inv0, n)), 0, n)
  {
    hide EliminateShared, Disjoint, Separate, Views, Sound;
    mat, inv, ptr := mat0, inv0, ptr0;
    ghost var result := EliminateShared(Memory(store, ptr, inv, n), 0, n);
    var i := 0;
    while i < n
      invariant i <= n && i <= |ptr| == |ptr0| && Within(inv, inv0)
      invariant Sound(store, ptr, inv, n) && Views(mat, store, ptr)
      invariant result == EliminateShared(Memory(store, ptr, inv, n), i, n)
    {
      var found, mat', inv';
      ghost var ptr';
      ViewsLength(mat, store, ptr);
      found, mat', inv', ptr' := EliminationRound(mat, inv, i, n, store, ptr);
      WithinTransitive(inv', inv, inv0);
      mat, inv, ptr := mat', inv', ptr';
      if !found { return i, mat, inv, ptr; }
      i := i + 1;
    }
    EliminateUnfold(Memory(store, ptr, inv, n), n, n);
    return n, mat, inv, ptr;
  }

  lemma ViewsLength(mat: seq<array<Byte>>, store: seq<array<Byte>>, ptr: seq<nat>)
    requires Views(mat, store, ptr)
    ensures |mat| == |ptr|
  {
  }

  // ----- the solver -----

  /** The solution the transform computes from the right-hand sides y. */
  function Solution(inv: Matrix, y: Matrix, n: nat, width: nat): (x: Matrix)
    requires n <= |inv|
    ensures HasShape(x, n, width)
  {
    seq(n, i requires 0 <= i < n => Combination(inv[i], y, width))
  }

  method NewIdentityMat(n: nat) returns (p: seq<array<Byte>>)
    ensures |p| == n && Separate(p, n) && Rows(p, n) == Identity(n)
    ensures forall k :: 0 <= k < n ==> fresh(p[k])
  {
    p := [];
    for i := 0 to n
      invariant |p| == i && Separate(p, n)
      invariant forall k :: 0 <= k < i ==> fresh(p[k]) && p[k][..n] == Identity(n)[k]
    {
      var row := new Byte[n](_ => 0);
      row[i] := 1;
      assert row[..n] == Identity(n)[i];
      p := p + [row];
    }
  }

  /** Writes the solution for the first n unknowns into X. */
  method MultiplyAll(X: seq<array<Byte>>, Y: seq<array<Byte>>, inv: seq<array<Byte>>, n: nat, width: nat)
    requires |Y| == |inv| && n <= |X| && n <= |inv|
    requires Separate(X, width) && (forall k :: 0 <= k < |Y| ==> width <= Y[k].Length)
    requires forall k :: 0 <= k < |inv| ==> |inv| <= inv[k].Length
    requires Disjoint(X, Y) && Disjoint(X, inv)
    modifies X
    ensures var t, y, x := old(Rows(inv, |inv|)), old(Rows(Y, width)), old(Rows(X, width));
            Rows(X, width) == Solution(t, y, n, width) + x[n..]
  {
    hide Mul, Add, Combination;
    ghost var t, y, x := Rows(inv, |inv|), Rows(Y, width), Rows(X, width);
    ghost var x' := Solution(t, y, n, width) + x[n..];
    for i := 0 to n
      invariant forall k :: 0 <= k < |X| ==> X[k][..width] == if k < i then x'[k] else x[k]
    {
      MultiplyRow(X, Y, inv[i], i, |inv|, width);
      assert Rows(Y, width) == y && inv[i][..|inv|] == t[i];
    }
  }

  /** Writes unknown i of the solution. */
  method MultiplyRow(X: seq<array<Byte>>, Y: seq<array<Byte>>, t: array<Byte>, i: nat, col: nat, width: nat)
    requires |Y| == col >= 1 && i < |X| && col <= t.Length
    requires Separate(X, width) && (forall k :: 0 <= k < |Y| ==> width <= Y[k].Length)
    requires Disjoint(X, Y) && forall k :: 0 <= k < |X| ==> X[k] != t
    modifies X[i]
    ensures forall k :: 0 <= k < |X| && k != i ==> X[k][..] == old(X[k][..])
    ensures X[i][..width] == Combination(t[..col], Rows(Y, width), width)
  {
    hide Mul, Add, Combination;
    ghost var y := Rows(Y, width);
    var z := X[i];
    assert forall k :: 0 <= k < |X| && k != i ==> X[k] != z;
    assert Y[..col] == Y;
    MulMat(z, Y, t, col, width);
    assert Rows(Y, width) == y;
  }

  /** Solves A x = Y for the first n unknowns. If some column has no pivot, X is left alone. */
  method GaussianSolve(A: seq<array<Byte>>, Y: seq<array<Byte>>, X: seq<array<Byte>>, n: nat, width: nat,
                       ghost store: seq<array<Byte>>, ghost ptr: seq<nat>)
    returns (rank: nat)
    requires Views(A, store, ptr) && Separate(store, n)
    requires |Y| == |A| && n <= |X| && Separate(X, width)
    requires forall k :: 0 <= k < |Y| ==> width <= Y[k].Length
    requires Disjoint(store, Y) && Disjoint(X, Y) && Disjoint(store, X)
    modifies store, X
    ensures var x, y := old(Rows(X, width)), old(Rows(Y, width));
            var (r, t) := EliminateShared(Tables(old(Rows(store, n)), ptr, Identity(|A|)), 0, n);
            rank == r && Rows(X, width) == if rank == n then Solution(t.inv, y, n, width) + x[n..] else x
  {
    hide Mul, Add, Solution, EliminateShared;
    ghost var y, x := Rows(Y, width), Rows(X, width);
    var invA := NewIdentityMat(|A|);
    var matA;
    ghost var ptr';
    rank, matA, invA, ptr' := GaussianElimination(A, invA, n, store, ptr);
    assert Rows(Y, width) == y && Rows(X, width) == x;
    if rank == n {
      MultiplyAll(X, Y, invA, n, width);
    }
  }

  // ----- the rank routine -----

  /** Divides the entries r to n - 1 of x by entry r, the last one first. */
  method DivideTail(x: array<Byte>, r: nat, n: nat)
    requires r < n <= x.Length && x[r] != 0
    requires ZeroBefore(x[..n], r)
    modifies x
    ensures x[..n] == Scaled(old(x[..n]), DivElem(1, old(x[r]))) && x[n..] == old(x[n..])
  {
    hide Mul, Inverse;
    ghost var y := x[r];
    MulOneLeft(Inverse(y));
    NoZeroDivisors(Inverse(y), 0);
    var j := n;
    while j > r
      invariant r <= j <= n
      invariant forall k :: j <= k < n ==> x[k] == Mul(Inverse(y), old(x[k]))
      invariant forall k :: 0 <= k < x.Length && !(j <= k < n) ==> x[k] == old(x[k])
    {
      j := j - 1;
      MulCommutes(x[j], Inverse(y));
      x[j] := DivElem(x[j], x[r]);
    }
    assert forall k :: 0 <= k < r ==> old(x[..n])[k] == 0;
  }

  /** Clears column r below row i. */
  method ClearBelow(mat: seq<array<Byte>>, i: nat, r: nat, n: nat)
    requires i < |mat| && r < n && Separate(mat, n) && ZeroBefore(mat[i][..n], r)
    modifies mat
    ensures var m := old(Rows(mat, n));
            Rows(mat, n) == ClearColumn(m, i, seq(|m|, (k: nat) => if k > i then At(m, k, r) else 0))
  {
    hide AddScaled, ClearColumn, Add, Mul;
    ghost var m := Rows(mat, n);
    ghost var f := seq(|m|, (k: nat) => if k > i then At(m, k, r) else 0);
    ghost var m' := ClearColumn(m, i, f);
    forall k | 0 <= k <= i ensures m'[k] == m[k] { ClearedRow(m, i, f, k); }
    for k := i + 1 to |mat|
      invariant forall l :: 0 <= l < |mat| ==> mat[l][..n] == if l < k then m'[l] else m[l]
    {
      ClearedRow(m, i, f, k);
      ClearBelowStep(mat, i, k, r, n);
    }
  }

  /** Clears the entry of row k in column r. */
  method ClearBelowStep(mat: seq<array<Byte>>, i: nat, k: nat, r: nat, n: nat)
    requires i < k < |mat| && r < n && Separate(mat, n) && ZeroBefore(mat[i][..n], r)
    modifies mat[k]
    ensures forall l :: 0 <= l < |mat| && l != k ==> mat[l][..] == old(mat[l][..])
    ensures var c := old(mat[k][r]);
            mat[k][..n] == if c == 0 then old(mat[k][..n]) else AddScaled(old(mat[k][..n]), old(mat[i][..n]), c)
  {
    hide AddScaled, Add, Mul;
    var c := mat[k][r];
    if c == 0 { return; }
    var z := mat[k];
    assert forall l :: 0 <= l < |mat| && l != k ==> mat[l] != z;
    AddScaledFromIsAddScaled(z[..n], mat[i][..n], c, r);
    SubtractTail(z, mat[i], c, r, n);
  }

  /** One pivot of the rank routine. */
  method ReduceForward(mat0: seq<array<Byte>>, i: nat, p: nat, r: nat, n: nat) returns (mat: seq<array<Byte>>)
    requires i <= p < |mat0| && r < n && Separate(mat0, n)
    requires mat0[p][r] != 0 && ZeroBefore(mat0[p][..n], r)
    modifies mat0
    ensures |mat| == |mat0| && Within(mat, mat0) && Separate(mat, n)
    ensures Rows(mat, n) == ForwardStep(old(Rows(mat0, n)), i, p, r)
  {
    hide Mul, DivElem, Scaled, ClearColumn;
    ghost var m := Rows(mat0, n);
    mat := SwapPointers(mat0, i, p);
    RowsSwapped(mat0, i, p, n);
    ghost var s := Rows(mat, n);
    assert s[i] == mat[i][..n] == m[p];
    DivideTail(mat[i], r, n);
    assert Rows(mat, n) == ScaleRow(s, i, DivElem(1, At(m, p, r)));
    ScaledZeroBefore(m[p], DivElem(1, At(m, p, r)), r);
    ClearBelow(mat, i, r, n);
  }

  lemma RankUnfold(m: Matrix, i: nat, r: nat, n: nat)
    requires HasShape(m, |m|, n) && i < MinOf(|m|, n) && r < n
    ensures var p := PivotRow(m, r, i);
            RankFrom(m, i, r, n) ==
            if p < |m| then RankFrom(ForwardStep(m, i, p, r), i + 1, r, n)
            else if r + 1 >= n then i
            else RankFrom(m, i, r + 1, n)
  {
  }

  /** Searches from column r on for a pivot below row i - 1; p is |mat| if there is none. */
  method FindPivotColumn(mat: seq<array<Byte>>, i: nat, r0: nat, n: nat) returns (p: nat, r: nat)
    requires i < MinOf(|mat|, n) && r0 < n
    requires forall k :: 0 <= k < |mat| ==> n <= mat[k].Length
    requires ZeroRows(Rows(mat, n), i, r0)
    ensures p <= |mat|
    ensures p < |mat| ==> i <= p && r < n && mat[p][r] != 0 && ZeroBefore(mat[p][..n], r)
    ensures p < |mat| ==> ZeroRows(ForwardStep(Rows(mat, n), i, p, r), i + 1, r)
    ensures RankFrom(Rows(mat, n), i, r0, n) ==
            if p < |mat| then RankFrom(ForwardStep(Rows(mat, n), i, p, r), i + 1, r, n) else i
  {
    hide RankFrom, ForwardStep;
    ghost var m := Rows(mat, n);
    r := r0;
    p := FindPivot(mat, r, i, n);
    while p == |mat|
      invariant r < n && p == PivotRow(m, r, i) && ZeroRows(m, i, r)
      invariant RankFrom(m, i, r, n) == RankFrom(m, i, r0, n)
      decreases n - r
    {
      RankUnfold(m, i, r, n);
      ZeroColumn(m, i, r);
      r := r + 1;
      if r >= n { return; }
      p := FindPivot(mat, r, i, n);
    }
    RankUnfold(m, i, r, n);
    assert m[p] == mat[p][..n];
    ForwardKeepsZeroRows(m, i, p, r, n);
  }

  /** The number of pivots of forward elimination; the rows are changed in place. */
  method GetRank(mat0: seq<array<Byte>>, n: nat) returns (rank: nat)
    requires Separate(mat0, n)
    modifies mat0
    ensures rank == RankOf(old(Rows(mat0, n)), n)
  {
    hide RankFrom, RankOf, ForwardStep, ZeroRows, ZeroBefore;
    RankStarts(old(Rows(mat0, n)), n);
    var mat := mat0;
    var maxRank := if |mat| < n then |mat| else n;
    var i: nat, r: nat := 0, 0;
    NoColumnsYet(Rows(mat, n));
    while i < maxRank
      invariant i <= maxRank && |mat| == |mat0| && Within(mat, mat0) && Separate(mat, n)
      invariant r < n || i == maxRank
      invariant ZeroRows(Rows(mat, n), i, r)
      invariant RankFrom(Rows(mat, n), i, r, n) == RankOf(old(Rows(mat0, n)), n)
      decreases maxRank - i
    {
      var p;
      p, r := FindPivotColumn(mat, i, r, n);
      if p == |mat| { return i; }
      mat := ReduceForward(mat, i, p, r, n);
      i := i + 1;
    }
    RankDone(Rows(mat, n), i, r, n);
    return maxRank;
  }

  lemma RankStarts(m: Matrix, n: nat)
    requires HasShape(m, |m|, n)
    ensures RankOf(m, n) == RankFrom(m, 0, 0, n)
  {
  }

  lemma NoColumnsYet(m: Matrix)
    ensures ZeroRows(m, 0, 0)
  {
  }

  lemma RankDone(m: Matrix, i: nat, r: nat, n: nat)
    requires HasShape(m, |m|, n) && i == MinOf(|m|, n)
    ensures RankFrom(m, i, r, n) == i
  {
  }

  /** A failed search leaves one more zero column. */
  lemma ZeroColumn(m: Matrix, i: nat, r: nat)
    requires i <= |m| && ZeroRows(m, i, r) && PivotRow(m, r, i) == |m|
    ensures ZeroRows(m, i, r + 1)
  {
    forall s, j | i <= s < |m| && 0 <= j < r + 1 && j < |m[s]| ensures m[s][j] == 0 {
      assert j == r ==> At(m, s, r) == 0;
    }
  }
}
