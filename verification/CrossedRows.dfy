/**
 Elimination with a repeated unit row beside one mixing row. The mixing row becomes the pivot row of
 column r and changes the shared row once, but the transform follows only for one of its pointers.
 If the other one is used as a pivot later, the answers for two unknowns change places.
 */
module CrossedRows {
  import opened GaloisField
  import opened LinearAlgebra
  import opened Elimination
  import opened SharedRows
  import opened PlantedRows

  /** The unit rows before r, the mixing row q, unit row r twice, and unit row r + 1. */
  function CrossedIds(r: nat, q: nat): (ids: seq<nat>)
    ensures |ids| == r + 4
  {
    seq(r, (k: nat) => k) + [q, r, r, r + 1]
  }

  /** Row q mixes unknowns r and r + 2; the rows before it are unit rows. */
  predicate CrossedTable(g: Matrix, r: nat, q: nat) {
    HasShape(g, |g|, r + 3) && r + 3 <= q < |g| &&
    (forall k, c :: 0 <= k < r + 3 && 0 <= c < r + 3 ==> g[k][c] == Delta(k, c)) &&
    g[q][r] != 0 && g[q][r + 2] != 0 && forall c :: 0 <= c < r + 3 && c != r && c != r + 2 ==> g[q][c] == 0
  }

  /** The coefficient of unknown r + 2 once that of unknown r is one. */
  function Ratio(g: Matrix, r: nat, q: nat): Byte
    requires CrossedTable(g, r, q)
  {
    Mul(DivElem(1, g[q][r]), g[q][r + 2])
  }

  lemma RatioNotZero(g: Matrix, r: nat, q: nat)
    requires CrossedTable(g, r, q)
    ensures Ratio(g, r, q) != 0
  {
    hide Mul, DivElem;
    PivotScale(g[q][r]);
    NoZeroDivisors(DivElem(1, g[q][r]), g[q][r + 2]);
  }

  lemma {:induction false} ClearSkip(t: Tables, i: nat, k: nat, m: nat, n: nat)
    requires t.Valid(n) && i < |t.ptr| && k <= m <= |t.ptr| && i < n
    requires forall l :: k <= l < m ==> l == i || t.store[t.ptr[l]][i] == 0
    ensures ClearFrom(t, i, k, n) == ClearFrom(t, i, m, n)
    decreases m - k
  {
    if k < m { ClearSkip(t, i, k + 1, m, n); }
  }

  lemma {:induction false} ClearKeepsEarlier(t: Tables, i: nat, k: nat, n: nat, l: nat)
    requires t.Valid(n) && i < |t.ptr| && k <= |t.ptr| && i < n && l < |t.ptr| && (l < k || l == i)
    ensures ClearFrom(t, i, k, n).inv[l] == t.inv[l]
    decreases |t.ptr| - k
  {
    hide AddScaled, AddScaledFrom;
    if k < |t.ptr| {
      if k == i || t.store[t.ptr[k]][i] == 0 {
        ClearKeepsEarlier(t, i, k + 1, n, l);
      } else {
        ClearKeepsEarlier(ClearOne(t, i, k, n), i, k + 1, n, l);
      }
    }
  }

  lemma SwapNothing<T>(s: seq<T>, i: nat)
    requires i < |s|
    ensures Swap(s, i, i) == s
  {
  }

  /** The rounds before r find their unit row in place and change nothing. */
  lemma EarlyRound(g: Matrix, r: nat, q: nat, i: nat)
    requires CrossedTable(g, r, q) && i < r
    ensures var n, t := r + 3, Tables(g, CrossedIds(r, q), Identity(r + 4));
            PivotRow(t.Shown(n), i, i) == i && Round(t, i, i, n) == t
  {
    hide ClearFrom, Prepared;
    var n, t := r + 3, Tables(g, CrossedIds(r, q), Identity(r + 4));
    assert t.ptr[i] == i;
    assert At(t.Shown(n), i, i) == g[i][i] == 1;
    PreparedUnit(t, i, i, n);
    SwapNothing(t.ptr, i);
    SwapNothing(t.inv, i);
    forall l | 0 <= l < |t.ptr| && l != i ensures t.store[t.ptr[l]][i] == 0 { assert t.ptr[l] != i; }
    ClearNothing(t, i, 0, n);
  }

  lemma {:induction false} EarlyRounds(g: Matrix, r: nat, q: nat, i: nat)
    requires CrossedTable(g, r, q) && i <= r
    ensures var t := Tables(g, CrossedIds(r, q), Identity(r + 4));
            EliminateShared(t, i, r + 3) == EliminateShared(t, r, r + 3)
    decreases r - i
  {
    hide Round, CrossedTable;
    if i < r {
      EarlyRound(g, r, q, i);
      EarlyRounds(g, r, q, i + 1);
    }
  }

  /** After round r: the shared unit row has become a multiple of unit row r + 2, and of its two
      pointers only the first one's transform row says so. */
  function AfterMixing(g: Matrix, r: nat, q: nat): (t: Tables)
    requires CrossedTable(g, r, q)
    ensures t.Valid(r + 3) && t.ptr == CrossedIds(r, q)
  {
    var u := Prepared(Tables(g, CrossedIds(r, q), Identity(r + 4)), r, r, r + 3);
    SwapNothing(CrossedIds(r, q), r);
    ClearOne(u, r, r + 1, r + 3)
  }

  lemma MixingRound(g: Matrix, r: nat, q: nat)
    requires CrossedTable(g, r, q)
    ensures var n, t := r + 3, Tables(g, CrossedIds(r, q), Identity(r + 4));
            PivotRow(t.Shown(n), r, r) == r && Round(t, r, r, n) == AfterMixing(g, r, q)
  {
    hide Scaled, ScaledFrom, AddScaled, AddScaledFrom, DivElem, ClearFrom;
    var n, t := r + 3, Tables(g, CrossedIds(r, q), Identity(r + 4));
    assert At(t.Shown(n), r, r) == g[q][r];
    PivotBecomesOne(g[q], r);
    SwapNothing(t.ptr, r);
    var u, v := Prepared(t, r, r, n), AfterMixing(g, r, q);
    forall l | 0 <= l < |t.ptr| && l != r && l != r + 1 && l != r + 2 ensures u.store[u.ptr[l]][r] == 0 {}
    ClearSkip(u, r, 0, r + 1, n);
    assert u.store[r][r] == 1;
    ClearUnfold(u, r, r + 1, n);
    MixedEntries(g, r, q);
    ClearNothing(v, r, r + 2, n);
  }

  lemma ClearUnfold(t: Tables, i: nat, k: nat, n: nat)
    requires t.Valid(n) && i < |t.ptr| && k < |t.ptr| && i < n && k != i && t.store[t.ptr[k]][i] != 0
    ensures ClearFrom(t, i, k, n) == ClearFrom(ClearOne(t, i, k, n), i, k + 1, n)
  {
  }

  /** The rows after round r. */
  lemma MixedEntries(g: Matrix, r: nat, q: nat)
    requires CrossedTable(g, r, q)
    ensures var s, e := AfterMixing(g, r, q).store, Ratio(g, r, q);
            s[r][r] == 0 && s[r][r + 1] == 0 && s[r][r + 2] == e && s[q][r + 1] == 0 && s[q][r + 2] == e &&
            forall k :: 0 <= k < r + 3 && k != r ==> s[k] == g[k]
  {
    hide DivElem, Scaled, AddScaled, Mul, Add;
    var d := DivElem(1, g[q][r]);
    var row := ScaledFrom(g[q], d, r);
    PivotBecomesOne(g[q], r);
    NoZeroDivisors(d, 0);
    assert row[r] == 1 && row[r + 1] == 0 && row[r + 2] == Ratio(g, r, q);
    var changed := AddScaledFrom(g[r], row, 1, r);
    MulOneLeft(1);
    MulOneLeft(0);
    MulOneLeft(row[r + 2]);
    AddZeroSelf(1);
    AddZeroSelf(0);
    AddZeroSelf(row[r + 2]);
    assert changed[r] == 0 && changed[r + 1] == 0 && changed[r + 2] == row[r + 2];
  }

  /** Round r + 1 fetches unit row r + 1 from behind and so puts the wrong pointer first. */
  function AfterSwap(g: Matrix, r: nat, q: nat): (t: Tables)
    requires CrossedTable(g, r, q)
    ensures t.Valid(r + 3) && |t.ptr| == r + 4
  {
    var t := AfterMixing(g, r, q);
    Tables(t.store, Swap(t.ptr, r + 1, r + 3), Swap(t.inv, r + 1, r + 3))
  }

  lemma SwapRound(g: Matrix, r: nat, q: nat)
    requires CrossedTable(g, r, q)
    ensures var n, t := r + 3, AfterMixing(g, r, q);
            PivotRow(t.Shown(n), r + 1, r + 1) == r + 3 && Round(t, r + 1, r + 3, n) == AfterSwap(g, r, q)
  {
    hide AfterMixing, ClearFrom, Prepared;
    var n, t, u := r + 3, AfterMixing(g, r, q), AfterSwap(g, r, q);
    MixedEntries(g, r, q);
    var m := t.Shown(n);
    assert At(m, r + 1, r + 1) == t.store[r][r + 1] == 0;
    assert At(m, r + 2, r + 1) == t.store[r][r + 1] == 0;
    assert At(m, r + 3, r + 1) == t.store[r + 1][r + 1] == 1;
    PreparedUnit(t, r + 1, r + 3, n);
    forall l | 0 <= l < |u.ptr| && l != r + 1
      ensures u.store[u.ptr[l]][r + 1] == 0
    {
      assert u.ptr[l] == t.ptr[Source(r + 1, r + 3, l)];
    }
    ClearNothing(u, r + 1, 0, n);
  }

  /** The rows before the last round is cleared. */
  lemma LastPivot(g: Matrix, r: nat, q: nat)
    requires CrossedTable(g, r, q)
    ensures var n, t, e := r + 3, AfterSwap(g, r, q), Ratio(g, r, q);
            var u := Prepared(t, r + 2, r + 2, n);
            PivotRow(t.Shown(n), r + 2, r + 2) == r + 2 && u.ptr == t.ptr && u.store[u.ptr[r]][r + 2] == e &&
            u.inv == t.inv[r + 2 := Scaled(t.inv[r + 2], DivElem(1, e))] &&
            forall l :: 0 <= l < r + 2 && l != r ==> u.store[u.ptr[l]] == g[l]
  {
    hide AfterMixing, Scaled, ScaledFrom, DivElem, Ratio;
    var n, t, e := r + 3, AfterSwap(g, r, q), Ratio(g, r, q);
    MixedEntries(g, r, q);
    RatioNotZero(g, r, q);
    assert t.ptr[r + 2] == r && t.ptr[r] == q && t.ptr[r + 1] == r + 1;
    assert At(t.Shown(n), r + 2, r + 2) == t.store[r][r + 2] == e;
    SwapNothing(t.ptr, r + 2);
    SwapNothing(t.inv, r + 2);
    assert forall l :: 0 <= l < r ==> t.ptr[l] == l;
  }

  /** Clearing where, of the rows before i, only row j has an entry. */
  lemma ClearSingle(t: Tables, i: nat, j: nat, n: nat)
    requires t.Valid(n) && j < i < |t.ptr| && i < n && t.store[t.ptr[j]][i] != 0
    requires forall l :: 0 <= l < i && l != j ==> t.ptr[l] != t.ptr[j] && t.store[t.ptr[l]][i] == 0
    ensures var inv := ClearFrom(t, i, 0, n).inv;
            inv[i] == t.inv[i] && inv[j] == AddScaled(t.inv[j], t.inv[i], t.store[t.ptr[j]][i]) &&
            forall l :: 0 <= l < i && l != j ==> inv[l] == t.inv[l]
  {
    hide ClearFrom, AddScaled, AddScaledFrom;
    ClearSkip(t, i, 0, j, n);
    ClearUnfold(t, i, j, n);
    var u := ClearOne(t, i, j, n);
    ClearSkip(u, i, j + 1, i, n);
    forall l | 0 <= l <= i ensures ClearFrom(u, i, i, n).inv[l] == u.inv[l] { ClearKeepsEarlier(u, i, i, n, l); }
  }

  /** The last round uses the wrong pointer. */
  lemma LastRound(g: Matrix, r: nat, q: nat)
    requires CrossedTable(g, r, q)
    ensures var n, t, e := r + 3, AfterSwap(g, r, q), Ratio(g, r, q);
            var u, last := Round(t, r + 2, r + 2, n), Scaled(t.inv[r + 2], DivElem(1, e));
            PivotRow(t.Shown(n), r + 2, r + 2) == r + 2 && u.inv[r + 2] == last &&
            u.inv[r] == AddScaled(t.inv[r], last, e) && forall l :: 0 <= l < r + 2 && l != r ==> u.inv[l] == t.inv[l]
  {
    hide AfterSwap, Prepared, ClearFrom, Scaled, AddScaled, DivElem, Ratio;
    var n, t := r + 3, AfterSwap(g, r, q);
    LastPivot(g, r, q);
    RatioNotZero(g, r, q);
    PointersApart(g, r, q);
    ClearSingle(Prepared(t, r + 2, r + 2, n), r + 2, r, n);
  }

  lemma PointersApart(g: Matrix, r: nat, q: nat)
    requires CrossedTable(g, r, q)
    ensures AfterSwap(g, r, q).ptr[r] == q && forall l :: 0 <= l < r + 2 && l != r ==> AfterSwap(g, r, q).ptr[l] == l
  {
  }

  /** What the transform yields for unknown c: unknowns r and r + 2 change places. */
  function CrossedTarget(g: Matrix, r: nat, q: nat, c: nat): Vector
    requires CrossedTable(g, r, q)
  {
    var id, e := Identity(r + 3), Ratio(g, r, q);
    if c == r then Scaled(id[r + 2], e) else if c == r + 2 then Scaled(id[r], DivElem(1, e)) else if c < r + 3 then id[c] else []
  }

  // ----- the answer -----

  lemma YieldsAdd(g: Matrix, ids: seq<nat>, row: Vector, w: Vector, row': Vector, w': Vector, c: Byte)
    requires InTable(ids, |g|) && Yields(g, ids, row, w) && Yields(g, ids, row', w')
    requires |row| == |row'| && |w| == |w'|
    ensures Yields(g, ids, AddScaled(row, row', c), AddScaled(w, w', c))
  {
    hide Dot, AddScaled;
    forall x: nat -> Byte ensures Dot(AddScaled(row, row', c), RightHand(g, ids, x)) == Dot(AddScaled(w, w', c), x) {
      DotAddScaled(row, row', c, RightHand(g, ids, x));
      DotAddScaled(w, w', c, x);
    }
  }

  /** The transform rows before the last round. */
  lemma SwappedTransform(g: Matrix, r: nat, q: nat)
    requires CrossedTable(g, r, q)
    ensures var inv, id := AfterSwap(g, r, q).inv, Identity(r + 4);
            inv[r] == Scaled(id[r], DivElem(1, g[q][r])) && inv[r + 1] == id[r + 3] && inv[r + 2] == id[r + 2] &&
            forall l :: 0 <= l < r ==> inv[l] == id[l]
  {
    hide AddScaled, AddScaledFrom, Scaled, ScaledFrom, DivElem, Identity;
    var id := Identity(r + 4);
    SwapNothing(id, r);
    assert CrossedIds(r, q)[r] == q;
  }

  /** The row of unknown r, after the last round: the mixing row without unknown r, and unknown r from
      the wrong pointer, cancel out to a multiple of unknown r + 2. */
  lemma CrossedMix(g: Matrix, r: nat, q: nat)
    requires CrossedTable(g, r, q)
    ensures var id, e := Identity(r + 3), Ratio(g, r, q);
            AddScaled(Scaled(g[q], DivElem(1, g[q][r])), Scaled(id[r], DivElem(1, e)), e) == Scaled(id[r + 2], e)
  {
    hide Mul, Add, DivElem;
    var n, id, d, e := r + 3, Identity(r + 3), DivElem(1, g[q][r]), Ratio(g, r, q);
    var f := DivElem(1, e);
    RatioNotZero(g, r, q);
    PivotScale(g[q][r]);
    PivotScale(e);
    MulCommutes(e, f);
    MulOneRight(f);
    MulOneRight(e);
    NoZeroDivisors(d, 0);
    NoZeroDivisors(f, 0);
    NoZeroDivisors(e, 0);
    AddZeroSelf(1);
    AddZeroSelf(0);
    AddZeroSelf(e);
    var left, right := AddScaled(Scaled(g[q], d), Scaled(id[r], f), e), Scaled(id[r + 2], e);
    forall c | 0 <= c < n
      ensures left[c] == right[c]
    {
      assert left[c] == Add(Mul(d, g[q][c]), Mul(e, Mul(f, Delta(r, c))));
      assert right[c] == Mul(e, Delta(r + 2, c));
    }
  }

  lemma YieldsUnit(g: Matrix, r: nat, q: nat, k: nat, c: nat)
    requires CrossedTable(g, r, q) && k < r + 4 && c < r + 3 && CrossedIds(r, q)[k] == c
    ensures Yields(g, CrossedIds(r, q), Identity(r + 4)[k], Identity(r + 3)[c])
  {
    hide Yields;
    assert g[c] == Identity(r + 3)[c];
    YieldsRow(g, CrossedIds(r, q), k);
  }

  /** Every column gets a pivot, and the transform yields unknown r + 2 for r and the other way round. */
  lemma CrossedAnswer(g: Matrix, r: nat, q: nat)
    requires CrossedTable(g, r, q)
    ensures var ids, n := CrossedIds(r, q), r + 3;
            var (rank, t) := EliminateShared(Tables(g, ids, Identity(r + 4)), 0, n);
            rank == n && forall c :: 0 <= c < n ==> Yields(g, ids, t.inv[c], CrossedTarget(g, r, q, c))
  {
    hide Round, AfterMixing, AfterSwap, Yields, Scaled, AddScaled, Identity, CrossedTable, Ratio, DivElem, PivotRow;
    var ids, n := CrossedIds(r, q), r + 3;
    var t0 := Tables(g, ids, Identity(r + 4));
    CrossedValid(g, r, q);
    var t1, t2 := AfterMixing(g, r, q), AfterSwap(g, r, q);
    EarlyRounds(g, r, q, 0);
    MixingRound(g, r, q);
    SwapRound(g, r, q);
    LastRound(g, r, q);
    var t3 := Round(t2, r + 2, r + 2, n);
    assert EliminateShared(t3, n, n) == (n, t3);
    assert EliminateShared(t2, r + 2, n) == (n, t3);
    assert EliminateShared(t1, r + 1, n) == (n, t3);
    assert EliminateShared(t0, r, n) == (n, t3);
    CrossedYields(g, r, q, t3.inv);
  }

  lemma CrossedValid(g: Matrix, r: nat, q: nat)
    requires CrossedTable(g, r, q)
    ensures Tables(g, CrossedIds(r, q), Identity(r + 4)).Valid(r + 3)
  {
  }

  lemma CrossedYields(g: Matrix, r: nat, q: nat, inv: Matrix)
    requires CrossedTable(g, r, q) && HasShape(inv, r + 4, r + 4)
    requires var old', e := AfterSwap(g, r, q).inv, Ratio(g, r, q);
             var last := Scaled(old'[r + 2], DivElem(1, e));
             inv[r + 2] == last && inv[r] == AddScaled(old'[r], last, e) &&
             forall l :: 0 <= l < r + 2 && l != r ==> inv[l] == old'[l]
    ensures forall c :: 0 <= c < r + 3 ==> Yields(g, CrossedIds(r, q), inv[c], CrossedTarget(g, r, q, c))
  {
    hide AfterSwap, Yields, Scaled, AddScaled, Identity, DivElem, Ratio;
    var ids, id, e := CrossedIds(r, q), Identity(r + 4), Ratio(g, r, q);
    var f, d := DivElem(1, e), DivElem(1, g[q][r]);
    SwappedTransform(g, r, q);
    YieldsUnit(g, r, q, r + 2, r);
    YieldsUnit(g, r, q, r + 3, r + 1);
    YieldsScaled(g, ids, id[r + 2], Identity(r + 3)[r], f);
    YieldsRow(g, ids, r);
    YieldsScaled(g, ids, id[r], g[q], d);
    YieldsAdd(g, ids, Scaled(id[r], d), Scaled(g[q], d), Scaled(id[r + 2], f), Scaled(Identity(r + 3)[r], f), e);
    CrossedMix(g, r, q);
    forall c | 0 <= c < r ensures Yields(g, ids, inv[c], CrossedTarget(g, r, q, c)) { YieldsUnit(g, r, q, c, c); }
  }
}
