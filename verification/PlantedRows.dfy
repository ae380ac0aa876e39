/**
 Elimination of tables in which one row is pointed at twice or more often and the other rows that
 pointers lead to are unit rows. When the repeated row becomes a pivot row it is subtracted from
 itself, so later rounds do not clear it any more. The main result says what the transform yields.
 */
module PlantedRows {
  import opened GaloisField
  import opened LinearAlgebra
  import opened Elimination
  import opened SharedRows

  // ----- what a row of the transform yields -----

  predicate InTable(ids: seq<nat>, rows: nat) {
    forall k :: 0 <= k < |ids| ==> ids[k] < rows
  }

  /** The right-hand sides that the rows ids of table g give for the unknowns x. */
  function RightHand(g: Matrix, ids: seq<nat>, x: nat -> Byte): nat -> Byte
    requires InTable(ids, |g|)
  {
    (k: nat) => if k < |ids| then Dot(g[ids[k]], x) else 0
  }

  /** Applied to the right-hand sides, the row yields the unknowns combined with coefficients w. */
  ghost predicate Yields(g: Matrix, ids: seq<nat>, row: Vector, w: Vector)
    requires InTable(ids, |g|)
  {
    forall x: nat -> Byte :: Dot(row, RightHand(g, ids, x)) == Dot(w, x)
  }

  lemma YieldsRow(g: Matrix, ids: seq<nat>, k: nat)
    requires InTable(ids, |g|) && k < |ids|
    ensures Yields(g, ids, Identity(|ids|)[k], g[ids[k]])
  {
    hide Dot;
    forall x: nat -> Byte ensures Dot(Identity(|ids|)[k], RightHand(g, ids, x)) == Dot(g[ids[k]], x) {
      DotUnit(Identity(|ids|)[k], k, RightHand(g, ids, x));
    }
  }

  lemma YieldsScaled(g: Matrix, ids: seq<nat>, row: Vector, w: Vector, c: Byte)
    requires InTable(ids, |g|) && Yields(g, ids, row, w)
    ensures Yields(g, ids, Scaled(row, c), Scaled(w, c))
  {
    hide Dot, Scaled;
    forall x: nat -> Byte ensures Dot(Scaled(row, c), RightHand(g, ids, x)) == Dot(Scaled(w, c), x) {
      DotScaled(row, c, RightHand(g, ids, x));
      DotScaled(w, c, x);
    }
  }

  /** The entries of v from i on, and zeros before. */
  function Tail(v: Vector, i: nat): (r: Vector)
    ensures |r| == |v|
  {
    seq(|v|, k requires 0 <= k < |v| => if k < i then 0 else v[k])
  }

  lemma TailStep(v: Vector, i: nat, x: nat -> Byte)
    requires i < |v|
    ensures Dot(Tail(v, i), x) == Add(Dot(Tail(v, i + 1), x), Mul(v[i], x(i)))
  {
    hide Add, Mul, Dot;
    var rest, unit := Tail(v, i + 1), Identity(|v|)[i];
    forall k | 0 <= k < |v|
      ensures AddScaled(rest, unit, v[i])[k] == Tail(v, i)[k]
    {
      MulOneRight(v[i]);
      NoZeroDivisors(v[i], 0);
      AddZeroSelf(Tail(v, i)[k]);
    }
    assert AddScaled(rest, unit, v[i]) == Tail(v, i);
    DotAddScaled(rest, unit, v[i], x);
    DotUnit(unit, i, x);
  }

  lemma TailSame(v: Vector, i: nat)
    requires i < |v| && v[i] == 0
    ensures Tail(v, i + 1) == Tail(v, i)
  {
  }

  lemma TailAll(v: Vector)
    ensures Tail(v, 0) == v
  {
  }

  /** Adding v[i] times a row that yields unknown i takes that unknown out. */
  lemma YieldsTail(g: Matrix, ids: seq<nat>, row: Vector, unit: Vector, v: Vector, i: nat)
    requires InTable(ids, |g|) && i < |v| && |row| == |unit|
    requires Yields(g, ids, row, Tail(v, i)) && Yields(g, ids, unit, Identity(|v|)[i])
    ensures Yields(g, ids, AddScaled(row, unit, v[i]), Tail(v, i + 1))
  {
    hide Dot, AddScaled, Add, Mul, Tail;
    forall x: nat -> Byte
      ensures Dot(AddScaled(row, unit, v[i]), RightHand(g, ids, x)) == Dot(Tail(v, i + 1), x)
    {
      var y := RightHand(g, ids, x);
      DotAddScaled(row, unit, v[i], y);
      TailStep(v, i, x);
      DotUnit(Identity(|v|)[i], i, x);
      var d, e := Dot(Tail(v, i + 1), x), Mul(v[i], x(i));
      AddAssociates(d, e, e);
      AddZeroSelf(e);
      AddZeroSelf(d);
    }
  }

  // ----- clearing one column -----

  /** Nothing is left to clear. */
  lemma {:induction false} ClearNothing(t: Tables, i: nat, k: nat, n: nat)
    requires t.Valid(n) && i < |t.ptr| && k <= |t.ptr| && i < n
    requires forall l :: k <= l < |t.ptr| ==> l == i || t.store[t.ptr[l]][i] == 0
    ensures ClearFrom(t, i, k, n) == t
    decreases |t.ptr| - k
  {
    if k < |t.ptr| { ClearNothing(t, i, k + 1, n); }
  }

  /** If only the pivot row has an entry in column i, clearing changes that row at most, and the
      transform only where a second pointer leads to it. */
  lemma {:induction false} ClearLonePivot(t: Tables, i: nat, k: nat, n: nat)
    requires t.Valid(n) && i < |t.ptr| && k <= |t.ptr| && i < n && t.store[t.ptr[i]][i] == 1
    requires forall l :: 0 <= l < |t.ptr| && t.ptr[l] != t.ptr[i] ==> t.store[t.ptr[l]][i] == 0
    ensures var u := ClearFrom(t, i, k, n);
            (forall r :: 0 <= r < |t.store| && r != t.ptr[i] ==> u.store[r] == t.store[r]) &&
            (forall l :: 0 <= l < |t.ptr| && (l == i || t.ptr[l] != t.ptr[i]) ==> u.inv[l] == t.inv[l])
    decreases |t.ptr| - k
  {
    hide AddScaled, AddScaledFrom, ZeroFrom;
    if k < |t.ptr| {
      if k == i || t.store[t.ptr[k]][i] == 0 {
        ClearLonePivot(t, i, k + 1, n);
      } else {
        var u, row := ClearOne(t, i, k, n), t.store[t.ptr[i]];
        OnceMoreVanishes(row, i);
        assert u.store[t.ptr[i]] == AddScaledFrom(row, row, 1, i);
        assert u.store[t.ptr[i]][i] == 0 by { EntryZero(u.store[t.ptr[i]], i, i); }
        ClearNothing(u, i, k + 1, n);
      }
    }
  }

  lemma EntryZero(v: Vector, i: nat, c: nat)
    requires ZeroFrom(v, i) && i <= c < |v|
    ensures v[c] == 0
  {
  }

  /** Subtracting a row that is zero after column i leaves the later columns alone. */
  lemma LaterStays(z: Vector, x: Vector, c: Byte, i: nat)
    requires |z| == |x| && ZeroFrom(x, i + 1)
    ensures forall j :: i < j < |z| ==> AddScaledFrom(z, x, c, i)[j] == z[j]
  {
    hide Add, Mul;
    NoZeroDivisors(c, 0);
    forall j | i < j < |z| ensures AddScaledFrom(z, x, c, i)[j] == z[j] { AddZeroSelf(z[j]); }
  }

  /** The later columns, and the transform outside pointers to the rows r and q, are the same. */
  predicate SameBut(t: Tables, u: Tables, i: nat, r: nat, q: nat, n: nat)
    requires t.Valid(n) && u.Valid(n) && u.ptr == t.ptr && |u.store| == |t.store|
  {
    (forall s, c :: 0 <= s < |t.store| && i < c < n ==> u.store[s][c] == t.store[s][c]) &&
    (forall l :: 0 <= l < |t.ptr| && (l == i || (t.ptr[l] != r && t.ptr[l] != q)) ==> u.inv[l] == t.inv[l])
  }

  /** A pivot row that is zero after column i, and one other row q with an entry in column i: the
      later columns stay, and the transform changes where pointers lead to these two rows only. */
  lemma {:induction false} ClearUnitPivot(t: Tables, i: nat, k: nat, n: nat, q: nat)
    requires t.Valid(n) && i < |t.ptr| && k <= |t.ptr| && i < n && ZeroFrom(t.store[t.ptr[i]], i + 1)
    requires forall l :: 0 <= l < |t.ptr| && t.ptr[l] != t.ptr[i] && t.ptr[l] != q ==> t.store[t.ptr[l]][i] == 0
    ensures SameBut(t, ClearFrom(t, i, k, n), i, t.ptr[i], q, n)
    ensures forall l :: 0 <= l < k ==> ClearFrom(t, i, k, n).inv[l] == t.inv[l]
    decreases |t.ptr| - k
  {
    hide AddScaled, AddScaledFrom;
    if k < |t.ptr| {
      if k == i || t.store[t.ptr[k]][i] == 0 {
        ClearUnitPivot(t, i, k + 1, n, q);
      } else {
        LaterStays(t.store[t.ptr[k]], t.store[t.ptr[i]], t.store[t.ptr[k]][i], i);
        ClearUnitPivot(ClearOne(t, i, k, n), i, k + 1, n, q);
      }
    }
  }

  predicate FirstFrom(ptr: seq<nat>, k: nat, q: nat, f: nat) {
    k <= f < |ptr| && ptr[f] == q && forall l :: k <= l < f ==> ptr[l] != q
  }

  /** The first pointer to row q gets its multiple of the pivot row. */
  lemma {:induction false} ClearFirst(t: Tables, i: nat, k: nat, n: nat, q: nat, f: nat)
    requires t.Valid(n) && i < |t.ptr| && i < n && ZeroFrom(t.store[t.ptr[i]], i + 1)
    requires forall l :: 0 <= l < |t.ptr| && t.ptr[l] != t.ptr[i] && t.ptr[l] != q ==> t.store[t.ptr[l]][i] == 0
    requires q != t.ptr[i] && FirstFrom(t.ptr, k, q, f)
    ensures ClearFrom(t, i, k, n).inv[f] == AddScaled(t.inv[f], t.inv[i], t.store[q][i])
    decreases |t.ptr| - k
  {
    hide AddScaled, AddScaledFrom;
    var c := t.store[t.ptr[k]][i];
    if k == f {
      AddScaledZero(t.inv[f], t.inv[i]);
      ClearUnitPivot(t, i, k + 1, n, q);
      LaterStays(t.store[t.ptr[k]], t.store[t.ptr[i]], c, i);
      ClearUnitPivot(ClearOne(t, i, k, n), i, k + 1, n, q);
    } else if k == i || c == 0 {
      ClearFirst(t, i, k + 1, n, q, f);
    } else {
      LaterStays(t.store[t.ptr[k]], t.store[t.ptr[i]], c, i);
      ClearFirst(ClearOne(t, i, k, n), i, k + 1, n, q, f);
    }
  }

  /** Without an entry of row q in column i, its pointers keep their transform rows. */
  lemma {:induction false} ClearSpares(t: Tables, i: nat, k: nat, n: nat, q: nat, f: nat)
    requires t.Valid(n) && i < |t.ptr| && k <= |t.ptr| && i < n && f < |t.ptr| && t.ptr[f] == q
    requires q != t.ptr[i] && t.store[q][i] == 0
    ensures ClearFrom(t, i, k, n).inv[f] == t.inv[f]
    decreases |t.ptr| - k
  {
    hide AddScaled, AddScaledFrom;
    if k < |t.ptr| {
      if k == i || t.store[t.ptr[k]][i] == 0 {
        ClearSpares(t, i, k + 1, n, q, f);
      } else {
        ClearSpares(ClearOne(t, i, k, n), i, k + 1, n, q, f);
      }
    }
  }

  // ----- a planted table -----

  /** Which rows the pointers lead to: row u[c] is unit vector c, except that row u[a] is v. */
  datatype Plan = Plan(u: seq<nat>, a: nat, v: Vector) {
    predicate Valid(n: nat) { |u| == n && |v| == n && a < n && Different(u) && v[a] != 0 }

    /** What column c of row r holds when round i begins, for the columns from i on. */
    function Entry(i: nat, r: nat, c: nat): Byte
      requires c < |u| && c < |v| && a < |u|
    {
      if r == u[a] then (if i <= a then v[c] else 0) else if u[c] == r then 1 else 0
    }

    /** What row c of the transform yields in the end: unknown c, but for c == a what row v mixes
        from a on, scaled. */
    function Target(c: nat): Vector
      requires c < |v| && a < |v|
    {
      if c == a then Scaled(Tail(v, a), DivElem(1, v[a])) else Identity(|v|)[c]
    }
  }

  predicate Twice(ptr: seq<nat>, i: nat, r: nat) {
    exists k, l :: i <= k < l < |ptr| && ptr[k] == ptr[l] == r
  }

  predicate Pointed(ptr: seq<nat>, i: nat, r: nat) {
    exists k :: i <= k < |ptr| && ptr[k] == r
  }

  /** Some pointer to row r comes before all pointers to row q. */
  predicate Precedes(ptr: seq<nat>, i: nat, r: nat, q: nat) {
    exists k :: i <= k < |ptr| && ptr[k] == r && forall l :: 0 <= l < |ptr| && ptr[l] == q ==> k < l
  }

  /** Row u[a] has no entry before a, or all rows for the columns before a come before it. */
  predicate InOrder(plan: Plan, ptr: seq<nat>, i: nat)
    requires plan.a < |plan.u|
  {
    ZeroBefore(plan.v, plan.a) || forall c :: i <= c < plan.a ==> Precedes(ptr, i, plan.u[c], plan.u[plan.a])
  }

  /** The pointers lead to the rows of the plan and to zero rows, and twice to row u[a]. */
  predicate Planted(plan: Plan, store: Matrix, ids: seq<nat>, n: nat) {
    plan.Valid(n) && HasShape(store, |store|, n) && InTable(ids, |store|) &&
    (forall k, c :: 0 <= k < |ids| && 0 <= c < n ==> store[ids[k]][c] == plan.Entry(0, ids[k], c)) &&
    (forall c :: 0 <= c < n ==> plan.u[c] in ids) && Twice(ids, 0, plan.u[plan.a]) && InOrder(plan, ids, 0)
  }

  /** The pointer at f is one whose transform row is up to date. */
  predicate Good(plan: Plan, ptr: seq<nat>, f: nat)
    requires plan.a < |plan.u|
  {
    f < |ptr| && ptr[f] == plan.u[plan.a] && (ZeroBefore(plan.v, plan.a) || FirstFrom(ptr, 0, plan.u[plan.a], f))
  }

  /** The rows in memory when round i begins. */
  predicate RowsHold(plan: Plan, t: Tables, i: nat, n: nat)
    requires plan.Valid(n) && t.Valid(n)
  {
    forall k, c :: 0 <= k < |t.ptr| && i <= c < n ==> t.store[t.ptr[k]][c] == plan.Entry(i, t.ptr[k], c)
  }

  /** The pointers when round i begins. */
  predicate PointersHold(plan: Plan, ptr: seq<nat>, i: nat, n: nat)
    requires plan.Valid(n)
  {
    i <= |ptr| &&
    (forall c :: i <= c < n ==> Pointed(ptr, i, plan.u[c])) &&
    (forall k :: 0 <= k < i && k < n ==> ptr[k] == plan.u[k]) &&
    (i <= plan.a ==> Twice(ptr, i, plan.u[plan.a]) && InOrder(plan, ptr, i))
  }

  /** The transform when round i begins. */
  ghost predicate TransformHolds(plan: Plan, g: Matrix, ids: seq<nat>, t: Tables, i: nat, n: nat)
    requires plan.Valid(n) && t.Valid(n) && InTable(ids, |g|)
  {
    (forall k :: 0 <= k < i && k < n && k < |t.ptr| ==> Yields(g, ids, t.inv[k], plan.Target(k))) &&
    (forall k, c :: i <= k < |t.ptr| && i <= c < n && c != plan.a && t.ptr[k] == plan.u[c] ==>
       Yields(g, ids, t.inv[k], Identity(n)[c])) &&
    (i <= plan.a ==> forall k :: i <= k < |t.ptr| && Good(plan, t.ptr, k) ==> Yields(g, ids, t.inv[k], Tail(plan.v, i)))
  }

  ghost predicate Working(plan: Plan, g: Matrix, ids: seq<nat>, t: Tables, i: nat, n: nat)
    requires InTable(ids, |g|)
  {
    plan.Valid(n) && t.Valid(n) && |t.ptr| == |ids| && i <= n &&
    RowsHold(plan, t, i, n) && PointersHold(plan, t.ptr, i, n) && TransformHolds(plan, g, ids, t, i, n)
  }

  lemma OneIsNeutral(v: Vector)
    ensures DivElem(1, 1) == 1 && Scaled(v, 1) == v
  {
    hide Mul, Inverse;
    MulInverse(1);
    MulOneLeft(Inverse(1));
    forall k | 0 <= k < |v| ensures Scaled(v, 1)[k] == v[k] { MulOneLeft(v[k]); }
  }

  lemma DifferentApart(u: seq<nat>, k: nat, l: nat)
    requires Different(u) && k < |u| && l < |u|
    ensures u[k] == u[l] <==> k == l
  {
  }

  /** A unit row of the plan. */
  lemma PlannedUnit(plan: Plan, store: Matrix, ids: seq<nat>, n: nat, k: nat, c: nat)
    requires Planted(plan, store, ids, n) && k < |ids| && c < n && c != plan.a && ids[k] == plan.u[c]
    ensures store[ids[k]] == Identity(n)[c]
  {
    hide Planted;
    PlantedMeans(plan, store, ids, n);
    DifferentApart(plan.u, c, plan.a);
    forall j | 0 <= j < n ensures store[ids[k]][j] == Delta(c, j) { DifferentApart(plan.u, j, c); }
  }

  lemma PlantedMeans(plan: Plan, store: Matrix, ids: seq<nat>, n: nat)
    requires Planted(plan, store, ids, n)
    ensures plan.Valid(n) && HasShape(store, |store|, n) && InTable(ids, |store|)
    ensures forall k, c :: 0 <= k < |ids| && 0 <= c < n ==> store[ids[k]][c] == plan.Entry(0, ids[k], c)
  {
  }

  lemma PlantedStarts(plan: Plan, store: Matrix, ids: seq<nat>, n: nat)
    requires Planted(plan, store, ids, n)
    ensures Working(plan, store, ids, Tables(store, ids, Identity(|ids|)), 0, n)
  {
    hide Yields, Different, Plan.Entry, Pointed, InOrder, Twice, Good;
    var t := Tables(store, ids, Identity(|ids|));
    forall c | 0 <= c < n ensures Pointed(ids, 0, plan.u[c]) { PointedIn(ids, plan.u[c]); }
    forall k, c | 0 <= k < |ids| && 0 <= c < n && c != plan.a && ids[k] == plan.u[c]
      ensures Yields(store, ids, t.inv[k], Identity(n)[c])
    {
      PlannedUnit(plan, store, ids, n, k, c);
      YieldsRow(store, ids, k);
    }
    forall k | 0 <= k < |ids| && Good(plan, ids, k)
      ensures Yields(store, ids, t.inv[k], Tail(plan.v, 0))
    {
      PlannedMixed(plan, store, ids, n, k);
      YieldsRow(store, ids, k);
    }
  }

  lemma PlannedMixed(plan: Plan, store: Matrix, ids: seq<nat>, n: nat, k: nat)
    requires Planted(plan, store, ids, n) && k < |ids| && Good(plan, ids, k)
    ensures store[ids[k]] == Tail(plan.v, 0)
  {
    TailAll(plan.v);
  }

  lemma PointedIn(ids: seq<nat>, r: nat)
    requires r in ids
    ensures Pointed(ids, 0, r)
  {
  }

  // ----- one round -----

  /** Where the pivot comes from, and which rows have an entry in column i. */
  lemma PlantedPivot(plan: Plan, t: Tables, i: nat, n: nat)
    requires plan.Valid(n) && t.Valid(n) && RowsHold(plan, t, i, n) && PointersHold(plan, t.ptr, i, n) && i < n
    ensures var p := PivotRow(t.Shown(n), i, i);
            i <= p < |t.ptr| && t.ptr[p] == plan.u[i] && (i == plan.a ==> forall l :: i <= l < p ==> t.ptr[l] != plan.u[i]) &&
            (i < plan.a && !ZeroBefore(plan.v, plan.a) ==> forall l :: 0 <= l < |t.ptr| && t.ptr[l] == plan.u[plan.a] ==> p < l)
  {
    hide Twice, ZeroBefore;
    var m := t.Shown(n);
    var p := PivotRow(m, i, i);
    assert forall k :: 0 <= k < |t.ptr| ==> At(m, k, i) == plan.Entry(i, t.ptr[k], i);
    assert Pointed(t.ptr, i, plan.u[i]);
    var k :| i <= k < |t.ptr| && t.ptr[k] == plan.u[i];
    assert p <= k;
    if i < plan.a && !ZeroBefore(plan.v, plan.a) {
      assert Precedes(t.ptr, i, plan.u[i], plan.u[plan.a]);
      var f :| i <= f < |t.ptr| && t.ptr[f] == plan.u[i] && forall l :: 0 <= l < |t.ptr| && t.ptr[l] == plan.u[plan.a] ==> f < l;
      assert At(m, f, i) != 0 && p <= f;
    } else if i < plan.a {
      assert plan.v[i] == 0 by { EntryBefore(plan.v, plan.a, i); }
    }
  }

  lemma EntryBefore(v: Vector, a: nat, i: nat)
    requires ZeroBefore(v, a) && i < a <= |v|
    ensures v[i] == 0
  {
  }

  lemma PointedStep(ptr: seq<nat>, i: nat, p: nat, r: nat)
    requires Pointed(ptr, i, r) && i <= p < |ptr| && ptr[p] != r
    ensures Pointed(Swap(ptr, i, p), i + 1, r)
  {
    var k :| i <= k < |ptr| && ptr[k] == r;
    assert Swap(ptr, i, p)[Source(i, p, k)] == r;
  }

  lemma TwiceStep(ptr: seq<nat>, i: nat, p: nat, r: nat)
    requires Twice(ptr, i, r) && i <= p < |ptr| && ptr[p] != r
    ensures Twice(Swap(ptr, i, p), i + 1, r)
  {
    var ptr' := Swap(ptr, i, p);
    var k, l :| i <= k < l < |ptr| && ptr[k] == ptr[l] == r;
    var k', l' := Source(i, p, k), Source(i, p, l);
    assert ptr'[k'] == r && ptr'[l'] == r;
    if k' > l' { k', l' := l', k'; }
    assert i + 1 <= k' < l' && ptr'[k'] == ptr'[l'] == r;
  }

  /** Swapping the pivot's pointer into place keeps what is known of the pointers. */
  lemma PointersStep(plan: Plan, ptr: seq<nat>, i: nat, p: nat, n: nat)
    requires plan.Valid(n) && PointersHold(plan, ptr, i, n) && i < n && i <= p < |ptr| && ptr[p] == plan.u[i]
    requires i < plan.a && !ZeroBefore(plan.v, plan.a) ==> forall l :: 0 <= l < |ptr| && ptr[l] == plan.u[plan.a] ==> p < l
    ensures PointersHold(plan, Swap(ptr, i, p), i + 1, n)
  {
    hide ZeroBefore, Precedes, Pointed, Twice, Different;
    forall c | i + 1 <= c < n
      ensures Pointed(Swap(ptr, i, p), i + 1, plan.u[c])
    {
      DifferentApart(plan.u, c, i);
      PointedStep(ptr, i, p, plan.u[c]);
    }
    if i + 1 <= plan.a {
      DifferentApart(plan.u, plan.a, i);
      TwiceStep(ptr, i, p, plan.u[plan.a]);
      if !ZeroBefore(plan.v, plan.a) {
        forall c | i + 1 <= c < plan.a
          ensures Precedes(Swap(ptr, i, p), i + 1, plan.u[c], plan.u[plan.a])
        {
          assert Precedes(ptr, i, plan.u[c], plan.u[plan.a]);
          DifferentApart(plan.u, c, i);
          PrecedesStep(ptr, i, p, plan.u[c], plan.u[plan.a]);
        }
      }
    }
  }

  lemma PrecedesStep(ptr: seq<nat>, i: nat, p: nat, r: nat, q: nat)
    requires Precedes(ptr, i, r, q) && i <= p < |ptr| && ptr[p] != r
    requires forall l :: 0 <= l < |ptr| && ptr[l] == q ==> p < l
    ensures Precedes(Swap(ptr, i, p), i + 1, r, q)
  {
    var ptr' := Swap(ptr, i, p);
    var k :| i <= k < |ptr| && ptr[k] == r && forall l :: 0 <= l < |ptr| && ptr[l] == q ==> k < l;
    var k' := Source(i, p, k);
    assert ptr'[k'] == r && k' >= i + 1;
    forall l | 0 <= l < |ptr| && ptr'[l] == q ensures k' < l { assert ptr[Source(i, p, l)] == q; }
  }

  // ----- a round with a unit row as pivot row -----

  /** A pivot that is one already: the rows are only swapped. */
  lemma PreparedUnit(t: Tables, i: nat, p: nat, n: nat)
    requires t.Valid(n) && i < |t.ptr| && p < |t.ptr| && i < n && t.store[t.ptr[p]][i] == 1
    ensures Prepared(t, i, p, n) == Tables(t.store, Swap(t.ptr, i, p), Swap(t.inv, i, p))
  {
    hide Scaled, ScaledFrom;
    OneIsNeutral(Swap(t.inv, i, p)[i]);
    ScaledFromOne(t.store[t.ptr[p]], i);
    assert t.store[t.ptr[p] := t.store[t.ptr[p]]] == t.store;
  }

  lemma ScaledFromOne(v: Vector, i: nat)
    ensures ScaledFrom(v, 1, i) == v
  {
    hide Mul;
    forall k | 0 <= k < |v| ensures ScaledFrom(v, 1, i)[k] == v[k] { MulOneLeft(v[k]); }
  }

  /** The pivot row of such a round is zero after its column, and only row u[a] has an entry there
      besides. */
  lemma UnitPivotRow(plan: Plan, t: Tables, i: nat, p: nat, n: nat)
    requires plan.Valid(n) && t.Valid(n) && RowsHold(plan, t, i, n) && i < n && i != plan.a
    requires p < |t.ptr| && t.ptr[p] == plan.u[i]
    ensures t.ptr[p] != plan.u[plan.a] && t.store[t.ptr[p]][i] == 1 && ZeroFrom(t.store[t.ptr[p]], i + 1)
    ensures forall l :: 0 <= l < |t.ptr| && t.ptr[l] != t.ptr[p] && t.ptr[l] != plan.u[plan.a] ==> t.store[t.ptr[l]][i] == 0
  {
    hide Different;
    DifferentApart(plan.u, i, plan.a);
    forall c | i < c < n ensures t.store[t.ptr[p]][c] == 0 { DifferentApart(plan.u, i, c); }
  }

  /** What such a round leaves. */
  lemma UnitRound(plan: Plan, t: Tables, i: nat, p: nat, n: nat)
    requires plan.Valid(n) && t.Valid(n) && RowsHold(plan, t, i, n) && i < n && i != plan.a
    requires p < |t.ptr| && i < |t.ptr| && t.ptr[p] == plan.u[i]
    ensures var u := Tables(t.store, Swap(t.ptr, i, p), Swap(t.inv, i, p));
            u.Valid(n) && SameBut(u, Round(t, i, p, n), i, plan.u[i], plan.u[plan.a], n)
  {
    hide ClearFrom, SameBut, RowsHold;
    UnitPivotRow(plan, t, i, p, n);
    PreparedUnit(t, i, p, n);
    var u := Prepared(t, i, p, n);
    assert forall l :: 0 <= l < |t.ptr| ==> u.ptr[l] == t.ptr[Source(i, p, l)];
    ClearUnitPivot(u, i, 0, n, plan.u[plan.a]);
  }

  lemma UnitRoundRows(plan: Plan, t: Tables, i: nat, p: nat, n: nat)
    requires plan.Valid(n) && t.Valid(n) && RowsHold(plan, t, i, n) && i < n && i != plan.a
    requires p < |t.ptr| && i < |t.ptr| && t.ptr[p] == plan.u[i]
    ensures RowsHold(plan, Round(t, i, p, n), i + 1, n)
  {
    hide Round, Different;
    UnitRound(plan, t, i, p, n);
    var r := Round(t, i, p, n);
    assert forall l :: 0 <= l < |t.ptr| ==> r.ptr[l] == t.ptr[Source(i, p, l)];
    forall k, c | 0 <= k < |r.ptr| && i + 1 <= c < n
      ensures r.store[r.ptr[k]][c] == plan.Entry(i + 1, r.ptr[k], c)
    {
      assert t.store[t.ptr[Source(i, p, k)]][c] == plan.Entry(i, r.ptr[k], c);
    }
  }

  /** An up-to-date pointer to row u[a] is still up to date after such a round. */
  lemma UnitRoundMixed(plan: Plan, g: Matrix, ids: seq<nat>, t: Tables, i: nat, p: nat, n: nat, f: nat)
    requires InTable(ids, |g|) && Working(plan, g, ids, t, i, n) && i < n && i < plan.a
    requires p == PivotRow(t.Shown(n), i, i) < |t.ptr| && t.ptr[p] == plan.u[i]
    requires i < f < |t.ptr| && Good(plan, Swap(t.ptr, i, p), f)
    ensures Yields(g, ids, Round(t, i, p, n).inv[f], Tail(plan.v, i + 1))
  {
    hide Yields, Pointed, InOrder, Twice, ClearFrom, Tail, ZeroBefore, PivotRow;
    var q, s := plan.u[plan.a], Source(i, p, f);
    UnitPivotRow(plan, t, i, p, n);
    PreparedUnit(t, i, p, n);
    PlantedPivot(plan, t, i, n);
    var u := Prepared(t, i, p, n);
    assert forall l :: 0 <= l < |t.ptr| ==> u.ptr[l] == t.ptr[Source(i, p, l)];
    assert u.inv[f] == t.inv[s] && u.inv[i] == t.inv[p];
    assert t.ptr[s] == q && plan.v[i] == t.store[q][i];
    if ZeroBefore(plan.v, plan.a) {
      EntryBefore(plan.v, plan.a, i);
      TailSame(plan.v, i);
      ClearSpares(u, i, 0, n, q, f);
    } else {
      assert s == f;
      StillFirst(t.ptr, i, p, q, f);
      ClearFirst(u, i, 0, n, q, f);
      assert Yields(g, ids, t.inv[p], Identity(n)[i]);
      YieldsTail(g, ids, t.inv[f], t.inv[p], plan.v, i);
    }
  }

  lemma StillFirst(ptr: seq<nat>, i: nat, p: nat, q: nat, f: nat)
    requires i <= p < |ptr| && FirstFrom(Swap(ptr, i, p), 0, q, f)
    requires forall l :: 0 <= l < |ptr| && ptr[l] == q ==> p < l
    ensures FirstFrom(ptr, 0, q, f)
  {
    var ptr' := Swap(ptr, i, p);
    assert forall l :: 0 <= l < |ptr| ==> ptr'[l] == ptr[Source(i, p, l)];
    assert ptr[Source(i, p, f)] == q;
    forall l | 0 <= l < f ensures ptr[l] != q { if l > p { assert ptr'[l] == ptr[l]; } }
  }

  /** The transform after a round with a unit row as pivot row. */
  lemma UnitRoundTransform(plan: Plan, g: Matrix, ids: seq<nat>, t: Tables, i: nat, p: nat, n: nat)
    requires InTable(ids, |g|) && Working(plan, g, ids, t, i, n) && i < n && i != plan.a
    requires p == PivotRow(t.Shown(n), i, i) < |t.ptr| && t.ptr[p] == plan.u[i]
    ensures TransformHolds(plan, g, ids, Round(t, i, p, n), i + 1, n)
  {
    hide Yields, Pointed, InOrder, Twice, Round, Tail, PivotRow, Good, RowsHold, Different;
    UnitRound(plan, t, i, p, n);
    var r := Round(t, i, p, n);
    assert forall l :: 0 <= l < |t.ptr| ==> r.ptr[l] == t.ptr[Source(i, p, l)];
    DifferentApart(plan.u, i, plan.a);
    assert r.inv[i] == t.inv[p] && Yields(g, ids, t.inv[p], Identity(n)[i]);
    forall k | 0 <= k < i
      ensures r.inv[k] == t.inv[k]
    {
      DifferentApart(plan.u, k, i);
      if k == plan.a { SpareRound(plan, t, i, p, n, k); } else { DifferentApart(plan.u, k, plan.a); }
    }
    forall k, c | i + 1 <= k < |t.ptr| && i + 1 <= c < n && c != plan.a && r.ptr[k] == plan.u[c]
      ensures Yields(g, ids, r.inv[k], Identity(n)[c])
    {
      DifferentApart(plan.u, c, i);
      DifferentApart(plan.u, c, plan.a);
      assert r.inv[k] == t.inv[Source(i, p, k)];
    }
    if i + 1 <= plan.a {
      forall k | i + 1 <= k < |t.ptr| && Good(plan, r.ptr, k)
        ensures Yields(g, ids, r.inv[k], Tail(plan.v, i + 1))
      {
        UnitRoundMixed(plan, g, ids, t, i, p, n, k);
      }
    }
  }

  /** After its round row u[a] has nothing left, and its transform row stays. */
  lemma SpareRound(plan: Plan, t: Tables, i: nat, p: nat, n: nat, f: nat)
    requires plan.Valid(n) && t.Valid(n) && RowsHold(plan, t, i, n) && plan.a < i < n && f < i <= p < |t.ptr|
    requires t.ptr[p] == plan.u[i] && t.ptr[f] == plan.u[plan.a]
    ensures Round(t, i, p, n).inv[f] == t.inv[f]
  {
    hide ClearFrom;
    UnitPivotRow(plan, t, i, p, n);
    PreparedUnit(t, i, p, n);
    assert t.store[t.ptr[f]][i] == plan.Entry(i, t.ptr[f], i);
    ClearSpares(Prepared(t, i, p, n), i, 0, n, t.ptr[f], f);
  }

  // ----- the round of the repeated row -----

  /** The only row with an entry in column a is row u[a]. */
  lemma LonePivotRow(plan: Plan, t: Tables, p: nat, n: nat)
    requires plan.Valid(n) && t.Valid(n) && RowsHold(plan, t, plan.a, n) && p < |t.ptr| && t.ptr[p] == plan.u[plan.a]
    ensures t.store[t.ptr[p]][plan.a] == plan.v[plan.a]
    ensures forall l :: 0 <= l < |t.ptr| && t.ptr[l] != plan.u[plan.a] ==> t.store[t.ptr[l]][plan.a] == 0
  {
  }

  /** What the round of the repeated row leaves. */
  lemma MixedRound(plan: Plan, t: Tables, p: nat, n: nat)
    requires plan.Valid(n) && t.Valid(n) && RowsHold(plan, t, plan.a, n) && PointersHold(plan, t.ptr, plan.a, n)
    requires plan.a <= p < |t.ptr| && t.ptr[p] == plan.u[plan.a]
    requires forall l :: plan.a <= l < p ==> t.ptr[l] != plan.u[plan.a]
    ensures var u, r, q := Prepared(t, plan.a, p, n), Round(t, plan.a, p, n), plan.u[plan.a];
            ZeroFrom(r.store[q], plan.a) && (forall s :: 0 <= s < |t.store| && s != q ==> r.store[s] == t.store[s]) &&
            forall l :: 0 <= l < |t.ptr| && (l == plan.a || u.ptr[l] != q) ==> r.inv[l] == u.inv[l]
  {
    hide Pointed, InOrder, ClearFrom, ScaledFrom, Scaled, DivElem, ZeroFrom, RowsHold;
    var a := plan.a;
    LonePivotRow(plan, t, p, n);
    var u := Prepared(t, a, p, n);
    PivotBecomesOne(t.store[t.ptr[p]], a);
    assert forall l :: 0 <= l < |t.ptr| ==> u.ptr[l] == t.ptr[Source(a, p, l)];
    ClearLonePivot(u, a, 0, n);
    var k, l :| a <= k < l < |t.ptr| && t.ptr[k] == t.ptr[l] == plan.u[a];
    assert p <= k && u.ptr[l] == t.ptr[l];
    PivotVanishes(u, a, 0, n, l);
  }

  lemma MixedRoundRows(plan: Plan, t: Tables, p: nat, n: nat)
    requires plan.Valid(n) && t.Valid(n) && RowsHold(plan, t, plan.a, n) && PointersHold(plan, t.ptr, plan.a, n)
    requires plan.a <= p < |t.ptr| && t.ptr[p] == plan.u[plan.a]
    requires forall l :: plan.a <= l < p ==> t.ptr[l] != plan.u[plan.a]
    ensures RowsHold(plan, Round(t, plan.a, p, n), plan.a + 1, n)
  {
    hide Pointed, InOrder, Twice, Prepared, ClearFrom;
    MixedRound(plan, t, p, n);
    var r := Round(t, plan.a, p, n);
    assert forall l :: 0 <= l < |t.ptr| ==> r.ptr[l] == t.ptr[Source(plan.a, p, l)];
    forall k, c | 0 <= k < |r.ptr| && plan.a + 1 <= c < n
      ensures r.store[r.ptr[k]][c] == plan.Entry(plan.a + 1, r.ptr[k], c)
    {
      assert t.store[t.ptr[Source(plan.a, p, k)]][c] == plan.Entry(plan.a, r.ptr[k], c);
    }
  }

  lemma MixedRoundTransform(plan: Plan, g: Matrix, ids: seq<nat>, t: Tables, p: nat, n: nat)
    requires InTable(ids, |g|) && Working(plan, g, ids, t, plan.a, n)
    requires plan.a <= p < |t.ptr| && t.ptr[p] == plan.u[plan.a]
    requires forall l :: plan.a <= l < p ==> t.ptr[l] != plan.u[plan.a]
    ensures TransformHolds(plan, g, ids, Round(t, plan.a, p, n), plan.a + 1, n)
  {
    hide Yields, Pointed, InOrder, Twice, ClearFrom, Tail, Different, Scaled, ScaledFrom, RowsHold, DivElem, ZeroBefore;
    var a := plan.a;
    MixedRound(plan, t, p, n);
    LonePivotRow(plan, t, p, n);
    var u, r := Prepared(t, a, p, n), Round(t, a, p, n);
    assert forall l :: 0 <= l < |t.ptr| ==> r.ptr[l] == t.ptr[Source(a, p, l)];
    forall k | 0 <= k < a ensures t.ptr[k] != plan.u[a] { DifferentApart(plan.u, k, a); }
    assert Good(plan, t.ptr, p);
    assert r.inv[a] == Scaled(t.inv[p], DivElem(1, plan.v[a]));
    YieldsScaled(g, ids, t.inv[p], Tail(plan.v, a), DivElem(1, plan.v[a]));
    forall k, c | a + 1 <= k < |t.ptr| && a + 1 <= c < n && r.ptr[k] == plan.u[c]
      ensures Yields(g, ids, r.inv[k], Identity(n)[c])
    {
      DifferentApart(plan.u, c, a);
      assert r.inv[k] == t.inv[Source(a, p, k)];
    }
  }

  // ----- all rounds -----

  /** One round keeps the state. */
  lemma PlantedRound(plan: Plan, g: Matrix, ids: seq<nat>, t: Tables, i: nat, n: nat)
    requires InTable(ids, |g|) && Working(plan, g, ids, t, i, n) && i < n
    ensures var p := PivotRow(t.Shown(n), i, i);
            p < |ids| && Working(plan, g, ids, Round(t, i, p, n), i + 1, n)
  {
    hide PivotRow, RowsHold, PointersHold, TransformHolds, Round;
    PlantedPivot(plan, t, i, n);
    var p := PivotRow(t.Shown(n), i, i);
    PointersStep(plan, t.ptr, i, p, n);
    if i == plan.a {
      MixedRoundRows(plan, t, p, n);
      MixedRoundTransform(plan, g, ids, t, p, n);
    } else {
      UnitRoundRows(plan, t, i, p, n);
      UnitRoundTransform(plan, g, ids, t, i, p, n);
    }
  }

  lemma {:induction false} PlantedEliminates(plan: Plan, g: Matrix, ids: seq<nat>, t: Tables, i: nat, n: nat)
    requires InTable(ids, |g|) && Working(plan, g, ids, t, i, n)
    ensures var (rank, u) := EliminateShared(t, i, n);
            rank == n && forall c :: 0 <= c < n ==> Yields(g, ids, u.inv[c], plan.Target(c))
    decreases n - i
  {
    hide Round, PivotRow, RowsHold, Yields, Pointed, InOrder, Twice, Good;
    if i < n {
      PlantedRound(plan, g, ids, t, i, n);
      PlantedEliminates(plan, g, ids, Round(t, i, PivotRow(t.Shown(n), i, i), n), i + 1, n);
    }
  }

  /** A planted table gets a pivot in every column. The transform yields every unknown but unknown a,
      in whose place it yields what row u[a] mixes from column a on, scaled. */
  lemma PlantedAnswer(plan: Plan, g: Matrix, ids: seq<nat>, n: nat)
    requires Planted(plan, g, ids, n)
    ensures var (rank, t) := EliminateShared(Tables(g, ids, Identity(|ids|)), 0, n);
            rank == n && forall c :: 0 <= c < n ==> Yields(g, ids, t.inv[c], plan.Target(c))
  {
    hide EliminateShared, Yields, Working;
    PlantedStarts(plan, g, ids, n);
    PlantedEliminates(plan, g, ids, Tables(g, ids, Identity(|ids|)), 0, n);
  }
}
