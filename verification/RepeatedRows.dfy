/**
 What elimination computes when row pointers repeat. The main result says for which lists of
 pointers the answer is right for every table and all unknowns: exactly if the pointers are all
 different, or there are too few different ones to solve for all unknowns, or there is at most
 one unknown. Otherwise a table is given that yields a pivot in every column and a wrong answer.
 */
module RepeatedRows {
  import opened GaloisField
  import opened LinearAlgebra
  import opened Elimination
  import opened LinearSystems
  import opened SharedRows
  import opened PlantedRows

  // ----- which pointers are safe -----

  /** If every column gets a pivot, the transform recovers the unknowns. */
  ghost predicate Recovers(g: Matrix, ids: seq<nat>, n: nat, x: nat -> Byte)
    requires HasShape(g, |g|, n) && InTable(ids, |g|)
  {
    var (rank, t) := EliminateShared(Tables(g, ids, Identity(|ids|)), 0, n);
    rank == n ==> forall i: nat :: i < n ==> Dot(t.inv[i], RightHand(g, ids, x)) == x(i)
  }

  /** For every table and all unknowns, a pivot in every column means the right answer. */
  ghost predicate Safe(ids: seq<nat>, rows: nat, n: nat)
    requires InTable(ids, rows)
  {
    forall g: Matrix, x: nat -> Byte :: HasShape(g, rows, n) ==> Recovers(g, ids, n, x)
  }

  lemma NoUnitColumns(m: Matrix)
    ensures UnitColumns(m, 0)
  {
  }

  lemma DifferentRecovers(g: Matrix, ids: seq<nat>, n: nat, x: nat -> Byte)
    requires HasShape(g, |g|, n) && InTable(ids, |g|) && Different(ids)
    ensures Recovers(g, ids, n, x)
  {
    hide EliminateShared, EliminateFrom, Dot;
    var t := Tables(g, ids, Identity(|ids|));
    NoUnitColumns(t.Shown(n));
    DistinctIsEliminate(t, 0, n);
    var e := Eliminate(t.Shown(n), n);
    if e.rank == n {
      forall i: nat | i < n ensures Dot(e.inv[i], RightHand(g, ids, x)) == x(i) {
        TransformSolves(t.Shown(n), n, x, RightHand(g, ids, x), i);
      }
    }
  }

  /** The pivot row of the transform is not touched when the column is cleared. */
  lemma {:induction false} ClearKeepsPivotTransform(t: Tables, i: nat, k: nat, n: nat)
    requires t.Valid(n) && i < |t.ptr| && k <= |t.ptr| && i < n
    ensures ClearFrom(t, i, k, n).inv[i] == t.inv[i]
    decreases |t.ptr| - k
  {
    hide AddScaled, AddScaledFrom;
    if k < |t.ptr| {
      if k == i || t.store[t.ptr[k]][i] == 0 {
        ClearKeepsPivotTransform(t, i, k + 1, n);
      } else {
        ClearKeepsPivotTransform(ClearOne(t, i, k, n), i, k + 1, n);
      }
    }
  }

  lemma DotScaledUnit(m: nat, p: nat, d: Byte, y: nat -> Byte)
    requires p < m
    ensures Dot(Scaled(Identity(m)[p], d), y) == Mul(d, y(p))
  {
    hide Dot, Scaled;
    DotScaled(Identity(m)[p], d, y);
    DotUnit(Identity(m)[p], p, y);
  }

  /** A single unknown is recovered whatever repeats: only the first pivot counts. */
  lemma OneUnknownRecovers(g: Matrix, ids: seq<nat>, x: nat -> Byte)
    requires HasShape(g, |g|, 1) && InTable(ids, |g|)
    ensures Recovers(g, ids, 1, x)
  {
    hide Dot, Scaled, Mul, Inverse, Round, PivotRow;
    var t := Tables(g, ids, Identity(|ids|));
    var p := PivotRow(t.Shown(1), 0, 0);
    if p < |ids| {
      var row := g[ids[p]];
      assert At(t.Shown(1), p, 0) == row[0];
      var r := Round(t, 0, p, 1);
      assert EliminateShared(r, 1, 1) == (1, r);
      var d := DivElem(1, row[0]);
      assert r.inv[0] == Scaled(Identity(|ids|)[p], d) by { RoundPivotTransform(t, p); }
      DotScaledUnit(|ids|, p, d, RightHand(g, ids, x));
      DotOne(row, x);
      PivotScale(row[0]);
      MulAssociates(d, row[0], x(0));
      MulOneLeft(x(0));
    }
  }

  lemma RoundPivotTransform(t: Tables, p: nat)
    requires t.Valid(1) && p < |t.ptr|
    ensures Round(t, 0, p, 1).inv[0] == Scaled(t.inv[p], DivElem(1, t.store[t.ptr[p]][0]))
  {
    hide Scaled, DivElem, ClearFrom;
    ClearKeepsPivotTransform(Prepared(t, 0, p, 1), 0, 0, 1);
  }

  lemma DotOne(v: Vector, x: nat -> Byte)
    requires |v| == 1
    ensures Dot(v, x) == Mul(v[0], x(0))
  {
    hide Add, Mul;
    SumSingle(1, Terms(v, x), 0);
  }

  /** Unknown i is one, the others are zero. */
  function Unit(i: nat): nat -> Byte { (c: nat) => Delta(c, i) }

  lemma DotUnitRight(v: Vector, i: nat)
    requires i < |v|
    ensures Dot(v, Unit(i)) == v[i]
  {
    hide Add, Mul;
    var f := Terms(v, Unit(i));
    forall k: nat | k < |v| && k != i
      ensures f(k) == 0
    {
      assert Unit(i)(k) == 0;
      assert f(k) == Mul(Coef(v, k), Unit(i)(k));
      NoZeroDivisors(v[k], 0);
    }
    SumSingle(|v|, f, i);
    assert Unit(i)(i) == 1;
    assert f(i) == Mul(Coef(v, i), Unit(i)(i));
    MulOneRight(v[i]);
  }

  // ----- a wrong answer for every other list -----

  lemma {:induction false} IdSetSize(u: seq<nat>)
    ensures |IdSet(u)| <= |u|
  {
    if u != [] {
      var less := u[..|u| - 1];
      IdSetSize(less);
      SubsetSize(IdSet(u), IdSet(less) + {u[|u| - 1]});
    }
  }

  /** Picks n different members, the given one first. */
  lemma {:induction false} Choose(s: set<nat>, q: nat, n: nat) returns (u: seq<nat>)
    requires q in s && 1 <= n <= |s|
    ensures |u| == n && Different(u) && u[0] == q && forall c :: 0 <= c < n ==> u[c] in s
  {
    if n == 1 {
      u := [q];
    } else {
      u := Choose(s, q, n - 1);
      IdSetSize(u);
      if s <= IdSet(u) { SubsetSize(s, IdSet(u)); }
      var r :| r in s && r !in IdSet(u);
      u := u + [r];
    }
  }

  /** The table that mixes unknowns 0 and 1 in the repeated row and has unit rows otherwise. */
  function MixingPlan(u: seq<nat>): Plan
    requires |u| >= 2
  {
    Plan(u, 0, seq(|u|, (c: nat) => if c <= 1 then 1 else 0))
  }

  function PlanTable(plan: Plan, rows: nat, n: nat): (g: Matrix)
    requires plan.Valid(n)
    ensures HasShape(g, rows, n)
  {
    seq(rows, (r: nat) => seq(n, c requires 0 <= c < n => plan.Entry(0, r, c)))
  }

  /** With a repeated pointer, enough different ones, and two unknowns or more, there is a table
      with a pivot in every column for which unknown 1 is added to the answer for unknown 0. */
  lemma RepeatedMisleads(ids: seq<nat>, rows: nat, n: nat)
    requires InTable(ids, rows) && !Different(ids) && |IdSet(ids)| >= n >= 2
    ensures exists g: Matrix :: HasShape(g, rows, n) && !Recovers(g, ids, n, Unit(1))
  {
    hide EliminateShared, Scaled, Dot, Planted;
    var k, l :| 0 <= k < l < |ids| && ids[k] == ids[l];
    assert ids[k] in IdSet(ids);
    var u := Choose(IdSet(ids), ids[k], n);
    var plan := MixingPlan(u);
    var g := PlanTable(plan, rows, n);
    MixingPlanted(plan, ids, k, l, rows, n);
    PlantedAnswer(plan, g, ids, n);
    var t := EliminateShared(Tables(g, ids, Identity(|ids|)), 0, n).1;
    assert Yields(g, ids, t.inv[0], plan.Target(0));
    OneIsNeutral(Tail(plan.v, 0));
    TailAll(plan.v);
    DotUnitRight(plan.v, 1);
    assert Dot(t.inv[0], RightHand(g, ids, Unit(1))) == 1 != Unit(1)(0);
  }

  lemma MixingPlanted(plan: Plan, ids: seq<nat>, k: nat, l: nat, rows: nat, n: nat)
    requires InTable(ids, rows) && k < l < |ids| && ids[k] == ids[l] && |plan.u| == n >= 2
    requires plan == MixingPlan(plan.u) && Different(plan.u) && plan.u[0] == ids[k]
    requires forall c :: 0 <= c < n ==> plan.u[c] in IdSet(ids)
    ensures Planted(plan, PlanTable(plan, rows, n), ids, n)
  {
    forall c | 0 <= c < n ensures plan.u[c] in ids { assert plan.u[c] in IdSet(ids); }
    assert ids[k] == ids[l] == plan.u[plan.a];
  }

  /** Which pointers are safe: exactly those that are all different, or too few different ones to
      solve for all unknowns, or any when there is at most one unknown. */
  lemma SafeIff(ids: seq<nat>, rows: nat, n: nat)
    requires InTable(ids, rows)
    ensures Safe(ids, rows, n) <==> Different(ids) || |IdSet(ids)| < n || n <= 1
  {
    hide Different, IdSet, Recovers;
    if Different(ids) || |IdSet(ids)| < n || n <= 1 {
      forall g: Matrix, x: nat -> Byte | HasShape(g, rows, n)
        ensures Recovers(g, ids, n, x)
      {
        assert InTable(ids, |g|);
        if Different(ids) {
          DifferentRecovers(g, ids, n, x);
        } else if n == 1 {
          OneUnknownRecovers(g, ids, x);
        } else {
          TooFewRecovers(g, ids, n, x);
        }
      }
    } else {
      RepeatedMisleads(ids, rows, n);
    }
  }

  lemma TooFewRecovers(g: Matrix, ids: seq<nat>, n: nat, x: nat -> Byte)
    requires HasShape(g, |g|, n) && InTable(ids, |g|) && (|IdSet(ids)| < n || n == 0)
    ensures Recovers(g, ids, n, x)
  {
    hide EliminateShared;
    RankAtMostDifferent(Tables(g, ids, Identity(|ids|)), n);
  }
}
