/**
 What decoding makes of packets whose coefficient ids repeat. They share a row of the coefficient
 table, and a repeated parity packet used as a pivot row is subtracted from itself. For a draw
 whose parity row is given the result of such a decode is stated, and for lists of ids when every
 draw decodes right.
 */
module RepeatedPackets {
  import opened Division
  import opened GaloisField
  import opened LinearAlgebra
  import opened Elimination
  import LinearSystems
  import opened FiniteField
  import opened SharedRows
  import opened PlantedRows
  import opened CrossedRows
  import opened RepeatedRows
  import opened ErasureCode
  import opened Options

  predicate IdsOf(ids: seq<nat>, nin: nat, nout: nat) {
    ids != [] && forall k :: 0 <= k < |ids| ==> ids[k] < nin + nout
  }

  /** The packets of a batch with these coefficient ids, as encoding makes them. */
  function Arrived(draw: Draws, b: Batch, ids: seq<nat>): (pkts: seq<Packet>)
    requires b.Valid() && IdsOf(ids, b.nin, b.nout)
    ensures |pkts| == |ids|
  {
    var all := Encode(draw, b.batchId, b.nin, b.nout, b.size, b.source);
    seq(|ids|, k requires 0 <= k < |ids| => all[ids[k]])
  }

  lemma ArrivedBelong(draw: Draws, left: Matrix, b: Batch, ids: seq<nat>)
    requires b.Valid() && IdsOf(ids, b.nin, b.nout) && Leftovers(left, b.nin)
    ensures var pkts := Arrived(draw, b, ids);
            AllPacketsOf(draw, pkts, b) && CoefIds(pkts) == ids && WellFormed(left, pkts, b.size) &&
            pkts[0].hdr.nin == b.nin && pkts[0].hdr.nout == b.nout && pkts[0].hdr.batchId == b.batchId
  {
    hide Combination;
    forall k | 0 <= k < |ids| ensures IsPacketOf(draw, Arrived(draw, b, ids)[k], b) {
      EncodedPacketsBelong(draw, b, ids[k]);
    }
  }

  /** What decoding makes of the packets of a batch with these coefficient ids. */
  function DecodeIds(draw: Draws, left: Matrix, b: Batch, ids: seq<nat>): Option<Matrix>
    requires b.Valid() && IdsOf(ids, b.nin, b.nout) && Leftovers(left, b.nin)
  {
    ArrivedBelong(draw, left, b, ids);
    Decode(draw, left, Arrived(draw, b, ids), b.size)
  }

  /** The coefficient table at that time. */
  function TableOf(draw: Draws, left: Matrix, b: Batch): (g: Matrix)
    requires Leftovers(left, b.nin)
    ensures HasShape(g, |left|, b.nin) && forall r: nat :: r < b.nin + b.nout ==> g[r] == b.Row(draw, r)
  {
    Table(draw, MakeHeader(b.batchId, 0, b.nin, b.nout), left)
  }

  lemma AttachedIs(draw: Draws, left: Matrix, b: Batch, ids: seq<nat>)
    requires b.Valid() && IdsOf(ids, b.nin, b.nout) && Leftovers(left, b.nin)
    ensures Attached(draw, left, Arrived(draw, b, ids)) == Tables(TableOf(draw, left, b), ids, Identity(|ids|))
  {
    hide Combination, GeneratorRow;
    ArrivedBelong(draw, left, b, ids);
  }

  /** If the table follows a plan, decoding gives what the plan says each row yields. */
  lemma PlannedDecode(draw: Draws, left: Matrix, b: Batch, ids: seq<nat>, plan: Plan)
    requires b.Valid() && IdsOf(ids, b.nin, b.nout) && Leftovers(left, b.nin)
    requires Planted(plan, TableOf(draw, left, b), ids, b.nin)
    ensures plan.Valid(b.nin)
    ensures var x := DecodeIds(draw, left, b, ids);
            x.Some? && HasShape(x.value, b.nin, b.size) && forall c :: 0 <= c < b.nin ==>
              x.value[c] == Combination(plan.Target(c), b.source, b.size)
  {
    hide EliminateShared, Yields, Planted, Dot, GeneratorRow, TableOf, Plan.Target;
    ArrivedBelong(draw, left, b, ids);
    AttachedIs(draw, left, b, ids);
    var pkts, g, n: nat := Arrived(draw, b, ids), TableOf(draw, left, b), b.nin;
    PlantedMeans(plan, g, ids, n);
    PlantedAnswer(plan, g, ids, n);
    var (rank, t) := EliminateShared(Attached(draw, left, pkts), 0, n);
    var x := Solution(t.inv, Payloads(pkts), n, b.size);
    forall c: nat, j: nat | c < n && j < b.size
      ensures x[c][j] == Dot(plan.Target(c), Column(b.source, j))
    {
      assert Yields(g, ids, t.inv[c], plan.Target(c));
      YieldsPayload(draw, left, b, ids, t.inv[c], plan.Target(c), j);
    }
    forall c: nat | c < n ensures x[c] == Combination(plan.Target(c), b.source, b.size) {}
  }

  lemma YieldsPayload(draw: Draws, left: Matrix, b: Batch, ids: seq<nat>, row: Vector, w: Vector, j: nat)
    requires b.Valid() && IdsOf(ids, b.nin, b.nout) && Leftovers(left, b.nin) && j < b.size && |row| == |ids|
    requires InTable(ids, |left|) && Yields(TableOf(draw, left, b), ids, row, w)
    ensures Dot(row, Column(Payloads(Arrived(draw, b, ids)), j)) == Dot(w, Column(b.source, j))
  {
    hide Dot, GeneratorRow, TableOf;
    ArrivedBelong(draw, left, b, ids);
    AttachedIs(draw, left, b, ids);
    var y, right := Column(Payloads(Arrived(draw, b, ids)), j), RightHand(TableOf(draw, left, b), ids, Column(b.source, j));
    forall k: nat | k < |row| ensures y(k) == right(k) { PayloadIsRight(draw, left, Arrived(draw, b, ids), b, k, j); }
    DotEqual(row, y, right);
  }

  /** The combination with the coefficients of a unit vector. */
  lemma UnitCombination(source: Matrix, n: nat, c: nat, size: nat)
    requires HasShape(source, n, size) && c < n
    ensures Combination(Identity(n)[c], source, size) == source[c]
  {
    hide Dot;
    forall j: nat | j < size ensures Combination(Identity(n)[c], source, size)[j] == source[c][j] {
      DotUnit(Identity(n)[c], c, Column(source, j));
    }
  }

  // ----- a draw that is given -----

  /** The ids of all source packets but a, and parity packet q in place of it, twice or more often. */
  predicate Replaces(ids: seq<nat>, q: nat, a: nat, nin: nat) {
    Twice(ids, 0, q) && a < nin <= q &&
    (forall k :: 0 <= k < |ids| ==> ids[k] == q || (ids[k] < nin && ids[k] != a)) &&
    (forall c :: 0 <= c < nin && c != a ==> c in ids)
  }

  /** The parity row mixes in no source packet before a, or all source packets before a arrive before
      the parity packet does. */
  predicate SourcesFirst(ids: seq<nat>, q: nat, a: nat, row: Vector) {
    ZeroBefore(row, a) || forall c :: 0 <= c < a ==> Precedes(ids, 0, c, q)
  }

  function ReplacementPlan(row: Vector, q: nat, a: nat): Plan {
    Plan(seq(|row|, (c: nat) => if c == a then q else c), a, row)
  }

  lemma ReplacementPlanted(draw: Draws, left: Matrix, b: Batch, ids: seq<nat>, q: nat, a: nat)
    requires IdsOf(ids, b.nin, b.nout) && Leftovers(left, b.nin) && Replaces(ids, q, a, b.nin)
    requires var row := b.Row(draw, q); row[a] != 0 && SourcesFirst(ids, q, a, row)
    ensures Planted(ReplacementPlan(b.Row(draw, q), q, a), TableOf(draw, left, b), ids, b.nin)
  {
    hide TableOf, Precedes;
    var plan, n: nat := ReplacementPlan(b.Row(draw, q), q, a), b.nin;
    forall c | 0 <= c < n ensures plan.u[c] in ids {
      var k :| 0 <= k < |ids| && ids[k] == q;
    }
    assert plan.Valid(n);
    forall k, c | 0 <= k < |ids| && 0 <= c < n
      ensures TableOf(draw, left, b)[ids[k]][c] == plan.Entry(0, ids[k], c)
    {
      assert TableOf(draw, left, b)[ids[k]] == b.Row(draw, ids[k]);
    }
  }

  /** What takes the place of source packet a: the parity row from column a on, divided by its first
      coefficient there. */
  function Impostor(row: Vector, a: nat): Vector
    requires a < |row|
  {
    Scaled(Tail(row, a), DivElem(1, row[a]))
  }

  /** A parity packet twice in place of source packet a, where the parity row has a coefficient for a,
      and none for earlier source packets or these arrive first: decoding succeeds, gives every other
      source packet, and in place of packet a what the parity row mixes from a on. */
  lemma RepeatedParityMisleads(draw: Draws, left: Matrix, b: Batch, ids: seq<nat>, q: nat, a: nat)
    requires b.Valid() && IdsOf(ids, b.nin, b.nout) && Leftovers(left, b.nin) && Replaces(ids, q, a, b.nin)
    requires var row := b.Row(draw, q); row[a] != 0 && SourcesFirst(ids, q, a, row)
    ensures DecodeIds(draw, left, b, ids)
         == Some(b.source[a := Combination(Impostor(b.Row(draw, q), a), b.source, b.size)])
  {
    hide Combination, Scaled, DecodeIds, TableOf, GeneratorRow, Planted, DivElem, Tail;
    var row := b.Row(draw, q);
    var plan := ReplacementPlan(row, q, a);
    ReplacementPlanted(draw, left, b, ids, q, a);
    PlannedDecode(draw, left, b, ids, plan);
    var x := DecodeIds(draw, left, b, ids).value;
    forall c | 0 <= c < b.nin && c != a ensures x[c] == b.source[c] { UnitCombination(b.source, b.nin, c, b.size); }
    assert x == b.source[a := Combination(Impostor(row, a), b.source, b.size)];
  }

  /** That answer is right exactly if what the parity row mixes in after a cancels out. */
  lemma MisleadsUnlessCancelled(row: Vector, source: Matrix, a: nat, size: nat)
    requires HasShape(source, |row|, size) && a < |row| && row[a] != 0
    ensures Combination(Impostor(row, a), source, size) == source[a]
       <==> Combination(Tail(row, a + 1), source, size) == seq(size, _ => 0)
  {
    hide Dot, Mul, Add, DivElem, Impostor, Tail;
    var rest := Tail(row, a + 1);
    forall j: nat | j < size
      ensures Dot(Impostor(row, a), Column(source, j)) == source[a][j] <==> Dot(rest, Column(source, j)) == 0
    {
      EntryUnlessCancelled(row, a, Column(source, j));
    }
    var x, y := Combination(Impostor(row, a), source, size), Combination(rest, source, size);
    assert forall j :: 0 <= j < size ==> x[j] == Dot(Impostor(row, a), Column(source, j));
    assert x == source[a] ==> forall j :: 0 <= j < size ==> y[j] == 0;
    if y == seq(size, _ => 0) {
      forall j | 0 <= j < size ensures x[j] == source[a][j] { assert y[j] == 0; }
    }
  }

  lemma EntryUnlessCancelled(row: Vector, a: nat, x: nat -> Byte)
    requires a < |row| && row[a] != 0
    ensures Dot(Impostor(row, a), x) == x(a) <==> Dot(Tail(row, a + 1), x) == 0
  {
    hide Dot, Mul, Add, DivElem, Tail, Scaled;
    var d, rest := DivElem(1, row[a]), Tail(row, a + 1);
    DotScaled(Tail(row, a), d, x);
    TailStep(row, a, x);
    MulAddRight(d, Dot(rest, x), Mul(row[a], x(a)));
    MulAssociates(d, row[a], x(a));
    PivotScale(row[a]);
    MulOneLeft(x(a));
    NoZeroDivisors(d, Dot(rest, x));
    AddKeepsIff(Mul(d, Dot(rest, x)), x(a));
  }

  lemma AddKeepsIff(x: Byte, y: Byte)
    ensures Add(x, y) == y <==> x == 0
  {
  }

  /** The source whose packet c holds ones and whose other packets hold zeros. */
  function UnitSource(nin: nat, size: nat, c: nat): (m: Matrix)
    ensures HasShape(m, nin, size)
  {
    seq(nin, (r: nat) => seq(size, _ => Delta(r, c)))
  }

  lemma UnitSourceDot(row: Vector, size: nat, c: nat, j: nat)
    requires c < |row| && j < size
    ensures Dot(row, Column(UnitSource(|row|, size, c), j)) == row[c]
  {
    hide Dot;
    DotEqual(row, Column(UnitSource(|row|, size, c), j), Unit(c));
    DotUnitRight(row, c);
  }

  /** The decode gives every source back. */
  ghost predicate EverySourceRight(draw: Draws, left: Matrix, b: Batch, ids: seq<nat>)
    requires IdsOf(ids, b.nin, b.nout) && Leftovers(left, b.nin)
  {
    forall source: Matrix :: HasShape(source, b.nin, b.size) ==>
      DecodeIds(draw, left, b.(source := source), ids) == Some(source)
  }

  /** For a given draw: such a decode is right for every source exactly if the parity row mixes in no
      source packet after a. */
  lemma MisleadsIff(draw: Draws, left: Matrix, b: Batch, ids: seq<nat>, q: nat, a: nat)
    requires IdsOf(ids, b.nin, b.nout) && Leftovers(left, b.nin) && Replaces(ids, q, a, b.nin) && b.size >= 1
    requires var row := b.Row(draw, q); row[a] != 0 && SourcesFirst(ids, q, a, row)
    ensures EverySourceRight(draw, left, b, ids) <==> forall c :: a < c < b.nin ==> b.Row(draw, q)[c] == 0
  {
    hide Combination, Impostor, DecodeIds, GeneratorRow, Dot;
    var row := b.Row(draw, q);
    var rest := Tail(row, a + 1);
    forall source: Matrix | HasShape(source, b.nin, b.size)
      ensures DecodeIds(draw, left, b.(source := source), ids) == Some(source)
         <==> Combination(rest, source, b.size) == seq(b.size, _ => 0)
    {
      RepeatedParityMisleads(draw, left, b.(source := source), ids, q, a);
      MisleadsUnlessCancelled(row, source, a, b.size);
      var x := Combination(Impostor(row, a), source, b.size);
      assert source[a := x][a] == x && source[a := source[a]] == source;
    }
    if c :| a < c < b.nin && row[c] != 0 {
      var source := UnitSource(b.nin, b.size, c);
      CombinationOfUnits(rest, b.size, c);
      assert Combination(rest, source, b.size)[0] != 0;
    } else {
      forall source: Matrix ensures Combination(rest, source, b.size) == seq(b.size, _ => 0) {
        CombinationOfNothing(rest, source, b.size);
      }
    }
  }

  lemma CombinationOfUnits(row: Vector, size: nat, c: nat)
    requires c < |row|
    ensures Combination(row, UnitSource(|row|, size, c), size) == seq(size, _ => row[c])
  {
    hide Dot;
    forall j: nat | j < size ensures Combination(row, UnitSource(|row|, size, c), size)[j] == row[c] {
      UnitSourceDot(row, size, c, j);
    }
  }

  lemma CombinationOfNothing(row: Vector, source: Matrix, size: nat)
    requires forall c :: 0 <= c < |row| ==> row[c] == 0
    ensures Combination(row, source, size) == seq(size, _ => 0)
  {
    hide Dot;
    forall j: nat | j < size ensures Combination(row, source, size)[j] == 0 {
      LinearSystems.DotZero(row, Column(source, j));
    }
  }

  // ----- every draw -----

  /** If decoding succeeds, it returns the source. */
  predicate Right(draw: Draws, left: Matrix, b: Batch, ids: seq<nat>)
    requires b.Valid() && IdsOf(ids, b.nin, b.nout) && Leftovers(left, b.nin)
  {
    var x := DecodeIds(draw, left, b, ids);
    x.Some? ==> x.value == b.source
  }

  /** Success means the right answer for every draw, every source and every batch number. */
  ghost predicate AlwaysRight(ids: seq<nat>, nin: Bits5, nout: Bits5, size: nat)
    requires IdsOf(ids, nin, nout)
  {
    forall draw: Draws, left: Matrix, b: Batch ::
      b.nin == nin && b.nout == nout && b.size == size && b.Valid() && Leftovers(left, nin) ==> Right(draw, left, b, ids)
  }

  /** Different ids, too few different ids, or a single source packet: success means the right answer. */
  lemma SafeIdsAlwaysRight(ids: seq<nat>, nin: Bits5, nout: Bits5, size: nat)
    requires IdsOf(ids, nin, nout) && (Different(ids) || |IdSet(ids)| < nin || nin <= 1)
    ensures AlwaysRight(ids, nin, nout, size)
  {
    hide Different, IdSet, TableOf, Recovers, Decode, DecodeIds, GeneratorRow;
    forall draw: Draws, left: Matrix, b: Batch |
      b.nin == nin && b.nout == nout && b.size == size && b.Valid() && Leftovers(left, nin)
      ensures Right(draw, left, b, ids)
    {
      SafeIdsRight(draw, left, b, ids);
    }
  }

  lemma SafeIdsRight(draw: Draws, left: Matrix, b: Batch, ids: seq<nat>)
    requires b.Valid() && IdsOf(ids, b.nin, b.nout) && Leftovers(left, b.nin)
    requires Different(ids) || |IdSet(ids)| < b.nin || b.nin <= 1
    ensures Right(draw, left, b, ids)
  {
    hide Different, IdSet, Table, TableOf, Recovers, Decode, GeneratorRow, Safe;
    ArrivedBelong(draw, left, b, ids);
    AttachedIs(draw, left, b, ids);
    var g := TableOf(draw, left, b);
    SafeIff(ids, |g|, b.nin);
    forall j: nat | j < b.size ensures Recovers(g, ids, b.nin, Column(b.source, j)) {
      SafeMeans(ids, g, b.nin, Column(b.source, j));
    }
    RecoveredIsDecoded(draw, left, Arrived(draw, b, ids), b);
  }

  lemma SafeMeans(ids: seq<nat>, g: Matrix, n: nat, x: nat -> Byte)
    requires InTable(ids, |g|) && Safe(ids, |g|, n) && HasShape(g, |g|, n)
    ensures Recovers(g, ids, n, x)
  {
  }

  // ----- a draw that misleads -----

  /** The source packets before c that neither arrive themselves nor are packet a. */
  function Missing(ids: seq<nat>, a: nat, c: nat): (s: set<nat>)
    ensures forall x: nat :: x in s <==> x < c && x != a && x !in ids
  {
    if c == 0 then {}
    else if c - 1 == a || c - 1 in ids then Missing(ids, a, c - 1)
    else Missing(ids, a, c - 1) + {c - 1}
  }

  /** Column x of the plan is served by the parity packet q for x == a, by the source packet itself
      if it arrives, and by a parity packet of the pool otherwise. */
  predicate Serves(u: seq<nat>, ids: seq<nat>, q: nat, a: nat, pool: set<nat>) {
    forall x :: 0 <= x < |u| ==> if x == a then u[x] == q else if x in ids then u[x] == x else u[x] in pool
  }

  lemma {:induction false} Assign(ids: seq<nat>, q: nat, a: nat, pool: set<nat>, n: nat, c: nat) returns (u: seq<nat>)
    requires c <= n <= q && q !in pool && (forall r :: r in pool ==> n <= r) && |Missing(ids, a, c)| <= |pool|
    ensures |u| == c && Different(u) && Serves(u, ids, q, a, pool)
    decreases c
  {
    hide Different, Serves, Missing;
    MissingSize(ids, a, c);
    if c == 0 {
      u := [];
      AssignNone(ids, q, a, pool);
    } else if c - 1 == a || c - 1 in ids {
      u := Assign(ids, q, a, pool, n, c - 1);
      AssignOwn(u, ids, q, a, pool, n);
      u := u + [if c - 1 == a then q else c - 1];
    } else {
      var r :| r in pool;
      u := Assign(ids, q, a, pool - {r}, n, c - 1);
      AssignPooled(u, ids, q, a, pool, n, r);
      u := u + [r];
    }
  }

  lemma MissingSize(ids: seq<nat>, a: nat, c: nat)
    ensures c > 0 ==> |Missing(ids, a, c)| == |Missing(ids, a, c - 1)| + if c - 1 == a || c - 1 in ids then 0 else 1
  {
  }

  lemma AssignNone(ids: seq<nat>, q: nat, a: nat, pool: set<nat>)
    ensures Different([]) && Serves([], ids, q, a, pool)
  {
  }

  lemma AssignOwn(u: seq<nat>, ids: seq<nat>, q: nat, a: nat, pool: set<nat>, n: nat)
    requires |u| < n <= q && q !in pool && (forall r :: r in pool ==> n <= r)
    requires Different(u) && Serves(u, ids, q, a, pool) && (|u| == a || |u| in ids)
    ensures var u' := u + [if |u| == a then q else |u|]; Different(u') && Serves(u', ids, q, a, pool)
  {
  }

  lemma AssignPooled(u: seq<nat>, ids: seq<nat>, q: nat, a: nat, pool: set<nat>, n: nat, r: nat)
    requires |u| < n <= q && q !in pool && (forall r :: r in pool ==> n <= r) && r in pool
    requires Different(u) && Serves(u, ids, q, a, pool - {r}) && |u| != a && |u| !in ids
    ensures Different(u + [r]) && Serves(u + [r], ids, q, a, pool)
  {
  }

  function Range(n: nat): (s: set<nat>)
    ensures |s| == n && forall x: nat :: x in s <==> x < n
  {
    if n == 0 then {} else Range(n - 1) + {n - 1}
  }

  /** The parity packets among the ids, except q. */
  function Pool(ids: seq<nat>, q: nat, n: nat): set<nat> {
    set r | r in IdSet(ids) && n <= r && r != q
  }

  /** The source packets among the ids. */
  function Own(ids: seq<nat>, n: nat): set<nat> {
    set r | r in IdSet(ids) && r < n
  }

  lemma SplitIds(ids: seq<nat>, q: nat, n: nat)
    requires q in ids && n <= q
    ensures |IdSet(ids)| == |Own(ids, n)| + |Pool(ids, q, n)| + 1
  {
    var own, pool := Own(ids, n), Pool(ids, q, n);
    assert q in IdSet(ids);
    forall r ensures r in IdSet(ids) <==> r in own + (pool + {q}) {}
    assert IdSet(ids) == own + (pool + {q});
  }

  lemma SplitRange(ids: seq<nat>, a: nat, n: nat)
    requires a < n && a !in ids
    ensures n == |Own(ids, n)| + |Missing(ids, a, n)| + 1
  {
    var own, rest := Own(ids, n), Missing(ids, a, n);
    forall x: nat ensures x in own <==> x < n && x in ids { if x in ids { assert x in IdSet(ids); } }
    forall x: nat ensures x in Range(n) <==> x in own + (rest + {a}) {}
    assert Range(n) == own + (rest + {a});
  }

  /** There are enough parity packets for the columns that no source packet serves. */
  lemma EnoughParity(ids: seq<nat>, q: nat, a: nat, n: nat)
    requires |IdSet(ids)| >= n && a < n <= q && q in ids && a !in ids
    ensures |Missing(ids, a, n)| <= |Pool(ids, q, n)|
  {
    SplitIds(ids, q, n);
    SplitRange(ids, a, n);
  }

  /** Packet q mixes source packets a and a + 1; the other columns have one packet each. */
  function MisleadingPlan(u: seq<nat>, a: nat): Plan {
    Plan(u, a, seq(|u|, (c: nat) => if c == a || c == a + 1 then 1 else 0))
  }

  /** The draw that yields the parity rows of the plan. */
  function PlanDraw(plan: Plan, nin: nat, nout: nat): Draws
    requires nout >= 1 && plan.Valid(nin)
  {
    (seed: nat, d: nat) => if d / nout < nin then plan.Entry(0, nin + d % nout, d / nout) else 0
  }

  lemma PlanDrawn(plan: Plan, b: Batch, r: nat, c: nat)
    requires b.nout >= 1 && plan.Valid(b.nin) && b.nin <= r < b.nin + b.nout && c < b.nin
    ensures b.Row(PlanDraw(plan, b.nin, b.nout), r)[c] == plan.Entry(0, r, c)
  {
    hide Plan.Entry;
    DivideUnique(c * b.nout + (r - b.nin), b.nout, c, r - b.nin);
  }

  lemma MisleadingPlanted(left: Matrix, b: Batch, ids: seq<nat>, q: nat, a: nat, u: seq<nat>, pool: set<nat>)
    requires b.Valid() && IdsOf(ids, b.nin, b.nout) && Leftovers(left, b.nin)
    requires a + 1 < b.nin && a !in ids && Twice(ids, 0, q) && b.nin <= q < b.nin + b.nout
    requires |u| == b.nin && Different(u) && Serves(u, ids, q, a, pool)
    requires forall r :: r in pool ==> r in ids && b.nin <= r
    ensures MisleadingPlan(u, a).Valid(b.nin) &&
            Planted(MisleadingPlan(u, a), TableOf(PlanDraw(MisleadingPlan(u, a), b.nin, b.nout), left, b), ids, b.nin)
  {
    hide TableOf, GeneratorRow, PlanDraw, Different;
    var plan, n: nat := MisleadingPlan(u, a), b.nin;
    var draw := PlanDraw(plan, n, b.nout);
    forall c | 0 <= c < n ensures plan.u[c] in ids {
      var k :| 0 <= k < |ids| && ids[k] == q;
    }
    forall k, c | 0 <= k < |ids| && 0 <= c < n
      ensures TableOf(draw, left, b)[ids[k]][c] == plan.Entry(0, ids[k], c)
    {
      var r := ids[k];
      assert TableOf(draw, left, b)[r] == b.Row(draw, r);
      if r < n {
        SystematicEntry(draw, b, r, c);
        assert u[r] == r;
        DifferentApart(u, r, c);
      } else {
        PlanDrawn(plan, b, r, c);
      }
    }
  }

  lemma SystematicEntry(draw: Draws, b: Batch, r: nat, c: nat)
    requires r < b.nin && c < b.nin
    ensures b.Row(draw, r)[c] == Delta(r, c)
  {
  }

  /** With a repeated parity id, and enough different ids, some draw and some source decode wrongly. */
  lemma ParityRepeatMisleads(ids: seq<nat>, nin: Bits5, nout: Bits5, size: nat, a: nat, q: nat)
    requires IdsOf(ids, nin, nout) && size >= 1 && a + 1 < nin && a !in ids
    requires Twice(ids, 0, q) && nin <= q && |IdSet(ids)| >= nin
    ensures !AlwaysRight(ids, nin, nout, size)
  {
    hide TableOf, DecodeIds, MisleadingPlan;
    EnoughParity(ids, q, a, nin);
    var u := Assign(ids, q, a, Pool(ids, q, nin), nin, nin);
    var left: Matrix := seq(64, (r: nat) => seq(nin, _ => 0));
    var b := Batch(0, nin, nout, size, UnitSource(nin, size, a + 1));
    var draw := MisleadingDecode(left, b, ids, q, a, u, Pool(ids, q, nin));
    assert !Right(draw, left, b, ids);
  }

  lemma MisleadingDecode(left: Matrix, b: Batch, ids: seq<nat>, q: nat, a: nat, u: seq<nat>, pool: set<nat>)
    returns (draw: Draws)
    requires IdsOf(ids, b.nin, b.nout) && Leftovers(left, b.nin) && b.size >= 1
    requires a + 1 < b.nin && a !in ids && Twice(ids, 0, q) && b.nin <= q < b.nin + b.nout
    requires |u| == b.nin && Different(u) && Serves(u, ids, q, a, pool)
    requires forall r :: r in pool ==> r in ids && b.nin <= r
    requires b.source == UnitSource(b.nin, b.size, a + 1)
    ensures !Right(draw, left, b, ids)
  {
    hide TableOf, Planted, DecodeIds, GeneratorRow, PlanDraw, Combination, Plan.Target, Plan.Entry, Different;
    var plan := MisleadingPlan(u, a);
    MisleadingPlanted(left, b, ids, q, a, u, pool);
    draw := PlanDraw(plan, b.nin, b.nout);
    PlannedDecode(draw, left, b, ids, plan);
    var x := DecodeIds(draw, left, b, ids).value;
    MisleadingTarget(plan, b.nin, a);
    CombinationOfUnits(plan.Target(a), b.size, a + 1);
    assert x[a][0] == 1 && b.source[a][0] == 0;
  }

  lemma MisleadingTarget(plan: Plan, n: nat, a: nat)
    requires plan.Valid(n) && plan == MisleadingPlan(plan.u, a) && a + 1 < n
    ensures |plan.Target(a)| == n && plan.Target(a)[a + 1] == 1
  {
    hide Mul, DivElem;
    OneIsNeutral(Tail(plan.v, a));
  }

  /** If a parity id repeats and some source packet before the last one does not arrive: success means
      the right answer for every draw and source exactly if too few ids are different. */
  lemma AlwaysRightIff(ids: seq<nat>, nin: Bits5, nout: Bits5, size: nat, a: nat, q: nat)
    requires IdsOf(ids, nin, nout) && size >= 1 && a + 1 < nin && a !in ids && Twice(ids, 0, q) && nin <= q
    ensures AlwaysRight(ids, nin, nout, size) <==> |IdSet(ids)| < nin
  {
    hide AlwaysRight, IdSet, Twice;
    if |IdSet(ids)| < nin {
      SafeIdsAlwaysRight(ids, nin, nout, size);
    } else {
      ParityRepeatMisleads(ids, nin, nout, size, a, q);
    }
  }

  // ----- source packets only -----

  /** Every column is served by its own source packet. */
  function OwnPlan(n: nat, q: nat): Plan {
    Plan(seq(n, (c: nat) => c), q, seq(n, (c: nat) => Delta(q, c)))
  }

  lemma AllOwn(ids: seq<nat>, n: nat, c: nat)
    requires (forall k :: 0 <= k < |ids| ==> ids[k] < n) && |IdSet(ids)| >= n && c < n
    ensures c in ids
  {
    if c !in ids {
      forall r | r in IdSet(ids) ensures r in Range(n) - {c} { assert r in ids; }
      SubsetSize(IdSet(ids), Range(n) - {c});
    }
  }

  lemma OwnPlanted(draw: Draws, left: Matrix, b: Batch, ids: seq<nat>, q: nat)
    requires IdsOf(ids, b.nin, b.nout) && Leftovers(left, b.nin) && Twice(ids, 0, q) && q < b.nin
    requires (forall k :: 0 <= k < |ids| ==> ids[k] < b.nin) && |IdSet(ids)| >= b.nin
    ensures Planted(OwnPlan(b.nin, q), TableOf(draw, left, b), ids, b.nin)
  {
    hide TableOf, GeneratorRow, IdSet;
    var plan, n: nat := OwnPlan(b.nin, q), b.nin;
    forall c | 0 <= c < n ensures plan.u[c] in ids { AllOwn(ids, n, c); }
    forall k, c | 0 <= k < |ids| && 0 <= c < n
      ensures TableOf(draw, left, b)[ids[k]][c] == plan.Entry(0, ids[k], c)
    {
      assert TableOf(draw, left, b)[ids[k]] == b.Row(draw, ids[k]);
      SystematicEntry(draw, b, ids[k], c);
    }
  }

  /** Source packets may arrive any number of times: without parity packets success always means the
      right answer. */
  lemma SourcePacketsAlwaysRight(ids: seq<nat>, nin: Bits5, nout: Bits5, size: nat)
    requires IdsOf(ids, nin, nout) && forall k :: 0 <= k < |ids| ==> ids[k] < nin
    ensures AlwaysRight(ids, nin, nout, size)
  {
    hide TableOf, Planted, DecodeIds, GeneratorRow, Combination, Scaled, IdSet;
    if Different(ids) || |IdSet(ids)| < nin {
      SafeIdsAlwaysRight(ids, nin, nout, size);
    } else {
      var k, l :| 0 <= k < l < |ids| && ids[k] == ids[l];
      forall draw: Draws, left: Matrix, b: Batch |
        b.nin == nin && b.nout == nout && b.size == size && b.Valid() && Leftovers(left, nin)
        ensures Right(draw, left, b, ids)
      {
        OwnPlanted(draw, left, b, ids, ids[k]);
        OwnDecode(draw, left, b, ids, ids[k]);
      }
    }
  }

  lemma OwnDecode(draw: Draws, left: Matrix, b: Batch, ids: seq<nat>, q: nat)
    requires b.Valid() && IdsOf(ids, b.nin, b.nout) && Leftovers(left, b.nin) && q < b.nin
    requires Planted(OwnPlan(b.nin, q), TableOf(draw, left, b), ids, b.nin)
    ensures DecodeIds(draw, left, b, ids) == Some(b.source)
  {
    hide TableOf, Planted, DecodeIds, GeneratorRow, Combination, Plan.Target;
    PlannedDecode(draw, left, b, ids, OwnPlan(b.nin, q));
    var x := DecodeIds(draw, left, b, ids).value;
    forall c | 0 <= c < b.nin
      ensures x[c] == b.source[c]
    {
      OwnTarget(b.nin, q, c);
      UnitCombination(b.source, b.nin, c, b.size);
    }
    assert x == b.source;
  }

  lemma OwnTarget(n: nat, q: nat, c: nat)
    requires q < n && c < n
    ensures OwnPlan(n, q).Target(c) == Identity(n)[c]
  {
    hide DivElem, Scaled;
    OneIsNeutral(Tail(OwnPlan(n, q).v, q));
  }

  // ----- a repeated source packet -----

  /** The parity row mixes the source packets nin - 3 and nin - 1. */
  predicate MixesTwo(row: Vector) {
    |row| >= 3 && row[|row| - 3] != 0 && row[|row| - 1] != 0 &&
    forall c :: 0 <= c < |row| && c != |row| - 3 && c != |row| - 1 ==> row[c] == 0
  }

  lemma CrossedTableOf(draw: Draws, left: Matrix, b: Batch, q: nat)
    requires Leftovers(left, b.nin) && b.nin <= q < b.nin + b.nout && MixesTwo(b.Row(draw, q))
    ensures CrossedTable(TableOf(draw, left, b), b.nin - 3, q) && IdsOf(CrossedIds(b.nin - 3, q), b.nin, b.nout)
  {
    hide TableOf;
    var g := TableOf(draw, left, b);
    assert g[q] == b.Row(draw, q);
    forall k, c | 0 <= k < b.nin && 0 <= c < b.nin
      ensures g[k][c] == Delta(k, c)
    {
      assert g[k] == b.Row(draw, k);
      SystematicEntry(draw, b, k, c);
    }
  }

  /** A source packet that arrives twice can mislead as well, beside a single parity packet: for every
      draw whose parity row mixes the source packets nin - 3 and nin - 1 the packets 0, ..., nin - 4,
      the parity packet, nin - 3, nin - 3, nin - 2 decode to the source with these two packets, each
      scaled, in each other's place. */
  lemma RepeatedSourceMisleads(draw: Draws, left: Matrix, b: Batch, q: nat)
    requires b.Valid() && Leftovers(left, b.nin) && b.nin <= q < b.nin + b.nout && MixesTwo(b.Row(draw, q))
    ensures IdsOf(CrossedIds(b.nin - 3, q), b.nin, b.nout)
    ensures var r, row := b.nin - 3, b.Row(draw, q);
            var e := Mul(DivElem(1, row[r]), row[r + 2]);
            DecodeIds(draw, left, b, CrossedIds(r, q))
            == Some(b.source[r := Scaled(b.source[r + 2], e)][r + 2 := Scaled(b.source[r], DivElem(1, e))])
  {
    hide EliminateShared, Yields, Dot, Scaled, GeneratorRow, TableOf, CrossedTarget, DivElem, Mul, CrossedTable, CrossedIds;
    var r: nat, g, n: nat := b.nin - 3, TableOf(draw, left, b), b.nin;
    var ids := CrossedIds(r, q);
    CrossedTableOf(draw, left, b, q);
    ArrivedBelong(draw, left, b, ids);
    AttachedIs(draw, left, b, ids);
    CrossedAnswer(g, r, q);
    var (rank, t) := EliminateShared(Attached(draw, left, Arrived(draw, b, ids)), 0, n);
    var x := Solution(t.inv, Payloads(Arrived(draw, b, ids)), n, b.size);
    forall c: nat | c < n
      ensures x[c] == Combination(CrossedTarget(g, r, q, c), b.source, b.size)
    {
      assert Yields(g, ids, t.inv[c], CrossedTarget(g, r, q, c));
      forall j: nat | j < b.size ensures x[c][j] == Dot(CrossedTarget(g, r, q, c), Column(b.source, j)) {
        YieldsPayload(draw, left, b, ids, t.inv[c], CrossedTarget(g, r, q, c), j);
      }
    }
    CrossedCombinations(g, r, q, b.source, b.size);
    assert g[q] == b.Row(draw, q);
    var e := Ratio(g, r, q);
    assert x == b.source[r := Scaled(b.source[r + 2], e)][r + 2 := Scaled(b.source[r], DivElem(1, e))];
  }

  lemma CrossedCombinations(g: Matrix, r: nat, q: nat, source: Matrix, size: nat)
    requires CrossedTable(g, r, q) && HasShape(source, r + 3, size)
    ensures var e := Ratio(g, r, q);
            Combination(CrossedTarget(g, r, q, r), source, size) == Scaled(source[r + 2], e) &&
            Combination(CrossedTarget(g, r, q, r + 2), source, size) == Scaled(source[r], DivElem(1, e)) &&
            forall c :: 0 <= c < r + 3 && c != r && c != r + 2 ==>
              Combination(CrossedTarget(g, r, q, c), source, size) == source[c]
  {
    hide Combination, Scaled, DivElem, Ratio;
    var n, e := r + 3, Ratio(g, r, q);
    forall c | 0 <= c < n ensures Combination(Identity(n)[c], source, size) == source[c] { UnitCombination(source, n, c, size); }
    ScaledCombination(Identity(n)[r + 2], e, source, size);
    ScaledCombination(Identity(n)[r], DivElem(1, e), source, size);
  }

  lemma ScaledCombination(v: Vector, c: Byte, source: Matrix, size: nat)
    ensures Combination(Scaled(v, c), source, size) == Scaled(Combination(v, source, size), c)
  {
    hide Dot;
    forall j: nat | j < size ensures Combination(Scaled(v, c), source, size)[j] == Mul(c, Dot(v, Column(source, j))) {
      DotScaled(v, c, Column(source, j));
    }
  }

  /** Hence a repeated source packet beside a parity packet is not safe, for any nin >= 3. */
  lemma RepeatedSourceNotSafe(nin: Bits5, nout: Bits5, size: nat)
    requires nin >= 3 && nout >= 1 && size >= 1
    ensures IdsOf(CrossedIds(nin - 3, nin), nin, nout) && !AlwaysRight(CrossedIds(nin - 3, nin), nin, nout, size)
  {
    hide GeneratorRow, DecodeIds, Mul, CrossedIds;
    var left: Matrix := seq(64, (k: nat) => seq(nin, _ => 0));
    var b := Batch(0, nin, nout, size, UnitSource(nin, size, nin - 1));
    var draw := CrossingDraw(b);
    RepeatedSourceMisleads(draw, left, b, nin);
    OneIsNeutral(b.source[nin - 1]);
    MulOneLeft(1);
    var x := DecodeIds(draw, left, b, CrossedIds(nin - 3, nin)).value;
    assert x[nin - 3] == b.source[nin - 1];
    assert x[nin - 3][0] == 1 && b.source[nin - 3][0] == 0;
    assert !Right(draw, left, b, CrossedIds(nin - 3, nin));
  }

  lemma CrossingDraw(b: Batch) returns (draw: Draws)
    requires b.nin >= 3 && b.nout >= 1
    ensures MixesTwo(b.Row(draw, b.nin)) && b.Row(draw, b.nin)[b.nin - 3] == 1 == b.Row(draw, b.nin)[b.nin - 1]
  {
    hide GeneratorRow;
    var n: nat, a: nat := b.nin, b.nin - 3;
    var v := seq(n, (c: nat) => if c == a || c == a + 2 then 1 else 0);
    var plan := Plan(seq(n, (c: nat) => if c == a then n else c), a, v);
    draw := PlanDraw(plan, b.nin, b.nout);
    forall c | 0 <= c < n ensures b.Row(draw, n)[c] == v[c] { PlanDrawn(plan, b, n, c); }
  }
}
