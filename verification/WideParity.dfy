/**
 Batches with 32 parity packets or more. The header keeps nout mod 32, and decode draws the
 coefficients of every parity row for that number, so a parity packet is read with coefficients that
 belong to other draws than those it was made with.
 */
module WideParity {
  import opened GaloisField
  import opened LinearAlgebra
  import opened Elimination
  import LinearSystems
  import opened SharedRows
  import opened ErasureCode
  import opened RepeatedPackets
  import opened Options

  /** A batch as its packets announce it: with the number of parity packets that the header keeps. */
  function Announced(batchId: Word, nin: Bits5, nout: nat, size: nat, source: Matrix): Batch {
    Batch(batchId, nin, nout % 32, size, source)
  }

  /** All source packets but a, and parity packet r, each once, in any order. */
  predicate InPlaceOf(pkts: seq<Packet>, all: seq<Packet>, nin: nat, r: nat, a: nat) {
    Different(CoefIds(pkts)) && HasCoef(pkts, r) && (forall c: nat :: c < nin && c != a ==> HasCoef(pkts, c)) &&
    forall k :: 0 <= k < |pkts| ==>
      var id := pkts[k].hdr.coefId; (id == r || (id < nin && id != a)) && id < |all| && pkts[k] == all[id]
  }

  /** The coefficients of what decode gives for source packet a, if the parity packet was made with row
      and is read with row'. */
  function Misread(row: Vector, row': Vector, a: nat): Vector
    requires |row| == |row'| && a < |row|
  {
    Scaled(AddScaled(row, row'[a := 0], 1), DivElem(1, row'[a]))
  }

  /** With that in place of source packet a, the parity packet looks as if made with row'. */
  lemma MisreadFits(row: Vector, row': Vector, a: nat, source: Matrix, size: nat)
    requires |row| == |row'| && a < |row| && row'[a] != 0 && HasShape(source, |row|, size)
    ensures var other := source[a := Combination(Misread(row, row', a), source, size)];
            Combination(row', other, size) == Combination(row, source, size)
  {
    hide Dot, Misread;
    var z := Combination(Misread(row, row', a), source, size);
    var other := source[a := z];
    forall j: nat | j < size
      ensures Dot(row', Column(other, j)) == Dot(row, Column(source, j))
    {
      assert z[j] == Dot(Misread(row, row', a), Column(source, j));
      MisreadEntry(row, row', a, Column(source, j), Column(other, j));
    }
  }

  lemma MisreadEntry(row: Vector, row': Vector, a: nat, x: nat -> Byte, y: nat -> Byte)
    requires |row| == |row'| && a < |row| && row'[a] != 0 && y(a) == Dot(Misread(row, row', a), x)
    requires forall k: nat :: k < |row| && k != a ==> y(k) == x(k)
    ensures Dot(row', y) == Dot(row, x)
  {
    hide Dot, Mul, Add, DivElem, Scaled;
    var rest, d := row'[a := 0], DivElem(1, row'[a]);
    var sum := AddScaled(row, rest, 1);
    DotScaled(sum, d, x);
    DotAddScaled(row, rest, 1, x);
    MulOneLeft(Dot(rest, x));
    SplitAt(row', a, y);
    RestAgrees(rest, a, x, y);
    PivotScale(row'[a]);
    MulCommutes(row'[a], d);
    MulAssociates(row'[a], d, Dot(sum, x));
    MulOneLeft(Dot(sum, x));
    var p, q := Dot(rest, x), Dot(row, x);
    AddCommutes(q, p);
    AddAssociates(p, p, q);
    AddZeroSelf(p);
    AddZeroSelf(q);
  }

  lemma SplitAt(v: Vector, a: nat, x: nat -> Byte)
    requires a < |v|
    ensures Dot(v, x) == Add(Dot(v[a := 0], x), Mul(v[a], x(a)))
  {
    hide Dot, Mul, Add;
    var rest, unit := v[a := 0], Identity(|v|)[a];
    forall k | 0 <= k < |v|
      ensures AddScaled(rest, unit, v[a])[k] == v[k]
    {
      MulOneRight(v[a]);
      NoZeroDivisors(v[a], 0);
      AddZeroSelf(v[k]);
    }
    assert AddScaled(rest, unit, v[a]) == v;
    DotAddScaled(rest, unit, v[a], x);
    DotUnit(unit, a, x);
  }

  lemma RestAgrees(v: Vector, a: nat, x: nat -> Byte, y: nat -> Byte)
    requires a < |v| && v[a] == 0 && forall k: nat :: k < |v| && k != a ==> y(k) == x(k)
    ensures Dot(v, y) == Dot(v, x)
  {
    hide Add, Mul;
    forall k: nat | k < |v|
      ensures Terms(v, y)(k) == Terms(v, x)(k)
    {
      NoZeroDivisors(0, x(a));
      NoZeroDivisors(0, y(a));
    }
    SumEqual(|v|, Terms(v, y), Terms(v, x));
  }

  lemma InPlaceBelong(draw: Draws, pkts: seq<Packet>, batchId: Word, nin: Bits5, nout: nat, size: nat, source: Matrix, r: nat, a: nat)
    requires HasShape(source, nin, size) && nin <= r < nin + nout % 32 && a < nin
    requires InPlaceOf(pkts, Encode(draw, batchId, nin, nout, size, source), nin, r, a)
    requires Announced(batchId, nin, nout, size, source).Row(draw, r)[a] != 0
    ensures var row, row' := GeneratorRow(draw, batchId, nin, nout, r), Announced(batchId, nin, nout, size, source).Row(draw, r);
            var z := Combination(Misread(row, row', a), source, size);
            AllPacketsOf(draw, pkts, Announced(batchId, nin, nout, size, source[a := z]))
  {
    hide Combination, Misread;
    var row, row' := GeneratorRow(draw, batchId, nin, nout, r), Announced(batchId, nin, nout, size, source).Row(draw, r);
    var z := Combination(Misread(row, row', a), source, size);
    MisreadFits(row, row', a, source, size);
    forall k | 0 <= k < |pkts|
      ensures IsPacketOf(draw, pkts[k], Announced(batchId, nin, nout, size, source[a := z]))
    {
      var c: nat := pkts[k].hdr.coefId;
      if c != r {
        SystematicRow(draw, batchId, nin, nout, size, source, c);
        SystematicRow(draw, batchId, nin, nout % 32, size, source[a := z], c);
      }
    }
  }

  /** What such packets decode to: source packet a is replaced by what the two rows make of it. */
  lemma WideParityDecodes(draw: Draws, left: Matrix, pkts: seq<Packet>, batchId: Word, nin: Bits5, nout: nat, size: nat, source: Matrix, r: nat, a: nat)
    requires HasShape(source, nin, size) && nin <= r < nin + nout % 32 && a < nin && WellFormed(left, pkts, size)
    requires InPlaceOf(pkts, Encode(draw, batchId, nin, nout, size, source), nin, r, a)
    requires Announced(batchId, nin, nout, size, source).Row(draw, r)[a] != 0
    ensures var row, row' := GeneratorRow(draw, batchId, nin, nout, r), Announced(batchId, nin, nout, size, source).Row(draw, r);
            Decode(draw, left, pkts, size) == Some(source[a := Combination(Misread(row, row', a), source, size)])
  {
    hide Combination, Misread, Decode, Dot, Different, GeneratorRow;
    var row, row' := GeneratorRow(draw, batchId, nin, nout, r), Announced(batchId, nin, nout, size, source).Row(draw, r);
    var b := Announced(batchId, nin, nout, size, source[a := Combination(Misread(row, row', a), source, size)]);
    InPlaceBelong(draw, pkts, batchId, nin, nout, size, source, r, a);
    RoundTrip(draw, left, pkts, b);
    BatchCoefficients(draw, left, pkts, b);
    DecodesIffTrivialKernel(draw, left, pkts, b);
    var m := CoefficientMatrix(draw, left, pkts);
    forall x: nat -> Byte | InKernel(m, x) ensures forall k: nat :: k < nin ==> x(k) == 0 {
      InPlaceKernel(draw, pkts, b, m, r, a, x);
    }
  }

  /** Only the zero vector is sent to zero by the rows that decode uses. */
  lemma InPlaceKernel(draw: Draws, pkts: seq<Packet>, b: Batch, m: Matrix, r: nat, a: nat, x: nat -> Byte)
    requires HasShape(m, |pkts|, b.nin) && (forall k :: 0 <= k < |pkts| ==> m[k] == b.Row(draw, pkts[k].hdr.coefId))
    requires HasCoef(pkts, r) && (forall c: nat :: c < b.nin && c != a ==> HasCoef(pkts, c)) && a < b.nin
    requires b.Row(draw, r)[a] != 0 && InKernel(m, x)
    ensures forall k: nat :: k < b.nin ==> x(k) == 0
  {
    hide Dot, Add, Mul, GeneratorRow;
    var n: nat := b.nin;
    forall c: nat | c < n && c != a
      ensures x(c) == 0
    {
      assert HasCoef(pkts, c);
      var k :| 0 <= k < |pkts| && pkts[k].hdr.coefId == c;
      forall j | 0 <= j < n ensures m[k][j] == Delta(c, j) { SystematicEntry(draw, b, c, j); }
      DotUnit(m[k], c, x);
      assert Dot(m[k], x) == 0;
    }
    var k :| 0 <= k < |pkts| && pkts[k].hdr.coefId == r;
    var v := m[k];
    assert Dot(v, x) == 0;
    SplitAt(v, a, x);
    LinearSystems.DotZero(v[a := 0], x);
    AddZeroSelf(Mul(v[a], x(a)));
    NoZeroDivisors(v[a], x(a));
  }

  /** That is right for every source exactly if both rows are the same. */
  lemma MisreadIff(row: Vector, row': Vector, a: nat, size: nat)
    requires |row| == |row'| && a < |row| && row'[a] != 0 && size >= 1
    ensures (forall source: Matrix :: HasShape(source, |row|, size) ==>
               Combination(Misread(row, row', a), source, size) == source[a])
       <==> row == row'
  {
    hide Combination, Misread, Dot;
    var n, w := |row|, Misread(row, row', a);
    MisreadSame(row, row', a);
    if row == row' {
      forall source: Matrix | HasShape(source, n, size) ensures Combination(w, source, size) == source[a] {
        UnitCombination(source, n, a, size);
      }
    } else {
      var c :| 0 <= c < n && w[c] != Delta(a, c);
      var source := UnitSource(n, size, c);
      CombinationOfUnits(w, size, c);
      assert Combination(w, source, size)[0] == w[c] && source[a][0] == Delta(a, c);
    }
  }

  /** Both rows are the same exactly if nothing but packet a is left. */
  lemma MisreadSame(row: Vector, row': Vector, a: nat)
    requires |row| == |row'| && a < |row| && row'[a] != 0
    ensures |Misread(row, row', a)| == |row| && (Misread(row, row', a) == Identity(|row|)[a] <==> row == row')
    ensures row != row' ==> exists c :: 0 <= c < |row| && Misread(row, row', a)[c] != Delta(a, c)
  {
    hide Mul, Add, DivElem;
    var n, d, w := |row|, DivElem(1, row'[a]), Misread(row, row', a);
    PivotScale(row'[a]);
    forall c | 0 <= c < n
      ensures w[c] == Delta(a, c) <==> row[c] == row'[c]
    {
      MulOneLeft(row'[a := 0][c]);
      assert w[c] == Mul(d, Add(row[c], row'[a := 0][c]));
      if c == a {
        AddZeroSelf(row[a]);
        CancelLeft(d, row[a], row'[a]);
      } else {
        NoZeroDivisors(d, Add(row[c], row'[c]));
        AddZeroEqual(row[c], row'[c]);
      }
    }
    if w == Identity(n)[a] {
      forall c | 0 <= c < n ensures row[c] == row'[c] { assert w[c] == Delta(a, c); }
    }
    if row != row' {
      var c :| 0 <= c < n && row[c] != row'[c];
      assert w[c] != Delta(a, c);
    }
  }

  lemma CancelLeft(d: Byte, x: Byte, y: Byte)
    requires d != 0
    ensures Mul(d, x) == Mul(d, y) <==> x == y
  {
    hide Mul, Add;
    MulAddRight(d, x, y);
    NoZeroDivisors(d, Add(x, y));
    AddZeroEqual(x, y);
    AddZeroEqual(Mul(d, x), Mul(d, y));
  }
}
