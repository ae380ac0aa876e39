/**
 The erasure code on values: packets, the generator matrix that both ends regenerate from the
 batch number, encoding, and decoding by elimination. The main results are the round trip and
 the exact reach of decoding.
 */
module ErasureCode {
  import opened GaloisField
  import opened LinearAlgebra
  import opened Elimination
  import opened LinearSystems
  import opened FiniteField
  import opened SharedRows
  import opened PlantedRows
  import opened RepeatedRows
  import opened Options

  // ----- packets -----

  type Octet = x: nat | x < 256
  type Word = x: nat | x < 0x1_0000
  type Bits5 = x: nat | x < 32
  type Bits6 = x: nat | x < 64

  /** The coding header. The fields are as wide as the bit-fields of the packed struct. */
  datatype Header = Header(nodeId: Octet, batchId: Word, coefId: Bits6, nin: Bits5, nout: Bits5)

  datatype Packet = Packet(hdr: Header, payload: Vector)

  /** What the header keeps of the values written to it. */
  function MakeHeader(batchId: nat, coefId: nat, nin: nat, nout: nat): Header {
    Header(0, batchId % 0x1_0000, coefId % 64, nin % 32, nout % 32)
  }

  /** The header hands every value over unchanged exactly if all of them fit. */
  lemma HeaderKeepsValues(batchId: nat, coefId: nat, nin: nat, nout: nat)
    ensures (var h := MakeHeader(batchId, coefId, nin, nout);
             h.batchId == batchId && h.coefId == coefId && h.nin == nin && h.nout == nout)
       <==> batchId < 0x1_0000 && coefId < 64 && nin < 32 && nout < 32
  {
  }

  // ----- the generator matrix -----

  /** The bytes a pseudo-random generator yields: a function of the seed and the number of the draw. */
  type Draws = (nat, nat) -> Byte

  /** Row r of the generator matrix. Packets before nin are sent as they are; the others mix all
      nin packets with coefficients drawn column by column. */
  function GeneratorRow(draw: Draws, seed: nat, nin: nat, nout: nat, r: nat): (v: Vector)
    ensures |v| == nin
  {
    seq(nin, (c: nat) => if r < nin then Delta(r, c) else draw(seed, c * nout + (r - nin)))
  }

  // ----- encoding -----

  /** Packet r of a batch. */
  function EncodedPacket(draw: Draws, batchId: nat, nin: nat, nout: nat, size: nat, source: Matrix, r: nat): Packet {
    Packet(MakeHeader(batchId, r, nin, nout), Combination(GeneratorRow(draw, batchId, nin, nout, r), source, size))
  }

  /** All nin + nout packets of a batch. */
  function Encode(draw: Draws, batchId: nat, nin: nat, nout: nat, size: nat, source: Matrix): (pkts: seq<Packet>)
    requires HasShape(source, nin, size)
    ensures |pkts| == nin + nout
  {
    seq(nin + nout, (r: nat) => EncodedPacket(draw, batchId, nin, nout, size, source, r))
  }

  /** Every packet of a batch carries its number and what the receiver needs to know, and the first nin
      packets are the source packets. */
  lemma EncodedPackets(draw: Draws, batchId: Word, nin: Bits5, nout: Bits5, size: nat, source: Matrix, r: nat)
    requires HasShape(source, nin, size) && r < nin + nout
    ensures var p := Encode(draw, batchId, nin, nout, size, source)[r];
            p.hdr == Header(0, batchId, r, nin, nout) && |p.payload| == size && (r < nin ==> p.payload == source[r])
  {
    hide Combination;
    if r < nin { SystematicRow(draw, batchId, nin, nout, size, source, r); }
  }

  /** Byte k of parity packet j is the sum of the bytes k of all source packets i, each times draw
      i * nout + j of the batch. */
  lemma ParityBytes(draw: Draws, batchId: nat, nin: nat, nout: nat, size: nat, source: Matrix, j: nat, k: nat)
    requires HasShape(source, nin, size) && j < nout && k < size
    ensures var p := Encode(draw, batchId, nin, nout, size, source)[nin + j];
            |p.payload| == size && p.payload[k]
            == Sum(nin, (i: nat) => if i < nin then Mul(draw(batchId, i * nout + j), source[i][k]) else 0)
  {
    hide Mul, Add;
    var row := GeneratorRow(draw, batchId, nin, nout, nin + j);
    var f := (i: nat) => if i < nin then Mul(draw(batchId, i * nout + j), source[i][k]) else 0;
    forall i: nat | i < nin
      ensures Terms(row, Column(source, k))(i) == f(i)
    {
      ColumnTerm(row, source, i, k);
    }
    SumEqual(nin, Terms(row, Column(source, k)), f);
  }

  // ----- decoding -----

  /** Row r of the coefficient table after decode has refilled it: the generator row, or what an
      earlier call left there. */
  function TableRow(draw: Draws, hdr: Header, left: Matrix, r: nat): Vector {
    if r < hdr.nin + hdr.nout then GeneratorRow(draw, hdr.batchId, hdr.nin, hdr.nout, r)
    else if r < |left| then left[r] else []
  }

  /** The coefficient matrix of the packets; the first packet's header says how to regenerate it. */
  function CoefficientMatrix(draw: Draws, left: Matrix, pkts: seq<Packet>): (a: Matrix)
    requires pkts != []
    ensures |a| == |pkts|
  {
    seq(|pkts|, k requires 0 <= k < |pkts| => TableRow(draw, pkts[0].hdr, left, pkts[k].hdr.coefId))
  }

  function Payloads(pkts: seq<Packet>): (y: Matrix)
    ensures |y| == |pkts| && forall k :: 0 <= k < |pkts| ==> y[k] == pkts[k].payload
  {
    seq(|pkts|, k requires 0 <= k < |pkts| => pkts[k].payload)
  }

  function CoefIds(pkts: seq<Packet>): (ids: seq<nat>)
    ensures |ids| == |pkts| && forall k :: 0 <= k < |pkts| ==> ids[k] == pkts[k].hdr.coefId
  {
    seq(|pkts|, k requires 0 <= k < |pkts| => pkts[k].hdr.coefId)
  }

  /** A coefficient table as earlier calls leave it. */
  predicate Leftovers(left: Matrix, nin: nat) {
    64 <= |left| && HasShape(left, |left|, nin)
  }

  /** The coefficient table after decode has refilled it. */
  function Table(draw: Draws, hdr: Header, left: Matrix): (g: Matrix)
    requires Leftovers(left, hdr.nin)
    ensures HasShape(g, |left|, hdr.nin)
  {
    seq(|left|, (r: nat) => TableRow(draw, hdr, left, r))
  }

  /** What the table holds: unit rows for the source packets, draw i * nout + j of the batch as
      coefficient i of parity packet j, and leftovers below. */
  lemma TableEntries(draw: Draws, hdr: Header, left: Matrix)
    requires Leftovers(left, hdr.nin)
    ensures var g := Table(draw, hdr, left);
            (forall r, i :: 0 <= r < hdr.nin && 0 <= i < hdr.nin ==> g[r][i] == if r == i then 1 else 0) &&
            (forall r, i :: hdr.nin <= r < hdr.nin + hdr.nout && 0 <= i < hdr.nin ==>
               g[r][i] == draw(hdr.batchId, i * hdr.nout + (r - hdr.nin))) &&
            forall r :: hdr.nin + hdr.nout <= r < |left| ==> g[r] == left[r]
  {
  }

  predicate WellFormed(left: Matrix, pkts: seq<Packet>, size: nat) {
    pkts != [] && Leftovers(left, pkts[0].hdr.nin) && forall k :: 0 <= k < |pkts| ==> |pkts[k].payload| == size
  }

  /** The tables that decode sets up: every packet points at the row of its coefficient id, so
      packets with the same id share a row. */
  function Attached(draw: Draws, left: Matrix, pkts: seq<Packet>): (t: Tables)
    requires pkts != [] && Leftovers(left, pkts[0].hdr.nin)
    ensures t.Valid(pkts[0].hdr.nin) && t.ptr == CoefIds(pkts)
  {
    Tables(Table(draw, pkts[0].hdr, left), CoefIds(pkts), Identity(|pkts|))
  }

  /** The decoded source packets, if every column of the coefficient matrix gets a pivot. */
  function Decode(draw: Draws, left: Matrix, pkts: seq<Packet>, size: nat): (r: Option<Matrix>)
    requires WellFormed(left, pkts, size)
  {
    var n: nat := pkts[0].hdr.nin;
    var (rank, t) := EliminateShared(Attached(draw, left, pkts), 0, n);
    if rank == n then Some(Solution(t.inv, Payloads(pkts), n, size)) else None
  }

  /** A batch of more source packets than the header can count decodes, if at all, to fewer. */
  lemma WideBatchLosesPackets(draw: Draws, left: Matrix, pkts: seq<Packet>, batchId: nat, nin: nat, nout: nat, size: nat, source: Matrix)
    requires HasShape(source, nin, size) && nin >= 32 && WellFormed(left, pkts, size)
    requires forall k :: 0 <= k < |pkts| ==> pkts[k] in Encode(draw, batchId, nin, nout, size, source)
    ensures var x := Decode(draw, left, pkts, size);
            x.Some? ==> |x.value| == nin % 32 < nin
  {
    hide Combination, GeneratorRow, Attached, EliminateShared;
    assert pkts[0] in Encode(draw, batchId, nin, nout, size, source);
    assert pkts[0].hdr.nin == nin % 32;
  }

  /** A batch whose number of source packets is a multiple of 32: its packets say nin == 0, and the
      first one that arrives decodes to nothing. */
  lemma WideBatchDecodesToNothing(draw: Draws, left: Matrix, batchId: nat, nin: nat, nout: nat, size: nat, source: Matrix, r: nat)
    requires HasShape(source, nin, size) && nin % 32 == 0 && r < nin + nout
    requires WellFormed(left, [Encode(draw, batchId, nin, nout, size, source)[r]], size)
    ensures Decode(draw, left, [Encode(draw, batchId, nin, nout, size, source)[r]], size) == Some([])
  {
    hide Combination, GeneratorRow, Attached;
    var pkts := [Encode(draw, batchId, nin, nout, size, source)[r]];
    assert pkts[0].hdr.nin == 0;
    assert EliminateShared(Attached(draw, left, pkts), 0, 0).0 == 0;
  }

  // ----- packets of one batch -----

  /** What one encoding run is given. */
  datatype Batch = Batch(batchId: Word, nin: Bits5, nout: Bits5, size: nat, source: Matrix) {
    predicate Valid() { HasShape(source, nin, size) }

    function Row(draw: Draws, r: nat): Vector { GeneratorRow(draw, batchId, nin, nout, r) }
  }

  /** The packet carries a coefficient id of the batch and the payload that belongs to it. */
  predicate IsPacketOf(draw: Draws, pkt: Packet, b: Batch) {
    pkt.hdr.batchId == b.batchId && pkt.hdr.nin == b.nin && pkt.hdr.nout == b.nout &&
    pkt.hdr.coefId < b.nin + b.nout &&
    pkt.payload == Combination(b.Row(draw, pkt.hdr.coefId), b.source, b.size)
  }

  predicate AllPacketsOf(draw: Draws, pkts: seq<Packet>, b: Batch) {
    forall k :: 0 <= k < |pkts| ==> IsPacketOf(draw, pkts[k], b)
  }

  lemma EncodedPacketsBelong(draw: Draws, b: Batch, r: nat)
    requires b.Valid() && r < b.nin + b.nout
    ensures IsPacketOf(draw, Encode(draw, b.batchId, b.nin, b.nout, b.size, b.source)[r], b)
  {
    hide Combination, MakeHeader;
    HeaderKeepsValues(b.batchId, r, b.nin, b.nout);
  }

  /** The first nin rows of the generator matrix copy the source packets. */
  lemma SystematicRow(draw: Draws, seed: nat, nin: nat, nout: nat, size: nat, source: Matrix, r: nat)
    requires HasShape(source, nin, size) && r < nin
    ensures Combination(GeneratorRow(draw, seed, nin, nout, r), source, size) == source[r]
  {
    hide Dot;
    var row := GeneratorRow(draw, seed, nin, nout, r);
    forall j: nat | j < size
      ensures Combination(row, source, size)[j] == source[r][j]
    {
      DotUnit(row, r, Column(source, j));
    }
  }

  predicate HasCoef(pkts: seq<Packet>, r: nat) {
    exists k :: 0 <= k < |pkts| && pkts[k].hdr.coefId == r
  }

  lemma BatchCoefficients(draw: Draws, left: Matrix, pkts: seq<Packet>, b: Batch)
    requires b.Valid() && pkts != [] && AllPacketsOf(draw, pkts, b)
    ensures HasShape(CoefficientMatrix(draw, left, pkts), |pkts|, b.nin)
    ensures forall k :: 0 <= k < |pkts| ==>
              CoefficientMatrix(draw, left, pkts)[k] == b.Row(draw, pkts[k].hdr.coefId)
  {
    hide Combination;
    assert IsPacketOf(draw, pkts[0], b);
    forall k | 0 <= k < |pkts|
      ensures TableRow(draw, pkts[0].hdr, left, pkts[k].hdr.coefId) == b.Row(draw, pkts[k].hdr.coefId)
    {
      assert IsPacketOf(draw, pkts[k], b);
    }
  }

  // ----- main results -----

  /** Decoding needs nothing but the received packets: leftovers of earlier calls do not matter. */
  lemma DecodeIgnoresLeftovers(draw: Draws, left: Matrix, left': Matrix, pkts: seq<Packet>, size: nat)
    requires WellFormed(left, pkts, size) && WellFormed(left', pkts, size)
    requires forall k :: 0 <= k < |pkts| ==> pkts[k].hdr.coefId < pkts[0].hdr.nin + pkts[0].hdr.nout
    ensures Decode(draw, left, pkts, size) == Decode(draw, left', pkts, size)
  {
    hide EliminateShared, Solution, GeneratorRow;
    EliminateAlike(Attached(draw, left, pkts), Attached(draw, left', pkts), 0, pkts[0].hdr.nin);
  }

  /** With different coefficient ids no row is shared, and decoding is elimination of the
      coefficient matrix. */
  lemma DecodeDifferent(draw: Draws, left: Matrix, pkts: seq<Packet>, size: nat)
    requires WellFormed(left, pkts, size) && Different(CoefIds(pkts))
    requires HasShape(CoefficientMatrix(draw, left, pkts), |pkts|, pkts[0].hdr.nin)
    ensures var n: nat := pkts[0].hdr.nin;
            var e := Eliminate(CoefficientMatrix(draw, left, pkts), n);
            Decode(draw, left, pkts, size) == if e.rank == n then Some(Solution(e.inv, Payloads(pkts), n, size)) else None
  {
    hide EliminateShared, EliminateFrom, Solution, Different, TableRow;
    var t := Attached(draw, left, pkts);
    assert t.Shown(pkts[0].hdr.nin) == CoefficientMatrix(draw, left, pkts);
    NoUnitColumns(t.Shown(pkts[0].hdr.nin));
    DistinctIsEliminate(t, 0, pkts[0].hdr.nin);
  }

  /** If elimination recovers every column of the source, decoding returns the source. */
  lemma RecoveredIsDecoded(draw: Draws, left: Matrix, pkts: seq<Packet>, b: Batch)
    requires b.Valid() && AllPacketsOf(draw, pkts, b) && WellFormed(left, pkts, b.size) && pkts[0].hdr.nin == b.nin
    requires var t := Attached(draw, left, pkts);
             forall j: nat :: j < b.size ==> Recovers(t.store, t.ptr, b.nin, Column(b.source, j))
    ensures Decode(draw, left, pkts, b.size).Some? ==> Decode(draw, left, pkts, b.size).value == b.source
  {
    hide Dot, EliminateShared, GeneratorRow;
    var t0, y, n: nat := Attached(draw, left, pkts), Payloads(pkts), b.nin;
    var (rank, t) := EliminateShared(t0, 0, n);
    if rank == n {
      var x := Solution(t.inv, y, n, b.size);
      forall i: nat, j: nat | i < n && j < b.size
        ensures x[i][j] == b.source[i][j]
      {
        var right := RightHand(t0.store, t0.ptr, Column(b.source, j));
        assert Recovers(t0.store, t0.ptr, n, Column(b.source, j));
        assert Dot(t.inv[i], right) == Column(b.source, j)(i);
        forall k: nat | k < |pkts|
          ensures Column(y, j)(k) == right(k)
        {
          PayloadIsRight(draw, left, pkts, b, k, j);
        }
        DotEqual(t.inv[i], Column(y, j), right);
        assert x[i][j] == Dot(t.inv[i], Column(y, j));
      }
      forall i: nat | i < n ensures x[i] == b.source[i] {}
    }
  }

  /** A payload entry is the product of the packet's table row with a column of the source. */
  lemma PayloadIsRight(draw: Draws, left: Matrix, pkts: seq<Packet>, b: Batch, k: nat, j: nat)
    requires b.Valid() && AllPacketsOf(draw, pkts, b) && WellFormed(left, pkts, b.size) && k < |pkts| && j < b.size
    ensures var t := Attached(draw, left, pkts);
            Column(Payloads(pkts), j)(k) == RightHand(t.store, t.ptr, Column(b.source, j))(k)
  {
    hide Dot, GeneratorRow;
    assert IsPacketOf(draw, pkts[0], b) && IsPacketOf(draw, pkts[k], b);
  }

  /** Whatever packets of a batch arrive, in whatever order: if their coefficient ids differ, a
      successful decode returns the source. */
  lemma RoundTrip(draw: Draws, left: Matrix, pkts: seq<Packet>, b: Batch)
    requires b.Valid() && AllPacketsOf(draw, pkts, b) && WellFormed(left, pkts, b.size)
    requires Different(CoefIds(pkts))
    ensures Decode(draw, left, pkts, b.size).Some? ==> Decode(draw, left, pkts, b.size).value == b.source
  {
    hide Decode, IsPacketOf, Different, Recovers, Table;
    FirstHeader(draw, pkts, b);
    var t := Attached(draw, left, pkts);
    forall j: nat | j < b.size
      ensures Recovers(t.store, t.ptr, b.nin, Column(b.source, j))
    {
      DifferentRecovers(t.store, t.ptr, b.nin, Column(b.source, j));
    }
    RecoveredIsDecoded(draw, left, pkts, b);
  }

  lemma FirstHeader(draw: Draws, pkts: seq<Packet>, b: Batch)
    requires AllPacketsOf(draw, pkts, b) && pkts != []
    ensures pkts[0].hdr.nin == b.nin && pkts[0].hdr.nout == b.nout && pkts[0].hdr.batchId == b.batchId
  {
    assert IsPacketOf(draw, pkts[0], b);
  }

  /** Decoding succeeds exactly if only the zero vector is sent to zero by the received rows. */
  lemma DecodesIffTrivialKernel(draw: Draws, left: Matrix, pkts: seq<Packet>, b: Batch)
    requires b.Valid() && AllPacketsOf(draw, pkts, b) && WellFormed(left, pkts, b.size)
    requires Different(CoefIds(pkts))
    ensures Decode(draw, left, pkts, b.size).Some? <==> TrivialKernel(CoefficientMatrix(draw, left, pkts), b.nin)
  {
    hide Eliminate, TrivialKernel, Solution, Decode, Different;
    BatchCoefficients(draw, left, pkts, b);
    FirstHeader(draw, pkts, b);
    DecodeDifferent(draw, left, pkts, b.size);
    FullRankIffTrivialKernel(CoefficientMatrix(draw, left, pkts), b.nin);
  }

  /** Packets with the first byte of source packet i increased by x(i). */
  function Shifted(source: Matrix, x: nat -> Byte, n: nat, size: nat): Matrix
    requires HasShape(source, n, size)
  {
    seq(n, i requires 0 <= i < n =>
      seq(size, j requires 0 <= j < size => if j == 0 then Add(source[i][j], x(i)) else source[i][j]))
  }

  lemma DotAddRight(v: Vector, x: nat -> Byte, y: nat -> Byte, z: nat -> Byte)
    requires forall k: nat :: k < |v| ==> z(k) == Add(x(k), y(k))
    ensures Dot(v, z) == Add(Dot(v, x), Dot(v, y))
  {
    hide Add, Mul;
    forall k: nat | k < |v|
      ensures Terms(v, z)(k) == Add(Terms(v, x)(k), Terms(v, y)(k))
    {
      MulAddRight(v[k], x(k), y(k));
    }
    SumAdd(|v|, Terms(v, x), Terms(v, y), Terms(v, z));
  }

  /** A shift along the kernel leaves every received payload as it is. */
  lemma ShiftedLooksTheSame(draw: Draws, pkt: Packet, b: Batch, x: nat -> Byte)
    requires b.Valid() && IsPacketOf(draw, pkt, b)
    requires Dot(b.Row(draw, pkt.hdr.coefId), x) == 0
    ensures IsPacketOf(draw, pkt, b.(source := Shifted(b.source, x, b.nin, b.size)))
  {
    hide Dot, Add, GeneratorRow;
    var row := b.Row(draw, pkt.hdr.coefId);
    var other := Shifted(b.source, x, b.nin, b.size);
    forall j: nat | j < b.size
      ensures Dot(row, Column(b.source, j)) == Dot(row, Column(other, j))
    {
      if j == 0 {
        DotAddRight(row, Column(b.source, 0), x, Column(other, 0));
        AddZeroSelf(Dot(row, Column(b.source, 0)));
      } else {
        DotEqual(row, Column(b.source, j), Column(other, j));
      }
    }
  }

  /** Decoding fails exactly if the packets do not determine the source: another source of the same
      shape would have given the very same packets. */
  lemma FailsIffAmbiguous(draw: Draws, left: Matrix, pkts: seq<Packet>, b: Batch)
    requires b.Valid() && AllPacketsOf(draw, pkts, b) && WellFormed(left, pkts, b.size) && b.size > 0
    requires Different(CoefIds(pkts))
    ensures Decode(draw, left, pkts, b.size).None? <==>
            exists other: Matrix :: other != b.source && b.(source := other).Valid() &&
              AllPacketsOf(draw, pkts, b.(source := other))
  {
    hide Dot, Decode, GeneratorRow, Combination, Shifted;
    var a := CoefficientMatrix(draw, left, pkts);
    BatchCoefficients(draw, left, pkts, b);
    DecodesIffTrivialKernel(draw, left, pkts, b);
    if Decode(draw, left, pkts, b.size).None? {
      var x: nat -> Byte :| InKernel(a, x) && !(forall k: nat :: k < b.nin ==> x(k) == 0);
      var i: nat :| i < b.nin && x(i) != 0;
      var other := Shifted(b.source, x, b.nin, b.size);
      ShiftedDiffers(b, x, i);
      forall k | 0 <= k < |pkts|
        ensures IsPacketOf(draw, pkts[k], b.(source := other))
      {
        assert IsPacketOf(draw, pkts[k], b) && Dot(a[k], x) == 0;
        ShiftedLooksTheSame(draw, pkts[k], b, x);
      }
      assert AllPacketsOf(draw, pkts, b.(source := other));
    } else {
      RoundTrip(draw, left, pkts, b);
      forall other: Matrix | b.(source := other).Valid() && AllPacketsOf(draw, pkts, b.(source := other))
        ensures other == b.source
      {
        RoundTrip(draw, left, pkts, b.(source := other));
      }
    }
  }

  lemma ShiftedDiffers(b: Batch, x: nat -> Byte, i: nat)
    requires b.Valid() && b.size > 0 && i < b.nin && x(i) != 0
    ensures Shifted(b.source, x, b.nin, b.size) != b.source
    ensures b.(source := Shifted(b.source, x, b.nin, b.size)).Valid()
  {
    var other := Shifted(b.source, x, b.nin, b.size);
    assert other[i][0] == Add(b.source[i][0], x(i));
  }

  /** Packets with fewer different coefficient ids than unknowns never decode. */
  lemma TooFewPackets(draw: Draws, left: Matrix, pkts: seq<Packet>, size: nat)
    requires WellFormed(left, pkts, size) && |IdSet(CoefIds(pkts))| < pkts[0].hdr.nin
    ensures Decode(draw, left, pkts, size).None?
  {
    hide EliminateShared, Solution;
    RankAtMostDifferent(Attached(draw, left, pkts), pkts[0].hdr.nin);
  }

  /** The nin systematic packets decode, in every order and among any others with different ids. */
  lemma SystematicPacketsDecode(draw: Draws, left: Matrix, pkts: seq<Packet>, b: Batch)
    requires b.Valid() && AllPacketsOf(draw, pkts, b) && WellFormed(left, pkts, b.size)
    requires Different(CoefIds(pkts)) && forall r: nat :: r < b.nin ==> HasCoef(pkts, r)
    ensures Decode(draw, left, pkts, b.size) == Some(b.source)
  {
    hide Dot, Decode, Combination;
    var a := CoefficientMatrix(draw, left, pkts);
    BatchCoefficients(draw, left, pkts, b);
    forall x: nat -> Byte, r: nat | InKernel(a, x) && r < b.nin
      ensures x(r) == 0
    {
      assert HasCoef(pkts, r);
      var k :| 0 <= k < |pkts| && pkts[k].hdr.coefId == r;
      DotUnit(a[k], r, x);
      assert Dot(a[k], x) == 0;
    }
    DecodesIffTrivialKernel(draw, left, pkts, b);
    RoundTrip(draw, left, pkts, b);
  }

  /** More packets never hurt: what decodes keeps decoding when others are added, in any order. */
  lemma MorePacketsStillDecode(draw: Draws, left: Matrix, pkts: seq<Packet>, more: seq<Packet>, b: Batch)
    requires b.Valid() && WellFormed(left, pkts, b.size) && WellFormed(left, more, b.size)
    requires AllPacketsOf(draw, pkts, b) && AllPacketsOf(draw, more, b)
    requires Different(CoefIds(pkts)) && Different(CoefIds(more))
    requires forall k :: 0 <= k < |pkts| ==> HasCoef(more, pkts[k].hdr.coefId)
    requires Decode(draw, left, pkts, b.size).Some?
    ensures Decode(draw, left, more, b.size) == Some(b.source)
  {
    hide Dot, Decode, Combination, GeneratorRow;
    var a, a' := CoefficientMatrix(draw, left, pkts), CoefficientMatrix(draw, left, more);
    BatchCoefficients(draw, left, pkts, b);
    BatchCoefficients(draw, left, more, b);
    DecodesIffTrivialKernel(draw, left, pkts, b);
    forall x: nat -> Byte | InKernel(a', x)
      ensures InKernel(a, x)
    {
      forall k | 0 <= k < |a|
        ensures Dot(a[k], x) == 0
      {
        var l :| 0 <= l < |more| && more[l].hdr.coefId == pkts[k].hdr.coefId;
        assert Dot(a'[l], x) == 0;
      }
    }
    DecodesIffTrivialKernel(draw, left, more, b);
    RoundTrip(draw, left, more, b);
  }
}
