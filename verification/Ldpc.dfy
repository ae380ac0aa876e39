/**
 The coder object: encoding into packet buffers, and decoding with the tables G, A and Y, whose
 rows are refilled and reduced in place. Both methods are proved equal to the functions of
 module ErasureCode.
 */
module Ldpc {
  import opened GaloisField
  import opened LinearAlgebra
  import opened FiniteField
  import opened SharedRows
  import opened ErasureCode

  const MAX_CODING_SIZE: nat := 100

  /** A pseudo-random generator: its bytes are a function of the seed and the number of the draw. */
  class RandGenerator {
    const draw: Draws
    var seed: nat
    var count: nat

    constructor (draw: Draws)
      ensures this.draw == draw
    {
      this.draw := draw;
      seed, count := 0, 0;
    }

    method Seed(s: nat)
      modifies this
      ensures seed == s && count == 0
    {
      seed, count := s, 0;
    }

    method RandInt() returns (c: Byte)
      modifies this
      ensures c == draw(seed, old(count)) && seed == old(seed) && count == old(count) + 1
    {
      c := draw(seed, count);
      count := count + 1;
    }
  }

  /** A packet buffer: the header followed by the payload bytes. */
  class Buffer {
    var hdr: Header
    const payload: array<Byte>

    constructor (size: nat)
      ensures payload.Length == size && fresh(payload)
    {
      hdr := Header(0, 0, 0, 0, 0);
      payload := new Byte[size](_ => 0);
    }

    ghost function Contents(size: nat): Packet
      requires size <= payload.Length
      reads this, payload
    {
      Packet(hdr, payload[..size])
    }
  }

  function PayloadArrays(p: seq<Buffer>): (a: seq<array<Byte>>)
    ensures |a| == |p| && forall k :: 0 <= k < |p| ==> a[k] == p[k].payload
  {
    seq(|p|, k requires 0 <= k < |p| => p[k].payload)
  }

  ghost function Packets(p: seq<Buffer>, size: nat): (s: seq<Packet>)
    requires forall k :: 0 <= k < |p| ==> size <= p[k].payload.Length
    reads p, PayloadArrays(p)
    ensures |s| == |p| && forall k :: 0 <= k < |p| ==> s[k] == p[k].Contents(size)
  {
    seq(|p|, k requires 0 <= k < |p| reads p, PayloadArrays(p) =>
      assert p[k].payload == PayloadArrays(p)[k]; p[k].Contents(size))
  }

  /** Buffers that are long enough and do not share memory. */
  ghost predicate SeparateBuffers(p: seq<Buffer>, size: nat) {
    Separate(PayloadArrays(p), size) && forall k, l :: 0 <= k < l < |p| ==> p[k] != p[l]
  }

  method ZeroFill(a: array<Byte>, n: nat)
    requires n <= a.Length
    modifies a
    ensures a[..] == seq(n, _ => 0) + old(a[n..])
  {
    for i := 0 to n
      invariant forall k :: 0 <= k < i ==> a[k] == 0
      invariant forall k :: i <= k < a.Length ==> a[k] == old(a[k])
    {
      a[i] := 0;
    }
  }

  method CopyBytes(to: array<Byte>, from: array<Byte>, n: nat)
    requires n <= to.Length && n <= from.Length && to != from
    modifies to
    ensures to[..] == from[..n] + old(to[n..])
  {
    for i := 0 to n
      invariant forall k :: 0 <= k < i ==> to[k] == from[k]
      invariant forall k :: i <= k < to.Length ==> to[k] == old(to[k])
    {
      to[i] := from[i];
    }
  }

  lemma PartialNone(y: Vector, m: Matrix, width: nat)
    ensures Partial(y, m, width, 0) == seq(width, _ => 0)
  {
  }

  function ParityRow(draw: Draws, seed: nat, nin: nat, nout: nat, j: nat): Vector {
    GeneratorRow(draw, seed, nin, nout, nin + j)
  }

  /** Every parity packet holds the contribution of the first i source packets. */
  ghost predicate ParityHolds(draw: Draws, seed: nat, src: Matrix, parity: seq<array<Byte>>, size: nat, i: nat)
    requires Separate(parity, size)
    reads parity
  {
    forall j :: 0 <= j < |parity| ==>
      parity[j][..size] == Partial(ParityRow(draw, seed, |src|, |parity|, j), src, size, i)
  }

  /** Adds the next draws times source packet i to the parity packets. */
  method MixPacket(rand: RandGenerator, x: array<Byte>, parity: seq<array<Byte>>, size: nat, i: nat, ghost src: Matrix)
    requires HasShape(src, |src|, size) && i < |src| && size <= x.Length && x[..size] == src[i]
    requires rand.count == i * |parity| && Separate(parity, size) && x !in parity
    requires ParityHolds(rand.draw, rand.seed, src, parity, size, i)
    modifies rand, parity
    ensures rand.seed == old(rand.seed) && rand.count == (i + 1) * |parity|
    ensures ParityHolds(rand.draw, rand.seed, src, parity, size, i + 1)
  {
    hide Add, Mul, Partial, AddScaled;
    ghost var seed, nin, nout := rand.seed, |src|, |parity|;
    for j := 0 to |parity|
      invariant rand.seed == seed && rand.count == i * nout + j
      invariant forall l :: 0 <= l < nout ==>
        parity[l][..size] == Partial(ParityRow(rand.draw, seed, nin, nout, l), src, size, if l < j then i + 1 else i)
    {
      var c := rand.RandInt();
      ghost var row := ParityRow(rand.draw, seed, nin, nout, j);
      assert c == row[i];
      PartialNext(row, src, size, i);
      AddMulVec(parity[j], x, c, size);
      assert parity[j][..size] == Partial(row, src, size, i + 1);
    }
  }

  /** Adds draw (i, j) times source packet i to parity packet j, for all i and then all j. */
  method MixParity(rand: RandGenerator, input: seq<array<Byte>>, parity: seq<array<Byte>>, size: nat)
    requires rand.count == 0 && Separate(parity, size)
    requires (forall k :: 0 <= k < |input| ==> size <= input[k].Length) && Disjoint(input, parity)
    requires forall j :: 0 <= j < |parity| ==> parity[j][..size] == seq(size, _ => 0)
    modifies rand, parity
    ensures ParityHolds(rand.draw, old(rand.seed), old(Rows(input, size)), parity, size, |input|)
  {
    hide Add, Mul, Partial, GeneratorRow;
    ghost var src := Rows(input, size);
    forall j | 0 <= j < |parity|
      ensures parity[j][..size] == Partial(ParityRow(rand.draw, rand.seed, |src|, |parity|, j), src, size, 0)
    {
      PartialNone(ParityRow(rand.draw, rand.seed, |src|, |parity|, j), src, size);
    }
    for i := 0 to |input|
      invariant rand.seed == old(rand.seed) && rand.count == i * |parity|
      invariant ParityHolds(rand.draw, rand.seed, src, parity, size, i)
    {
      assert input[i][..size] == src[i];
      MixPacket(rand, input[i], parity, size, i, src);
    }
  }

  /** Writes the headers and clears the payloads of all packets of a batch. */
  method InitPackets(out: seq<Buffer>, batchId: nat, size: nat, nin: nat, nout: nat)
    requires SeparateBuffers(out, size) && |out| == nin + nout
    modifies out, PayloadArrays(out)
    ensures forall k :: 0 <= k < |out| ==>
      out[k].hdr == MakeHeader(batchId, k, nin, nout) && out[k].payload[..size] == seq(size, _ => 0)
  {
    for j := 0 to |out|
      invariant forall k :: 0 <= k < j ==>
        out[k].hdr == MakeHeader(batchId, k, nin, nout) && out[k].payload[..size] == seq(size, _ => 0)
    {
      assert out[j].payload == PayloadArrays(out)[j];
      ZeroFill(out[j].payload, size);
      out[j].hdr := MakeHeader(batchId, j, nin, nout);
      assert forall k :: 0 <= k < j ==> out[k].payload == PayloadArrays(out)[k] != out[j].payload;
    }
  }

  /** Copies the source packets into the first packets of the batch. */
  method CopySource(input: seq<array<Byte>>, p: seq<array<Byte>>, size: nat)
    requires |input| <= |p| && Separate(p, size)
    requires (forall k :: 0 <= k < |input| ==> size <= input[k].Length) && Disjoint(input, p)
    modifies p
    ensures forall k :: 0 <= k < |p| ==>
      p[k][..size] == if k < |input| then old(input[k][..size]) else old(p[k][..size])
  {
    for i := 0 to |input|
      invariant forall k :: 0 <= k < |p| ==>
        p[k][..size] == if k < i then old(input[k][..size]) else old(p[k][..size])
    {
      CopyBytes(p[i], input[i], size);
    }
  }

  /** Turns cleared payloads into the payloads of a batch. */
  method FillPayloads(rand: RandGenerator, input: seq<array<Byte>>, p: seq<array<Byte>>, size: nat)
    requires |input| <= |p| && Separate(p, size) && rand.count == 0
    requires (forall k :: 0 <= k < |input| ==> size <= input[k].Length) && Disjoint(input, p)
    requires forall k :: 0 <= k < |p| ==> p[k][..size] == seq(size, _ => 0)
    modifies rand, p
    ensures var src, seed := old(Rows(input, size)), old(rand.seed);
            forall r :: 0 <= r < |p| ==>
              p[r][..size] == Combination(GeneratorRow(rand.draw, seed, |input|, |p| - |input|, r), src, size)
  {
    hide Partial, GeneratorRow, Combination;
    ghost var src, seed := Rows(input, size), rand.seed;
    CopySource(input, p, size);
    assert Rows(input, size) == src;
    var parity := p[|input|..];
    MixParity(rand, input, parity, size);
    forall r | 0 <= r < |p|
      ensures p[r][..size] == Combination(GeneratorRow(rand.draw, seed, |input|, |p| - |input|, r), src, size)
    {
      if r < |input| {
        SystematicRow(rand.draw, seed, |input|, |p| - |input|, size, src, r);
      } else {
        assert parity[r - |input|] == p[r];
        PartialAll(ParityRow(rand.draw, seed, |input|, |parity|, r - |input|), src, size);
      }
    }
  }

  /** The rows of the table that stand for copied packets become unit rows. */
  method FillSystematic(g: seq<array<Byte>>, nin: nat)
    requires nin <= |g| && Separate(g, nin)
    modifies g
    ensures forall r: nat :: r < |g| ==>
      g[r][..nin] == if r < nin then seq(nin, (c: nat) => Delta(r, c)) else old(g[r][..nin])
  {
    for i := 0 to nin
      invariant forall r: nat :: r < |g| ==>
        g[r][..nin] == if r < i then seq(nin, (c: nat) => Delta(r, c)) else old(g[r][..nin])
    {
      ZeroFill(g[i], nin);
      g[i][i] := 1;
      assert g[i][..nin] == seq(nin, (c: nat) => Delta(i, c));
    }
  }

  /** Row r of the table when columns before i are filled, and column i down to parity row j. */
  function FillingRow(full: Vector, left: Vector, i: nat): Vector
    requires |full| == |left| && i <= |full|
  {
    full[..i] + left[i..]
  }

  /** Draws the coefficients of the parity rows, column by column. */
  method FillParity(rand: RandGenerator, g: seq<array<Byte>>, nin: nat)
    requires Separate(g, nin) && rand.count == 0
    modifies rand, g
    ensures forall j :: 0 <= j < |g| ==> g[j][..nin] == ParityRow(rand.draw, old(rand.seed), nin, |g|, j)
    ensures DrawnByColumn(rand.draw, old(rand.seed), g, nin)
  {
    hide GeneratorRow, DrawnByColumn;
    ghost var left, seed, nout := Rows(g, nin), rand.seed, |g|;
    for i := 0 to nin
      invariant rand.seed == seed && rand.count == i * nout
      invariant forall j :: 0 <= j < nout ==>
        g[j][..nin] == FillingRow(ParityRow(rand.draw, seed, nin, nout, j), left[j], i)
    {
      FillParityColumn(rand, g, nin, i, left);
    }
    ParityIsDrawn(rand.draw, seed, g, nin);
  }

  /** Coefficient i of parity packet j is draw i * |g| + j. */
  ghost predicate DrawnByColumn(draw: Draws, seed: nat, g: seq<array<Byte>>, nin: nat)
    requires Separate(g, nin)
    reads g
  {
    forall j, i :: 0 <= j < |g| && 0 <= i < nin ==> g[j][i] == draw(seed, i * |g| + j)
  }

  lemma ParityIsDrawn(draw: Draws, seed: nat, g: seq<array<Byte>>, nin: nat)
    requires Separate(g, nin) && forall j :: 0 <= j < |g| ==> g[j][..nin] == ParityRow(draw, seed, nin, |g|, j)
    ensures DrawnByColumn(draw, seed, g, nin)
  {
    forall j, i | 0 <= j < |g| && 0 <= i < nin
      ensures g[j][i] == draw(seed, i * |g| + j)
    {
      assert g[j][i] == g[j][..nin][i];
    }
  }

  method FillParityColumn(rand: RandGenerator, g: seq<array<Byte>>, nin: nat, i: nat, ghost left: Matrix)
    requires Separate(g, nin) && rand.count == i * |g| && i < nin && HasShape(left, |g|, nin)
    requires forall j :: 0 <= j < |g| ==>
      g[j][..nin] == FillingRow(ParityRow(rand.draw, rand.seed, nin, |g|, j), left[j], i)
    modifies rand, g
    ensures rand.seed == old(rand.seed) && rand.count == (i + 1) * |g|
    ensures forall j :: 0 <= j < |g| ==>
      g[j][..nin] == FillingRow(ParityRow(rand.draw, rand.seed, nin, |g|, j), left[j], i + 1)
  {
    ghost var seed, nout := rand.seed, |g|;
    for j := 0 to |g|
      invariant rand.seed == seed && rand.count == i * nout + j
      invariant forall l :: 0 <= l < nout ==>
        g[l][..nin] == FillingRow(ParityRow(rand.draw, seed, nin, nout, l), left[l], if l < j then i + 1 else i)
    {
      var c := rand.RandInt();
      assert c == ParityRow(rand.draw, seed, nin, nout, j)[i];
      g[j][i] := c;
      assert g[j][..nin] == FillingRow(ParityRow(rand.draw, seed, nin, nout, j), left[j], i + 1);
    }
  }

  /** The coder: coefficient table, row tables for the solver, and the generator. */
  class Coder {
    const psrand: RandGenerator
    const G: seq<array<Byte>>
    var A: seq<array<Byte>>
    var Y: seq<array<Byte>>

    ghost predicate Valid() {
      |G| == MAX_CODING_SIZE && Separate(G, MAX_CODING_SIZE)
    }

    constructor (draw: Draws)
      ensures Valid() && psrand.draw == draw && fresh(psrand)
      ensures forall k :: 0 <= k < |G| ==> fresh(G[k])
    {
      var rand := new RandGenerator(draw);
      var g := NewMat(MAX_CODING_SIZE, MAX_CODING_SIZE);
      psrand := rand;
      G := g;
      A := [];
      Y := [];
    }

    /** Fills the buffers with the packets of a batch. */
    method Encode(input: seq<array<Byte>>, out: seq<Buffer>, batchId: nat, size: nat, nin: nat, nout: nat)
      requires nin == |input| && nin + nout == |out| && SeparateBuffers(out, size)
      requires forall k :: 0 <= k < nin ==> size <= input[k].Length
      requires Disjoint(input, PayloadArrays(out))
      modifies psrand, out, PayloadArrays(out)
      ensures Packets(out, size)
           == ErasureCode.Encode(psrand.draw, batchId, nin, nout, size, old(Rows(input, size)))
    {
      hide GeneratorRow, Combination;
      ghost var src := Rows(input, size);
      var p := PayloadArrays(out);
      psrand.Seed(batchId);
      InitPackets(out, batchId, size, nin, nout);
      assert forall k :: 0 <= k < |out| ==> p[k][..size] == out[k].payload[..size];
      assert Rows(input, size) == src;
      FillPayloads(psrand, input, p, size);
      assert forall k :: 0 <= k < |out| ==> p[k][..size] == out[k].payload[..size];
    }

    /** Refills the coefficient table for the batch that the header belongs to. */
    method Refill(hdr: Header)
      requires Valid()
      modifies psrand, G
      ensures var left := old(Rows(G, hdr.nin));
              forall r: nat :: r < |G| ==> G[r][..hdr.nin] == TableRow(psrand.draw, hdr, left, r)
      ensures DrawnByColumn(psrand.draw, hdr.batchId, G[hdr.nin..hdr.nin + hdr.nout], hdr.nin)
    {
      hide Delta, GeneratorRow, ParityRow, DrawnByColumn;
      var nin: nat, nout: nat := hdr.nin, hdr.nout;
      psrand.Seed(hdr.batchId);
      FillSystematic(G, nin);
      DrawParity(nin, nout);
      forall r: nat | r < nin + nout
        ensures GeneratorRow(psrand.draw, hdr.batchId, nin, nout, r)
             == if r < nin then seq(nin, (c: nat) => Delta(r, c)) else ParityRow(psrand.draw, hdr.batchId, nin, nout, r - nin)
      {
        GeneratorRowIs(psrand.draw, hdr.batchId, nin, nout, r);
      }
    }

    /** Fills the parity rows of the table and no others. */
    method DrawParity(nin: nat, nout: nat)
      requires Valid() && psrand.count == 0 && nin + nout <= |G|
      modifies psrand, G
      ensures forall r: nat :: r < |G| ==>
        G[r][..nin] == if nin <= r < nin + nout then ParityRow(psrand.draw, old(psrand.seed), nin, nout, r - nin)
                       else old(G[r][..nin])
      ensures DrawnByColumn(psrand.draw, old(psrand.seed), G[nin..nin + nout], nin)
    {
      hide ParityRow, DrawnByColumn;
      var parity := G[nin..nin + nout];
      FillParity(psrand, parity, nin);
      forall r: nat | r < |G|
        ensures G[r][..nin] == if nin <= r < nin + nout then ParityRow(psrand.draw, old(psrand.seed), nin, nout, r - nin)
                               else old(G[r][..nin])
      {
        if nin <= r < nin + nout {
          assert G[r] == parity[r - nin];
        } else {
          assert G[r] !in parity;
        }
      }
    }

    /** Points A at the table rows and Y at the payloads of the packets. Packets with the same
        coefficient id get the same row. */
    method Attach(input: seq<Buffer>)
      requires Valid()
      modifies this
      ensures |A| == |input| && Y == PayloadArrays(input)
      ensures forall k :: 0 <= k < |input| ==> A[k] == G[input[k].hdr.coefId]
    {
      A, Y := [], [];
      for i := 0 to |input|
        invariant |A| == |Y| == i
        invariant forall k :: 0 <= k < i ==> A[k] == G[input[k].hdr.coefId] && Y[k] == input[k].payload
      {
        A := A + [G[input[i].hdr.coefId]];
        Y := Y + [input[i].payload];
      }
    }

    /** Refills the table and points A and Y at what belongs to the packets. */
    method Prepare(input: seq<Buffer>, size: nat)
      requires Valid() && 1 <= |input|
      requires forall k :: 0 <= k < |input| ==> size <= input[k].payload.Length
      requires Disjoint(PayloadArrays(input), G)
      modifies this, psrand, G
      ensures Y == PayloadArrays(input)
      ensures var left, pkts := old(Rows(G, input[0].hdr.nin)), old(Packets(input, size));
              Views(A, G, CoefIds(pkts)) && Rows(Y, size) == Payloads(pkts) &&
              Rows(G, input[0].hdr.nin) == Table(psrand.draw, input[0].hdr, left)
    {
      hide TableRow;
      ghost var left, pkts := Rows(G, input[0].hdr.nin), Packets(input, size);
      var hdr := input[0].hdr;
      Refill(hdr);
      Attach(input);
      assert forall k :: 0 <= k < |input| ==> Packets(input, size)[k] == pkts[k];
      PayloadsAttached(input, size);
    }

    /** Decodes the buffers into the output rows. */
    method Decode(input: seq<Buffer>, output: seq<array<Byte>>, size: nat) returns (ok: bool)
      requires Valid() && 1 <= |input| <= MAX_CODING_SIZE
      requires forall k :: 0 <= k < |input| ==> size <= input[k].payload.Length
      requires 32 <= |output| && Separate(output, size)
      requires Disjoint(G, output) && Disjoint(PayloadArrays(input), G) && Disjoint(PayloadArrays(input), output)
      modifies this, psrand, G, output
      ensures forall k :: 0 <= k < |input| ==> PayloadArrays(input)[k][..] == old(PayloadArrays(input)[k][..])
      ensures var x := old(Rows(output, size));
              var r := ErasureCode.Decode(psrand.draw, old(Rows(G, input[0].hdr.nin)), old(Packets(input, size)), size);
              ok == r.Some? && Rows(output, size) == if r.Some? then r.value + x[input[0].hdr.nin..] else x
    {
      hide EliminateShared, Solution, Table;
      ghost var left, pkts, x := Rows(G, input[0].hdr.nin), Packets(input, size), Rows(output, size);
      Prepare(input, size);
      assert Rows(output, size) == x;
      ok := Solve(output, input[0].hdr.nin, size, CoefIds(pkts), Payloads(pkts));
    }

    method Solve(output: seq<array<Byte>>, n: nat, size: nat, ghost ids: seq<nat>, ghost y: Matrix) returns (ok: bool)
      requires |A| == |Y| && n <= |output| && Views(A, G, ids)
      requires Separate(G, n) && Separate(output, size) && forall k :: 0 <= k < |Y| ==> size <= Y[k].Length
      requires Disjoint(G, Y) && Disjoint(output, Y) && Disjoint(G, output)
      requires Rows(Y, size) == y
      modifies G, output
      ensures var x, (rank, t) := old(Rows(output, size)), EliminateShared(Tables(old(Rows(G, n)), ids, Identity(|ids|)), 0, n);
              ok == (rank == n) &&
              Rows(output, size) == if ok then Solution(t.inv, y, n, size) + x[n..] else x
    {
      hide EliminateShared, Solution;
      var rank := GaussianSolve(A, Y, output, n, size, G, ids);
      ok := rank >= n;
    }
  }

  lemma PayloadsAttached(input: seq<Buffer>, size: nat)
    requires forall k :: 0 <= k < |input| ==> size <= input[k].payload.Length
    ensures Rows(PayloadArrays(input), size) == Payloads(Packets(input, size))
  {
  }

  lemma GeneratorRowIs(draw: Draws, seed: nat, nin: nat, nout: nat, r: nat)
    ensures GeneratorRow(draw, seed, nin, nout, r)
         == if r < nin then seq(nin, (c: nat) => Delta(r, c)) else ParityRow(draw, seed, nin, nout, r - nin)
  {
  }

  method NewMat(rows: nat, cols: nat) returns (p: seq<array<Byte>>)
    ensures |p| == rows && Separate(p, cols)
    ensures forall k :: 0 <= k < rows ==> fresh(p[k]) && p[k].Length == cols
  {
    p := [];
    for i := 0 to rows
      invariant |p| == i && Separate(p, cols)
      invariant forall k :: 0 <= k < i ==> fresh(p[k]) && p[k].Length == cols
    {
      var row := new Byte[cols](_ => 0);
      p := p + [row];
    }
  }
}
