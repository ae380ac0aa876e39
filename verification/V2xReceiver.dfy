/**
 The receiver on its buffers: it follows node and batch numbers, stores the packets of one batch,
 and tries to decode with every new packet. Each received packet is one step of ReceiverModel.
 */
module V2xReceiver {
  import opened GaloisField
  import opened LinearAlgebra
  import opened FiniteField
  import opened ErasureCode
  import opened Options
  import opened Ldpc
  import opened V2xSender
  import opened ReceiverModel

  class Receiver {
    const size: nat
    const coder: Coder
    const inputPkts: seq<Buffer>
    const outputPkts: seq<array<Byte>>
    var curBatchId: Octet
    var curNodeId: int
    var pktNum: nat
    var decoded: bool
    var history: seq<Octet>
    /** From the last packet read; nin tells the caller how many output rows count. */
    var nin: Bits5
    var nout: Bits5

    ghost predicate Valid()
      reads this
    {
      coder.Valid() && pktNum <= MAX_CODING_SIZE &&
      |inputPkts| == MAX_CODING_SIZE && SeparateBuffers(inputPkts, size) &&
      |outputPkts| == MAX_CODING_SIZE && Separate(outputPkts, size) &&
      Disjoint(coder.G, outputPkts) && Disjoint(PayloadArrays(inputPkts), coder.G) &&
      Disjoint(PayloadArrays(inputPkts), outputPkts)
    }

    /** The state of the receiver as a value. */
    ghost function Model(): State
      requires Valid()
      reads this, inputPkts, PayloadArrays(inputPkts)
    {
      State(curNodeId, curBatchId, decoded, history, Held())
    }

    ghost function Held(): (p: seq<Packet>)
      requires Valid()
      reads this, inputPkts, PayloadArrays(inputPkts)
      ensures |p| == pktNum && forall k :: 0 <= k < pktNum ==> p[k] == inputPkts[k].Contents(size)
    {
      Packets(inputPkts, size)[..pktNum]
    }

    /** The output rows that a decoded batch fills. */
    ghost function Output(): Matrix
      requires Valid() && Held() != []
      reads this, inputPkts, PayloadArrays(inputPkts), outputPkts
    {
      Rows(outputPkts, size)[..Held()[0].hdr.nin]
    }

    constructor (draw: Draws, size: nat)
      ensures Valid() && this.size == size && coder.psrand.draw == draw && Model() == INITIAL
    {
      this.size := size;
      var c := new Coder(draw);
      var input := NewBuffers(MAX_CODING_SIZE, size);
      var output := NewMat(MAX_CODING_SIZE, size);
      coder, inputPkts, outputPkts := c, input, output;
      curBatchId, curNodeId, pktNum, decoded, history := NO_BATCH, -1, 0, false, [];
      nin, nout := 0, 0;
    }

    /** Follows the node and the batch of a packet. */
    method Follow(hdr: Header)
      requires Valid()
      modifies this
      ensures Valid() && Model() == Switch(old(Model()), hdr)
      ensures nin == hdr.nin && nout == hdr.nout
    {
      var batchId: Octet := hdr.batchId % 256;
      nin, nout := hdr.nin, hdr.nout;
      if hdr.nodeId != curNodeId {
        curNodeId := hdr.nodeId;
        curBatchId := NO_BATCH;
        pktNum := 0;
        decoded := false;
        history := [];
      }
      for i := 0 to |history| {
        // Only goes on to the next entry of the history, not to the next packet.
        if batchId == history[i] { continue; }
      }
      if batchId != curBatchId {
        history := history + [curBatchId];
        if |history| >= MAX_HISTORY_SIZE { history := history[1..]; }
        curBatchId := batchId;
        decoded := false;
        pktNum := 0;
      }
    }

    /** Copies a packet into the next free buffer. */
    method Store(pkt: Packet)
      requires Valid() && pktNum < MAX_CODING_SIZE && |pkt.payload| == size
      modifies this`pktNum, inputPkts, PayloadArrays(inputPkts)
      ensures Valid() && Held() == old(Held()) + [pkt]
    {
      var buf := inputPkts[pktNum];
      assert buf.payload == PayloadArrays(inputPkts)[pktNum];
      assert forall k :: 0 <= k < pktNum ==> inputPkts[k].payload == PayloadArrays(inputPkts)[k] != buf.payload;
      CopyIn(buf.payload, pkt.payload);
      buf.hdr := pkt.hdr;
      assert buf.Contents(size) == pkt;
      assert forall k :: 0 <= k < pktNum ==> inputPkts[k].Contents(size) == old(inputPkts[k].Contents(size));
      pktNum := pktNum + 1;
    }
  
    /** Tries to decode what is held. */
    method Attempt() returns (done: bool)
      requires Valid() && Held() != [] && Fits(Held())
      modifies coder, coder.psrand, coder.G, outputPkts
      ensures Valid() && Held() == old(Held())
      ensures var x := TryDecode(coder.psrand.draw, Held(), size);
              done == x.Some? && (done ==> Output() == x.value)
    {
      hide Decode, Untouched, Disjoint;
      ghost var pkts := Held();
      var input := inputPkts[..pktNum];
      SliceDisjoint(inputPkts, pktNum, coder.G);
      SliceDisjoint(inputPkts, pktNum, outputPkts);
      assert Packets(input, size) == pkts;
      ghost var left := Rows(coder.G, pkts[0].hdr.nin);
      TryDecodeIsDecode(coder.psrand.draw, left, pkts, size);
      done := coder.Decode(input, outputPkts, size);
      assert forall k :: 0 <= k < pktNum ==> Held()[k] == pkts[k];
    }

    /** Tries to decode once n packets are held. */
    method Check(n: Bits5) returns (done: bool)
      requires Valid() && Held() != [] && Fits(Held())
      modifies this`decoded, coder, coder.psrand, coder.G, outputPkts
      ensures Valid() && Held() == old(Held()) && decoded == done
      ensures var x := if |Held()| >= n then TryDecode(coder.psrand.draw, Held(), size) else None;
              done == x.Some? && (done ==> Output() == x.value)
    {
      hide TryDecode, Fits;
      done := false;
      if pktNum >= n {
        done := Attempt();
      }
      decoded := done;
    }

    /** Stores a packet of the current batch and tries to decode once enough are there. */
    method Take(pkt: Packet) returns (done: bool)
      requires Valid() && |pkt.payload| == size && Fits(Held() + [pkt])
      modifies this`pktNum, this`decoded
      modifies inputPkts, PayloadArrays(inputPkts), coder, coder.psrand, coder.G, outputPkts
      ensures Valid() && Held() == old(Held()) + [pkt] && decoded == done
      ensures var x := if |Held()| >= pkt.hdr.nin then TryDecode(coder.psrand.draw, Held(), size) else None;
              done == x.Some? && (done ==> Output() == x.value)
    {
      hide TryDecode, Fits, Output;
      FitsSize(Held() + [pkt]);
      Store(pkt);
      done := Check(pkt.hdr.nin);
    }

    /** Handles one packet of the right size; tells whether the batch can be handed out. */
    method Handle(pkt: Packet) returns (done: bool)
      requires Valid() && |pkt.payload| == size && Acceptable(size, Model(), pkt)
      modifies this, inputPkts, PayloadArrays(inputPkts), coder, coder.psrand, coder.G, outputPkts
      ensures Valid() && nin == pkt.hdr.nin
      ensures var (st, x) := Step(coder.psrand.draw, size, old(Model()), pkt);
              Model() == st && done == x.Some? &&
              (done ==> Held() != [] && Output() == x.value)
    {
      hide Switch, TryDecode, Fits;
      Follow(pkt.hdr);
      if decoded { return false; }
      done := Take(pkt);
    }

    /** Reads packets until a batch can be handed out, or the stream ends. */
    method Recv(stream: seq<Packet>) returns (done: bool, taken: nat)
      requires Valid() && AllAcceptable(coder.psrand.draw, size, Model(), stream)
      modifies this, inputPkts, PayloadArrays(inputPkts), coder, coder.psrand, coder.G, outputPkts
      ensures Valid() && taken <= |stream| && (if done then Held() != [] else taken == |stream|)
      ensures Run(coder.psrand.draw, size, old(Model()), stream[..taken])
           == (Model(), if done then [Output()] else [])
      ensures done ==> taken > 0 && nin == stream[taken - 1].hdr.nin
    {
      hide Step, Run, Acceptable;
      RunNothing(coder.psrand.draw, size, Model());
      assert stream[..0] == [];
      taken, done := 0, false;
      while taken < |stream|
        invariant Valid() && taken <= |stream|
        invariant Run(coder.psrand.draw, size, old(Model()), stream[..taken]) == (Model(), [])
      {
        var pkt := stream[taken];
        assert stream[..taken] + [pkt] == stream[..taken + 1];
        RunOneMore(coder.psrand.draw, size, old(Model()), stream[..taken], pkt);
        assert Acceptable(size, Model(), pkt);
        taken := taken + 1;
        if |pkt.payload| != size {
          OtherSizeSkipped(coder.psrand.draw, size, Model(), pkt);
          continue;
        }
        done := Handle(pkt);
        if done {
          assert [] + [Output()] == [Output()];
          return;
        }
      }
    }
  }

  lemma FitsSize(pkts: seq<Packet>)
    requires Fits(pkts)
    ensures |pkts| <= MAX_CODING_SIZE
  {
  }

  lemma SliceDisjoint(p: seq<Buffer>, n: nat, q: seq<array<Byte>>)
    requires n <= |p| && Disjoint(PayloadArrays(p), q)
    ensures Disjoint(PayloadArrays(p[..n]), q)
  {
    assert forall k :: 0 <= k < n ==> PayloadArrays(p[..n])[k] == PayloadArrays(p)[k];
  }

  /** For packets that one decoder can hold, leftovers in the coefficient table play no role. */
  lemma TryDecodeIsDecode(draw: Draws, left: Matrix, pkts: seq<Packet>, size: nat)
    requires WellFormed(left, pkts, size)
    requires forall k :: 0 <= k < |pkts| ==> pkts[k].hdr.coefId < pkts[0].hdr.nin + pkts[0].hdr.nout
    ensures TryDecode(draw, pkts, size) == Decode(draw, left, pkts, size)
  {
    hide Decode;
    DecodeIgnoresLeftovers(draw, left, Untouched(pkts[0].hdr.nin), pkts, size);
  }
}
