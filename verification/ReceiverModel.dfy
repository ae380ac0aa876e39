/**
 The receiver as a state machine on values: one step per received packet. The buffer-level
 receiver of module V2xReceiver is proved to take exactly these steps.
 */
module ReceiverModel {
  import opened LinearAlgebra
  import opened SharedRows
  import opened ErasureCode
  import opened Options

  const MAX_HISTORY_SIZE: nat := 5

  /** The batch number that an 8-bit variable initialised with -1 holds. */
  const NO_BATCH: Octet := 255

  datatype State = State(node: int, batch: Octet, decoded: bool, history: seq<Octet>, pkts: seq<Packet>)

  const INITIAL := State(-1, NO_BATCH, false, [], [])

  /** A coefficient table that no call has used. */
  function Untouched(n: nat): Matrix { seq(100, (r: nat) => seq(n, _ => 0)) }

  /** Tries to decode; the packets must agree in size. */
  function TryDecode(draw: Draws, pkts: seq<Packet>, size: nat): Option<Matrix> {
    if pkts != [] && forall k :: 0 <= k < |pkts| ==> |pkts[k].payload| == size
    then Decode(draw, Untouched(pkts[0].hdr.nin), pkts, size)
    else None
  }

  /** A packet from another node resets everything. */
  function SwitchNode(st: State, hdr: Header): State {
    if hdr.nodeId != st.node then State(hdr.nodeId, NO_BATCH, false, [], []) else st
  }

  /** The history after an id is appended. */
  function Remember(history: seq<Octet>, batch: Octet): seq<Octet> {
    var h := history + [batch];
    if |h| >= MAX_HISTORY_SIZE then h[1..] else h
  }

  /** A packet with another batch id starts a new batch. Only the low eight bits are compared. */
  function SwitchBatch(st: State, hdr: Header): State {
    var id: Octet := hdr.batchId % 256;
    if id != st.batch then st.(history := Remember(st.history, st.batch), batch := id, decoded := false, pkts := []) else st
  }

  function Switch(st: State, hdr: Header): State {
    SwitchBatch(SwitchNode(st, hdr), hdr)
  }

  /** What one received packet does; the second result is what recv hands out, if it returns.
      A packet of the wrong size is skipped. */
  function Step(draw: Draws, size: nat, st: State, pkt: Packet): (State, Option<Matrix>) {
    if |pkt.payload| != size then (st, None)
    else
      var s := Switch(st, pkt.hdr);
      if s.decoded then (s, None)
      else
        var pkts := s.pkts + [pkt];
        var x := if |pkts| >= pkt.hdr.nin then TryDecode(draw, pkts, size) else None;
        (s.(pkts := pkts, decoded := x.Some?), x)
  }

  /** The state after a stream of packets and the results handed out on the way. */
  function Run(draw: Draws, size: nat, st: State, stream: seq<Packet>): (State, seq<Matrix>) {
    if stream == [] then (st, [])
    else
      var (st', out) := Run(draw, size, st, stream[..|stream| - 1]);
      var (st'', x) := Step(draw, size, st', stream[|stream| - 1]);
      (st'', if x.Some? then out + [x.value] else out)
  }

  lemma RunNothing(draw: Draws, size: nat, st: State)
    ensures Run(draw, size, st, []) == (st, [])
  {
  }

  /** One more packet at the end of the stream. */
  lemma RunOneMore(draw: Draws, size: nat, st: State, stream: seq<Packet>, pkt: Packet)
    ensures var (st', out) := Run(draw, size, st, stream);
            var (st'', x) := Step(draw, size, st', pkt);
            Run(draw, size, st, stream + [pkt]) == (st'', if x.Some? then out + [x.value] else out)
  {
    hide Step;
    assert (stream + [pkt])[..|stream|] == stream;
  }

  /** Running two streams one after the other: what repeated calls of recv add up to. */
  lemma {:induction false} RunConcat(draw: Draws, size: nat, st: State, a: seq<Packet>, b: seq<Packet>)
    ensures var (st', out) := Run(draw, size, st, a);
            var (st'', out') := Run(draw, size, st', b);
            Run(draw, size, st, a + b) == (st'', out + out')
  {
    hide Step;
    if b == [] {
      assert a + b == a && Run(draw, size, st, a).1 + [] == Run(draw, size, st, a).1;
    } else {
      var b' := b[..|b| - 1];
      assert (a + b)[..|a + b| - 1] == a + b';
      RunConcat(draw, size, st, a, b');
      var (mid, out) := Run(draw, size, st, a);
      var (late, more) := Run(draw, size, mid, b');
      var (end, x) := Step(draw, size, late, b[|b| - 1]);
      assert x.Some? ==> (out + more) + [x.value] == out + (more + [x.value]);
    }
  }

  // ----- the history -----

  /** The history of batch ids decides nothing: whatever it holds, a packet has the same result and
      leaves everything else the same. */
  lemma HistoryIsInert(draw: Draws, size: nat, st: State, history: seq<Octet>, pkt: Packet)
    ensures var (s, x) := Step(draw, size, st, pkt);
            var (s', x') := Step(draw, size, st.(history := history), pkt);
            x' == x && s' == s.(history := s'.history)
  {
    hide TryDecode;
  }

  /** The same for whole runs. */
  lemma {:induction false} HistoryNeverMatters(draw: Draws, size: nat, st: State, history: seq<Octet>, stream: seq<Packet>)
    ensures var (s, out) := Run(draw, size, st, stream);
            var (s', out') := Run(draw, size, st.(history := history), stream);
            out' == out && s' == s.(history := s'.history)
  {
    hide Step;
    if stream != [] {
      var before, pkt := stream[..|stream| - 1], stream[|stream| - 1];
      HistoryNeverMatters(draw, size, st, history, before);
      var s, s' := Run(draw, size, st, before).0, Run(draw, size, st.(history := history), before).0;
      HistoryIsInert(draw, size, s, s'.history, pkt);
    }
  }

  /** The history keeps the latest four batch numbers. */
  lemma HistoryIsLatest(history: seq<Octet>, batch: Octet)
    requires |history| <= 4
    ensures Remember(history, batch) == if |history| < 4 then history + [batch] else history[1..] + [batch]
  {
    assert history != [] ==> (history + [batch])[1..] == history[1..] + [batch];
  }

  /** In every run it never holds more. */
  lemma {:induction false} HistoryIsBounded(draw: Draws, size: nat, st: State, stream: seq<Packet>)
    requires |st.history| <= 4
    ensures |Run(draw, size, st, stream).0.history| <= 4
  {
    hide TryDecode;
    if stream != [] { HistoryIsBounded(draw, size, st, stream[..|stream| - 1]); }
  }

  // ----- packets of another size -----

  /** The packets of the expected size. */
  function OfSize(stream: seq<Packet>, size: nat): seq<Packet> {
    if stream == [] then []
    else
      var before, pkt := OfSize(stream[..|stream| - 1], size), stream[|stream| - 1];
      if |pkt.payload| == size then before + [pkt] else before
  }

  /** Packets of another size leave no trace: every run is the run over the others. */
  lemma {:induction false} OtherSizesVanish(draw: Draws, size: nat, st: State, stream: seq<Packet>)
    ensures Run(draw, size, st, stream) == Run(draw, size, st, OfSize(stream, size))
  {
    hide Step;
    if stream != [] {
      var before, pkt := stream[..|stream| - 1], stream[|stream| - 1];
      OtherSizesVanish(draw, size, st, before);
      RunOneMore(draw, size, st, OfSize(before, size), pkt);
      if |pkt.payload| != size { OtherSizeSkipped(draw, size, Run(draw, size, st, before).0, pkt); }
    }
  }

  lemma OtherSizeSkipped(draw: Draws, size: nat, st: State, pkt: Packet)
    requires |pkt.payload| != size
    ensures Step(draw, size, st, pkt) == (st, None)
  {
  }

  // ----- packets that one decoder can hold -----

  /** The rows of the receiver's tables. */
  const TABLE_ROWS: nat := 100

  /** The tables hold these packets, and their ids are among those the first one announces. Ids may
      repeat. */
  predicate Fits(pkts: seq<Packet>) {
    |pkts| <= TABLE_ROWS &&
    forall k :: 0 <= k < |pkts| ==> pkts[k].hdr.coefId < pkts[0].hdr.nin + pkts[0].hdr.nout
  }

  /** The packet fits what the receiver holds of its batch. */
  predicate Acceptable(size: nat, st: State, pkt: Packet) {
    |pkt.payload| == size && !Switch(st, pkt.hdr).decoded ==> Fits(Switch(st, pkt.hdr).pkts + [pkt])
  }

  /** Every packet of the stream fits when its turn comes. */
  predicate AllAcceptable(draw: Draws, size: nat, st: State, stream: seq<Packet>) {
    forall k :: 0 <= k < |stream| ==> Acceptable(size, Run(draw, size, st, stream[..k]).0, stream[k])
  }

  lemma {:induction false} DifferentBelow(ids: seq<nat>, n: nat)
    requires (forall k :: 0 <= k < |ids| ==> ids[k] < n) && Different(ids)
    ensures |ids| <= n
    decreases n
  {
    if ids != [] {
      assert ids[0] < n;
      if i :| 0 <= i < |ids| && ids[i] == n - 1 {
        DifferentBelow(ids[..i] + ids[i + 1..], n - 1);
      } else {
        DifferentBelow(ids, n - 1);
      }
    }
  }

  /** The capacity bound: packets with different ids of one batch are at most 62, and always fit. */
  lemma DifferentIdsFit(pkts: seq<Packet>)
    requires Different(CoefIds(pkts))
    requires forall k :: 0 <= k < |pkts| ==> pkts[k].hdr.coefId < pkts[0].hdr.nin + pkts[0].hdr.nout
    ensures pkts != [] ==> |pkts| <= pkts[0].hdr.nin + pkts[0].hdr.nout
    ensures |pkts| <= 62 && Fits(pkts)
  {
    if pkts != [] { DifferentBelow(CoefIds(pkts), pkts[0].hdr.nin + pkts[0].hdr.nout); }
  }
}
