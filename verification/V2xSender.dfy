/**
 The sender: it collects source packets, and with every nin-th one encodes a batch and puts all
 its packets on the air.
 */
module V2xSender {
  import opened Division
  import opened GaloisField
  import opened LinearAlgebra
  import opened FiniteField
  import opened ErasureCode
  import opened Ldpc
  import opened EndToEnd
  import opened Stretches
  import opened ReceiverModel

  // ----- accounting on values -----

  /** Complete batches and the packets waiting for the next one. */
  datatype Account = Account(sources: seq<Matrix>, pending: Matrix)

  /** One more source packet. */
  function Collect(a: Account, nin: nat, data: Vector): Account {
    if |a.pending| + 1 < nin then a.(pending := a.pending + [data])
    else Account(a.sources + [a.pending + [data]], [])
  }

  function CollectAll(nin: nat, calls: seq<Vector>): Account {
    if calls == [] then Account([], [])
    else Collect(CollectAll(nin, calls[..|calls| - 1]), nin, calls[|calls| - 1])
  }

  function Flatten(sources: seq<Matrix>): Matrix {
    if sources == [] then [] else Flatten(sources[..|sources| - 1]) + sources[|sources| - 1]
  }

  /** All batches hold nin packets, fewer wait, and together, in order, they are the packets given. */
  lemma {:induction false} NothingLost(nin: nat, calls: seq<Vector>)
    requires nin >= 1
    ensures var a := CollectAll(nin, calls);
            (forall m :: 0 <= m < |a.sources| ==> |a.sources[m]| == nin) && |a.pending| < nin &&
            Flatten(a.sources) + a.pending == calls
  {
    hide Collect, Flatten;
    FlattenNothing();
    if calls != [] {
      var before, data := calls[..|calls| - 1], calls[|calls| - 1];
      NothingLost(nin, before);
      CollectLosesNothing(CollectAll(nin, before), nin, data);
      assert calls == before + [data];
    }
  }

  lemma FlattenNothing()
    ensures Flatten([]) == []
  {
  }

  lemma CollectLosesNothing(a: Account, nin: nat, data: Vector)
    requires nin >= 1 && |a.pending| < nin && forall m :: 0 <= m < |a.sources| ==> |a.sources[m]| == nin
    ensures var b := Collect(a, nin, data);
            (forall m :: 0 <= m < |b.sources| ==> |b.sources[m]| == nin) && |b.pending| < nin &&
            Flatten(b.sources) + b.pending == Flatten(a.sources) + a.pending + [data]
  {
    if |a.pending| + 1 >= nin {
      var b := a.sources + [a.pending + [data]];
      assert b[..|b| - 1] == a.sources;
    }
  }

  /** After k calls exactly floor(k / nin) batches are complete and k mod nin packets wait. */
  lemma Accounting(nin: nat, calls: seq<Vector>)
    requires nin >= 1
    ensures |CollectAll(nin, calls).sources| == |calls| / nin
    ensures |CollectAll(nin, calls).pending| == |calls| % nin
  {
    hide CollectAll;
    var a := CollectAll(nin, calls);
    NothingLost(nin, calls);
    FlattenLength(a.sources, nin);
    DivideUnique(|calls|, nin, |a.sources|, |a.pending|);
  }

  /** Packet i of batch m is the argument of call m * nin + i. */
  lemma {:induction false} FlattenAt(sources: seq<Matrix>, nin: nat, m: nat, i: nat)
    requires forall k :: 0 <= k < |sources| ==> |sources[k]| == nin
    requires m < |sources| && i < nin
    ensures |Flatten(sources)| == |sources| * nin && 0 <= m * nin + i < |Flatten(sources)|
    ensures Flatten(sources)[m * nin + i] == sources[m][i]
  {
    var less := sources[..|sources| - 1];
    FlattenLength(sources, nin);
    FlattenLength(less, nin);
    Below(m, |sources|, nin, i);
    if m < |sources| - 1 {
      Below(m, |sources| - 1, nin, i);
      FlattenAt(less, nin, m, i);
    }
  }

  lemma {:induction false} FlattenLength(sources: seq<Matrix>, nin: nat)
    requires forall k :: 0 <= k < |sources| ==> |sources[k]| == nin
    ensures |Flatten(sources)| == |sources| * nin
  {
    if sources != [] {
      FlattenLength(sources[..|sources| - 1], nin);
      Distribute(|sources| - 1, 1, nin);
    }
  }

  // ----- the sent stream -----

  /** All packets of batch m, as sent. */
  function BatchOnAir(s: Session, draw: Draws, m: nat): (p: seq<Packet>)
    requires s.Valid() && m < |s.sources|
    ensures |p| == s.nin + s.nout
  {
    seq(s.nin + s.nout, (r: nat) => s.Sent(draw, m, r))
  }

  /** The packets of the first m batches, as sent. */
  function OnAir(s: Session, draw: Draws, m: nat): seq<Packet>
    requires s.Valid() && m <= |s.sources|
  {
    if m == 0 then [] else OnAir(s, draw, m - 1) + BatchOnAir(s, draw, m - 1)
  }

  /** Later batches do not change what was sent. */
  lemma {:induction false} OnAirStays(s: Session, draw: Draws, m: nat, source: Matrix)
    requires s.Valid() && m <= |s.sources| && HasShape(source, s.nin, s.size)
    ensures OnAir(s.(sources := s.sources + [source]), draw, m) == OnAir(s, draw, m)
  {
    hide Session.Sent;
    if m > 0 {
      OnAirStays(s, draw, m - 1, source);
      var s', last := s.(sources := s.sources + [source]), m - 1;
      forall r: nat | r < s.nin + s.nout ensures s'.Sent(draw, last, r) == s.Sent(draw, last, r) {
        SentStays(s, draw, last, r, source);
      }
      assert BatchOnAir(s', draw, last) == BatchOnAir(s, draw, last);
    }
  }

  lemma SentStays(s: Session, draw: Draws, m: nat, r: nat, source: Matrix)
    requires s.Valid() && m < |s.sources| && HasShape(source, s.nin, s.size)
    ensures s.(sources := s.sources + [source]).Sent(draw, m, r) == s.Sent(draw, m, r)
  {
    hide Combination;
    assert (s.sources + [source])[m] == s.sources[m];
  }

  lemma {:induction false} OnAirAt(s: Session, draw: Draws, m: nat, k: nat, r: nat)
    requires s.Valid() && m <= |s.sources| && k < m && r < s.nin + s.nout
    ensures |OnAir(s, draw, m)| == m * (s.nin + s.nout) && 0 <= k * (s.nin + s.nout) + r < |OnAir(s, draw, m)|
    ensures OnAir(s, draw, m)[k * (s.nin + s.nout) + r] == s.Sent(draw, k, r)
  {
    hide Session.Sent;
    var n := s.nin + s.nout;
    OnAirLength(s, draw, m);
    OnAirLength(s, draw, m - 1);
    Below(k, m, n, r);
    if k < m - 1 {
      Below(k, m - 1, n, r);
      OnAirAt(s, draw, m - 1, k, r);
    }
  }

  lemma {:induction false} OnAirLength(s: Session, draw: Draws, m: nat)
    requires s.Valid() && m <= |s.sources|
    ensures |OnAir(s, draw, m)| == m * (s.nin + s.nout)
  {
    if m > 0 { OnAirLength(s, draw, m - 1); }
  }

  /** A packet heard: position pos of what a sender has sent. */
  datatype Heard = Heard(sender: nat, pos: nat)

  predicate IsOnAir(w: Network, draw: Draws, h: Heard)
    requires w.Valid()
  {
    h.sender < |w.senders| &&
    var s := w.senders[h.sender]; s.nin >= 1 && h.pos < |OnAir(s, draw, |s.sources|)|
  }

  predicate AllOnAir(w: Network, draw: Draws, heard: seq<Heard>)
    requires w.Valid()
  {
    forall k :: 0 <= k < |heard| ==> IsOnAir(w, draw, heard[k])
  }

  /** The batch and the number within the batch of a packet heard. */
  function SlotAt(w: Network, h: Heard): Slot
    requires h.sender < |w.senders| && w.senders[h.sender].nin >= 1
  {
    var n := w.senders[h.sender].nin + w.senders[h.sender].nout;
    Slot(Origin(h.sender, h.pos / n), h.pos % n)
  }

  function SlotsAt(w: Network, draw: Draws, heard: seq<Heard>): (trace: seq<Slot>)
    requires w.Valid() && AllOnAir(w, draw, heard)
    ensures |trace| == |heard|
  {
    seq(|heard|, k requires 0 <= k < |heard| => SlotAt(w, heard[k]))
  }

  /** The packets heard, taken from what the senders have sent. */
  function Arrivals(w: Network, draw: Draws, heard: seq<Heard>): (p: seq<Packet>)
    requires w.Valid() && AllOnAir(w, draw, heard)
    ensures |p| == |heard|
  {
    seq(|heard|, k requires 0 <= k < |heard| =>
      var s := w.senders[heard[k].sender]; OnAir(s, draw, |s.sources|)[heard[k].pos])
  }

  lemma HeardIsSent(w: Network, draw: Draws, h: Heard)
    requires w.Valid() && IsOnAir(w, draw, h)
    ensures var s, slot := w.senders[h.sender], SlotAt(w, h);
            InBatch(w, slot) && OnAir(s, draw, |s.sources|)[h.pos] == w.Sent(draw, slot) &&
            h.pos == slot.origin.batch * (s.nin + s.nout) + slot.coef
  {
    hide OnAir, Session.Sent;
    var s := w.senders[h.sender];
    OnAirLength(s, draw, |s.sources|);
    DivideBounds(h.pos, s.nin + s.nout, |s.sources|);
    OnAirAt(s, draw, |s.sources|, SlotAt(w, h).origin.batch, SlotAt(w, h).coef);
  }

  /** Any choice of sent packets of any senders, in any order and number, is a trace of the network. */
  lemma ArrivalsAreReceived(w: Network, draw: Draws, heard: seq<Heard>)
    requires w.Valid() && AllOnAir(w, draw, heard)
    ensures InNetwork(w, SlotsAt(w, draw, heard))
    ensures Received(w, draw, SlotsAt(w, draw, heard)) == Arrivals(w, draw, heard)
  {
    hide OnAir, SlotAt, Network.Sent;
    forall k | 0 <= k < |heard|
      ensures InBatch(w, SlotAt(w, heard[k])) && Arrivals(w, draw, heard)[k] == w.Sent(draw, SlotAt(w, heard[k]))
    {
      HeardIsSent(w, draw, heard[k]);
    }
  }

  lemma SlotsOrdered(w: Network, draw: Draws, h: Heard, h': Heard)
    requires w.Valid() && IsOnAir(w, draw, h) && IsOnAir(w, draw, h') && h.sender == h'.sender && h.pos < h'.pos
    ensures SlotAt(w, h).origin.batch <= SlotAt(w, h').origin.batch && SlotAt(w, h) != SlotAt(w, h')
  {
    hide OnAir, InBatch;
    HeardIsSent(w, draw, h);
    HeardIsSent(w, draw, h');
    var n, d := w.senders[h.sender].nin + w.senders[h.sender].nout, SlotAt(w, h).origin.batch - SlotAt(w, h').origin.batch;
    Distribute(SlotAt(w, h').origin.batch, d, n);
    Multiples(d, n);
  }

  /** Packets of one sender, some dropped, the others in the order in which they were sent. */
  predicate OnlyDropped(heard: seq<Heard>) {
    forall k, l :: 0 <= k < l < |heard| ==> heard[k].sender == heard[l].sender && heard[k].pos < heard[l].pos
  }

  /** Dropping packets from the sent stream, and nothing else, keeps the order of batches. */
  lemma DroppingIsDelivery(w: Network, draw: Draws, heard: seq<Heard>)
    requires w.Valid() && AllOnAir(w, draw, heard) && OnlyDropped(heard)
    ensures var trace := SlotsAt(w, draw, heard); Delivery(w, trace) && Ordered(trace)
  {
    hide SlotAt, OnAir, Grouped, InBatch;
    var trace := SlotsAt(w, draw, heard);
    ArrivalsAreReceived(w, draw, heard);
    forall k, l | 0 <= k < l < |heard|
      ensures trace[k].origin.sender == trace[l].origin.sender && trace[k].origin.batch <= trace[l].origin.batch
      ensures trace[k] != trace[l]
    {
      SlotsOrdered(w, draw, heard[k], heard[l]);
      SenderOf(w, heard[k]);
      SenderOf(w, heard[l]);
    }
    OrderedIsGrouped(trace);
  }

  lemma SenderOf(w: Network, h: Heard)
    requires h.sender < |w.senders| && w.senders[h.sender].nin >= 1
    ensures SlotAt(w, h).origin.sender == h.sender
  {
  }

  /** The link as a whole: whatever arrives of what any number of senders send, in whatever order, the
      receiver can hold it and hands out a batch for every stretch that determines it, with the
      sender's bytes, as long as no packet is repeated before its stretch is decoded. */
  lemma {:induction false} LinkDelivers(w: Network, draw: Draws, heard: seq<Heard>)
    requires w.Valid() && AllOnAir(w, draw, heard) && NoIdClash(SlotsAt(w, draw, heard))
    requires CutOf(w, Cut(SlotsAt(w, draw, heard))) ==> AllFresh(w, draw, Cut(SlotsAt(w, draw, heard)))
    ensures var cut, arrived := Cut(SlotsAt(w, draw, heard)), Arrivals(w, draw, heard);
            CutOf(w, cut) && AllAcceptable(draw, w.size, INITIAL, arrived) &&
            Run(draw, w.size, INITIAL, arrived).1 == Sources(w, HandedOut(w, draw, cut)) &&
            (NoneTwice(HandedOut(w, draw, cut)) <==> DeterminedOnce(w, draw, cut))
  {
    hide IsOnAir, SlotAt, Run, HandedOut, AllAcceptable, NoIdClash, Cut, NoneTwice, DeterminedOnce, AllFresh, InBatch;
    ArrivalsAreReceived(w, draw, heard);
    CutIsOf(w, SlotsAt(w, draw, heard));
    AtMostOnceIff(w, draw, SlotsAt(w, draw, heard));
    FreshIsAcceptable(w, draw, SlotsAt(w, draw, heard));
  }

  /** If the link only drops packets of a sender, the receiver hands out exactly the batches that the
      arrived packets determine, once each, in order, with the sender's bytes. */
  lemma {:induction false} LossyLinkDelivers(w: Network, draw: Draws, heard: seq<Heard>)
    requires w.Valid() && AllOnAir(w, draw, heard) && OnlyDropped(heard) && NoIdClash(SlotsAt(w, draw, heard))
    ensures var trace, arrived := SlotsAt(w, draw, heard), Arrivals(w, draw, heard);
            CutOf(w, Cut(trace)) && AllAcceptable(draw, w.size, INITIAL, arrived) &&
            var ids := HandedOut(w, draw, Cut(trace));
            Run(draw, w.size, INITIAL, arrived).1 == Sources(w, ids) && NoneTwice(ids) && Ascending(ids) &&
            forall o: Origin :: w.Has(o) ==>
              StretchOf(w, Stretch(o, Coefs(trace, o))) && (o in ids <==> Determined(w, draw, Stretch(o, Coefs(trace, o))))
  {
    hide IsOnAir, SlotAt, Run, HandedOut, AllAcceptable, NoIdClash, Cut, Determined, Coefs, AllFresh, Delivery, NoneTwice, Ascending, Ordered, OnlyDropped, InBatch;
    var trace := SlotsAt(w, draw, heard);
    DroppingIsDelivery(w, draw, heard);
    ArrivalsAreReceived(w, draw, heard);
    DeliversOnce(w, draw, trace);
    DeliveryIsFresh(w, draw, trace);
    FreshIsAcceptable(w, draw, trace);
    OrderedIncreasing(trace);
    HandedOutAscending(w, draw, Cut(trace));
  }

  // ----- the sender -----

  class Sender {
    const size: nat
    const nin: Bits5
    const nout: Bits5
    const nodeId: int
    const coder: Coder
    const inputPkts: seq<array<Byte>>
    const outputPkts: seq<Buffer>
    var pktNum: nat
    var batchId: Octet
    /** What has been handed to the socket. */
    var sock: seq<Packet>
    ghost var sources: seq<Matrix>

    ghost function Record(): Session
      reads this
    {
      Session(nodeId % 256, nin, nout, size, sources)
    }

    ghost predicate Valid()
      reads this
    {
      Sound() && pktNum < nin
    }

    /** The tables do not share memory, and the socket has seen exactly the complete batches. */
    ghost predicate Sound()
      reads this
    {
      coder.Valid() && nin >= 1 && pktNum <= nin &&
      |inputPkts| == MAX_CODING_SIZE && Separate(inputPkts, size) &&
      |outputPkts| == MAX_CODING_SIZE && SeparateBuffers(outputPkts, size) &&
      Disjoint(inputPkts, PayloadArrays(outputPkts)) &&
      Record().Valid() && batchId == |sources| % 256 &&
      sock == OnAir(Record(), coder.psrand.draw, |sources|)
    }

    ghost function Books(): Account
      requires Sound()
      reads this, inputPkts
    {
      Account(sources, Rows(inputPkts[..pktNum], size))
    }

    constructor (draw: Draws, size: nat, nin: Bits5, nout: Bits5, nodeId: int)
      requires nin >= 1
      ensures Valid() && this.size == size && this.nin == nin && this.nout == nout && this.nodeId == nodeId
      ensures coder.psrand.draw == draw && Books() == Account([], [])
    {
      this.size, this.nin, this.nout, this.nodeId := size, nin, nout, nodeId;
      var c := new Coder(draw);
      var input := NewMat(MAX_CODING_SIZE, size);
      var output := NewBuffers(MAX_CODING_SIZE, size);
      coder, inputPkts, outputPkts := c, input, output;
      pktNum, batchId, sock, sources := 0, 0, [], [];
    }

    /** Takes one source packet; with the nin-th one, the batch goes out. */
    method Send(data: Vector)
      requires Valid() && |data| == size
      modifies this`pktNum, this`batchId, this`sock, this`sources
      modifies inputPkts, outputPkts, PayloadArrays(outputPkts), coder.psrand
      ensures Valid() && Books() == Collect(old(Books()), nin, data)
    {
      hide OnAir;
      CopyIn(inputPkts[pktNum], data);
      pktNum := pktNum + 1;
      assert Rows(inputPkts[..pktNum], size) == old(Rows(inputPkts[..pktNum], size)) + [data];
      if pktNum < nin { return; }
      SendBatch();
      pktNum := 0;
    }

    /** Encodes the collected packets and sends the batch. */
    method SendBatch()
      requires Sound() && pktNum == nin
      modifies this`batchId, this`sock, this`sources
      modifies outputPkts[..nin + nout], PayloadArrays(outputPkts[..nin + nout]), coder.psrand
      ensures Sound() && sources == old(sources) + [old(Rows(inputPkts[..nin], size))]
    {
      hide OnAir, Encode, BatchOnAir, SeparateBuffers, Disjoint;
      ghost var m, draw, source := |sources|, coder.psrand.draw, Rows(inputPkts[..nin], size);
      ghost var s := Record().(sources := sources + [source]);
      var out := outputPkts[..nin + nout];
      EncodeOut(out, source);
      batchId := (batchId + 1) % 256;
      Transmit(out, s, draw, m);
      sources := sources + [source];
      OnAirGrows(s.(sources := old(sources)), draw, source);
    }

    /** Encodes the collected packets into the output buffers. */
    method EncodeOut(out: seq<Buffer>, ghost source: Matrix)
      requires Sound() && out == outputPkts[..nin + nout] && source == Rows(inputPkts[..nin], size)
      modifies out, PayloadArrays(out), coder.psrand
      ensures SeparateBuffers(out, size)
      ensures Packets(out, size) == Encode(coder.psrand.draw, batchId, nin, nout, size, source)
    {
      hide Encode, OnAir;
      var p := PayloadArrays(out);
      assert forall k :: 0 <= k < |p| ==> p[k] == PayloadArrays(outputPkts)[k];
      coder.Encode(inputPkts[..nin], out, batchId, size, nin, nout);
    }

    /** Fills in the node of every packet of a batch and hands it to the socket. */
    method Transmit(out: seq<Buffer>, ghost s: Session, ghost draw: Draws, ghost m: nat)
      requires s.Valid() && m < |s.sources| && s.node == nodeId % 256 && s.size == size
      requires |out| == s.nin + s.nout && SeparateBuffers(out, size)
      requires Packets(out, size) == Encode(draw, m % 256, s.nin, s.nout, size, s.sources[m])
      modifies out, this`sock
      ensures sock == old(sock) + BatchOnAir(s, draw, m)
    {
      hide Encode, BatchOnAir;
      ghost var pkts, air := Packets(out, size), BatchOnAir(s, draw, m);
      StampedIsSent(s, draw, m);
      for i := 0 to |out|
        invariant forall k :: i <= k < |out| ==> out[k].Contents(size) == pkts[k]
        invariant sock == old(sock) + air[..i]
      {
        out[i].hdr := out[i].hdr.(nodeId := nodeId % 256);
        assert Packet(out[i].hdr, out[i].payload[..size]) == air[i];
        sock := sock + [Packet(out[i].hdr, out[i].payload[..size])];
      }
    }
  }

  /** One more batch on the air. */
  lemma OnAirGrows(s: Session, draw: Draws, source: Matrix)
    requires s.Valid() && HasShape(source, s.nin, s.size)
    ensures var s', m := s.(sources := s.sources + [source]), |s.sources|;
            s'.Valid() && OnAir(s', draw, m + 1) == OnAir(s, draw, m) + BatchOnAir(s', draw, m)
  {
    hide OnAir, BatchOnAir;
    OnAirStays(s, draw, |s.sources|, source);
    OnAirNext(s.(sources := s.sources + [source]), draw, |s.sources|);
  }

  /** An encoded packet with the node filled in is what goes on the air. */
  lemma StampedIsSent(s: Session, draw: Draws, m: nat)
    requires s.Valid() && m < |s.sources|
    ensures var pkts := Encode(draw, m % 256, s.nin, s.nout, s.size, s.sources[m]);
            forall r :: 0 <= r < s.nin + s.nout ==>
              Packet(pkts[r].hdr.(nodeId := s.node), pkts[r].payload) == BatchOnAir(s, draw, m)[r]
  {
    hide Combination;
  }

  lemma OnAirNext(s: Session, draw: Draws, m: nat)
    requires s.Valid() && m < |s.sources|
    ensures OnAir(s, draw, m + 1) == OnAir(s, draw, m) + BatchOnAir(s, draw, m)
  {
  }

  method NewBuffers(n: nat, size: nat) returns (p: seq<Buffer>)
    ensures |p| == n && SeparateBuffers(p, size)
    ensures forall k :: 0 <= k < n ==> fresh(p[k]) && fresh(p[k].payload)
  {
    p := [];
    for i := 0 to n
      invariant |p| == i && SeparateBuffers(p, size)
      invariant forall k :: 0 <= k < i ==> fresh(p[k]) && fresh(p[k].payload)
    {
      var b := new Buffer(size);
      assert forall k :: 0 <= k < i ==> PayloadArrays(p)[k] == p[k].payload;
      p := p + [b];
    }
  }

  method CopyIn(a: array<Byte>, data: Vector)
    requires |data| <= a.Length
    modifies a
    ensures a[..] == data + old(a[|data|..])
  {
    for i := 0 to |data|
      invariant forall k :: 0 <= k < i ==> a[k] == data[k]
      invariant forall k :: i <= k < a.Length ==> a[k] == old(a[k])
    {
      a[i] := data[i];
    }
  }
}
