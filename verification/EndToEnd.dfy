/**
 Senders, channel and receiver together. The channel may drop, delay, reorder and repeat packets,
 and packets of several senders may mix. The main result: a trace of received packets falls into
 stretches of consecutive packets of one batch, and the receiver hands out one result for every
 stretch that can be decoded, when it can be decoded first. If the ids of a stretch differ up to
 then, that result is the sender's source. Hence a batch is handed out at most once exactly if no
 two stretches determine it.
 */
module EndToEnd {
  import opened GaloisField
  import opened LinearAlgebra
  import opened SharedRows
  import opened RepeatedRows
  import opened ErasureCode
  import opened Options
  import opened ReceiverModel
  import opened Stretches

  /** What a sender is constructed with, and the sources of the batches it sends. */
  datatype Session = Session(node: Octet, nin: Bits5, nout: Bits5, size: nat, sources: seq<Matrix>) {
    predicate Valid() { forall m :: 0 <= m < |sources| ==> HasShape(sources[m], nin, size) }

    /** Batch m, numbered modulo 256. */
    function BatchAt(m: nat): (b: Batch)
      requires Valid() && m < |sources|
      ensures b.Valid()
    {
      Batch(m % 256, nin, nout, size, sources[m])
    }

    /** Packet r of batch m as it goes on the air. */
    function Sent(draw: Draws, m: nat, r: nat): (p: Packet)
      requires Valid() && m < |sources|
      ensures p.payload == EncodedPacket(draw, m % 256, nin, nout, size, sources[m], r).payload
    {
      var p := EncodedPacket(draw, m % 256, nin, nout, size, sources[m], r);
      p.(hdr := p.hdr.(nodeId := node))
    }
  }

  /** The senders that a receiver hears, with one size of packets and a node number each. */
  datatype Network = Network(size: nat, senders: seq<Session>) {
    predicate Valid() {
      (forall i :: 0 <= i < |senders| ==> senders[i].Valid() && senders[i].size == size) &&
      forall i, j :: 0 <= i < j < |senders| ==> senders[i].node != senders[j].node
    }

    predicate Has(o: Origin) { o.sender < |senders| && o.batch < |senders[o.sender].sources| }

    /** The source packets of a batch. */
    function Source(o: Origin): (m: Matrix)
      requires Valid() && Has(o)
      ensures HasShape(m, senders[o.sender].nin, size)
    {
      senders[o.sender].sources[o.batch]
    }

    function BatchOf(o: Origin): (b: Batch)
      requires Valid() && Has(o)
      ensures b.Valid() && b.source == Source(o) && b.size == size && b.nin == senders[o.sender].nin
    {
      senders[o.sender].BatchAt(o.batch)
    }

    function Sent(draw: Draws, slot: Slot): Packet
      requires Valid() && Has(slot.origin)
    {
      senders[slot.origin.sender].Sent(draw, slot.origin.batch, slot.coef)
    }
  }

  predicate InBatch(w: Network, slot: Slot) {
    w.Has(slot.origin) && var s := w.senders[slot.origin.sender]; slot.coef < s.nin + s.nout
  }

  /** Packets that the senders send, in any order and number. */
  predicate InNetwork(w: Network, trace: seq<Slot>) {
    forall k :: 0 <= k < |trace| ==> InBatch(w, trace[k])
  }

  /** Two batches of one sender whose numbers agree in the low eight bits. */
  predicate Clash(o: Origin, o': Origin) {
    o != o' && o.sender == o'.sender && o.batch % 256 == o'.batch % 256
  }

  /** No two such batches follow each other directly. */
  predicate NoIdClash(trace: seq<Slot>) {
    forall k :: 0 < k < |trace| ==> !Clash(trace[k - 1].origin, trace[k].origin)
  }

  function Received(w: Network, draw: Draws, trace: seq<Slot>): (p: seq<Packet>)
    requires w.Valid() && InNetwork(w, trace)
    ensures |p| == |trace|
  {
    seq(|trace|, k requires 0 <= k < |trace| => w.Sent(draw, trace[k]))
  }

  predicate StretchOf(w: Network, x: Stretch) {
    w.Has(x.origin) && var s := w.senders[x.origin.sender]; forall k :: 0 <= k < |x.coefs| ==> x.coefs[k] < s.nin + s.nout
  }

  predicate CutOf(w: Network, cut: seq<Stretch>) {
    forall k :: 0 <= k < |cut| ==> StretchOf(w, cut[k])
  }

  lemma ExtendOf(w: Network, cut: seq<Stretch>, last: Slot)
    requires CutOf(w, cut) && InBatch(w, last)
    ensures CutOf(w, Extend(cut, last))
  {
  }

  lemma {:induction false} CutIsOf(w: Network, trace: seq<Slot>)
    requires InNetwork(w, trace)
    ensures CutOf(w, Cut(trace))
  {
    hide Extend, CutOf, InBatch;
    if trace == [] {
      NothingOf(w);
    } else {
      CutIsOf(w, trace[..|trace| - 1]);
      ExtendOf(w, Cut(trace[..|trace| - 1]), trace[|trace| - 1]);
    }
  }

  lemma NothingOf(w: Network)
    ensures CutOf(w, [])
  {
  }

  // ----- the packets of one stretch -----

  function StretchPackets(w: Network, draw: Draws, x: Stretch): (p: seq<Packet>)
    requires w.Valid() && StretchOf(w, x)
    ensures |p| == |x.coefs|
  {
    seq(|x.coefs|, k requires 0 <= k < |x.coefs| => w.Sent(draw, Slot(x.origin, x.coefs[k])))
  }

  /** What comes out of the stretch: the result of the first attempt to decode that succeeds. */
  function FirstDecode(w: Network, draw: Draws, x: Stretch): Option<Matrix>
    requires w.Valid() && StretchOf(w, x)
    decreases |x.coefs|
  {
    if x.coefs == [] then None
    else
      var earlier := FirstDecode(w, draw, x.Before());
      if earlier.Some? then earlier else TryDecode(draw, StretchPackets(w, draw, x), w.size)
  }

  predicate Determined(w: Network, draw: Draws, x: Stretch)
    requires w.Valid() && StretchOf(w, x)
  {
    FirstDecode(w, draw, x).Some?
  }

  /** No coefficient id repeats before the stretch is decoded. What comes later is ignored. */
  predicate Fresh(w: Network, draw: Draws, x: Stretch)
    requires w.Valid() && StretchOf(w, x)
    decreases |x.coefs|
  {
    x.coefs == [] ||
    (Fresh(w, draw, x.Before()) && (Determined(w, draw, x.Before()) || Different(x.coefs)))
  }

  predicate AllFresh(w: Network, draw: Draws, cut: seq<Stretch>)
    requires w.Valid() && CutOf(w, cut)
  {
    forall k :: 0 <= k < |cut| ==> Fresh(w, draw, cut[k])
  }

  lemma SentHeader(w: Network, draw: Draws, slot: Slot)
    requires w.Valid() && InBatch(w, slot)
    ensures var s, o := w.senders[slot.origin.sender], slot.origin;
            w.Sent(draw, slot).hdr == Header(s.node, o.batch % 256, slot.coef, s.nin, s.nout)
  {
    hide Combination;
  }

  lemma SentBelongs(w: Network, draw: Draws, slot: Slot)
    requires w.Valid() && InBatch(w, slot)
    ensures IsPacketOf(draw, w.Sent(draw, slot), w.BatchOf(slot.origin)) && |w.Sent(draw, slot).payload| == w.size
  {
    hide Combination;
  }

  lemma PacketsBelong(w: Network, draw: Draws, x: Stretch)
    requires w.Valid() && StretchOf(w, x)
    ensures var p, s := StretchPackets(w, draw, x), w.senders[x.origin.sender];
            AllPacketsOf(draw, p, w.BatchOf(x.origin)) && CoefIds(p) == x.coefs &&
            (p != [] ==> WellFormed(Untouched(s.nin), p, w.size) && p[0].hdr.nin == s.nin && p[0].hdr.nout == s.nout)
  {
    hide IsPacketOf, Network.Sent, Network.BatchOf;
    var p, s := StretchPackets(w, draw, x), w.senders[x.origin.sender];
    forall k | 0 <= k < |p|
      ensures IsPacketOf(draw, p[k], w.BatchOf(x.origin)) && |p[k].payload| == w.size && p[k].hdr.coefId == x.coefs[k]
      ensures p[k].hdr.nin == s.nin && p[k].hdr.nout == s.nout
    {
      SentBelongs(w, draw, Slot(x.origin, x.coefs[k]));
      SentHeader(w, draw, Slot(x.origin, x.coefs[k]));
    }
  }

  lemma TryDecodeIs(w: Network, draw: Draws, x: Stretch)
    requires w.Valid() && StretchOf(w, x) && x.coefs != []
    ensures var p, s := StretchPackets(w, draw, x), w.senders[x.origin.sender];
            WellFormed(Untouched(s.nin), p, w.size) &&
            TryDecode(draw, p, w.size) == Decode(draw, Untouched(s.nin), p, w.size)
  {
    hide Decode, IsPacketOf, StretchPackets, Network.BatchOf;
    PacketsBelong(w, draw, x);
  }

  /** An attempt on fewer than nin packets fails, so the count test before it loses nothing. */
  lemma TooFewReceived(w: Network, draw: Draws, x: Stretch)
    requires w.Valid() && StretchOf(w, x) && |x.coefs| < w.senders[x.origin.sender].nin
    ensures TryDecode(draw, StretchPackets(w, draw, x), w.size).None?
  {
    hide Decode, IsPacketOf, StretchPackets, Untouched, Network.BatchOf;
    if x.coefs != [] {
      var p := StretchPackets(w, draw, x);
      PacketsBelong(w, draw, x);
      TryDecodeIs(w, draw, x);
      IdSetSize(CoefIds(p));
      TooFewPackets(draw, Untouched(w.senders[x.origin.sender].nin), p, w.size);
    }
  }

  /** Decoding packets with different ids gives the source of their batch. */
  lemma DifferentDecodes(w: Network, draw: Draws, x: Stretch)
    requires w.Valid() && StretchOf(w, x) && Different(x.coefs)
    ensures var y := TryDecode(draw, StretchPackets(w, draw, x), w.size);
            y.Some? ==> y.value == w.Source(x.origin)
  {
    hide Decode, IsPacketOf, StretchPackets, Untouched, Different;
    if x.coefs != [] {
      var p := StretchPackets(w, draw, x);
      PacketsBelong(w, draw, x);
      TryDecodeIs(w, draw, x);
      RoundTrip(draw, Untouched(w.senders[x.origin.sender].nin), p, w.BatchOf(x.origin));
    }
  }

  /** What comes out of a stretch is the sender's source. */
  lemma {:induction false} FreshIsRight(w: Network, draw: Draws, x: Stretch)
    requires w.Valid() && StretchOf(w, x) && Fresh(w, draw, x)
    ensures Determined(w, draw, x) ==> FirstDecode(w, draw, x).value == w.Source(x.origin)
    decreases |x.coefs|
  {
    hide TryDecode, StretchPackets, Different;
    if x.coefs != [] {
      FreshIsRight(w, draw, x.Before());
      if !Determined(w, draw, x.Before()) { DifferentDecodes(w, draw, x); }
    }
  }

  // ----- determined means determined -----

  /** More packets with different ids: what decoded keeps decoding. */
  lemma DecodableStays(w: Network, draw: Draws, x: Stretch)
    requires w.Valid() && StretchOf(w, x) && Different(x.coefs) && x.coefs != []
    requires TryDecode(draw, StretchPackets(w, draw, x.Before()), w.size).Some?
    ensures TryDecode(draw, StretchPackets(w, draw, x), w.size).Some?
  {
    hide Decode, IsPacketOf, Untouched, Network.Sent, Network.BatchOf;
    var y := x.Before();
    var p, q := StretchPackets(w, draw, y), StretchPackets(w, draw, x);
    PacketsBelong(w, draw, x);
    PacketsBelong(w, draw, y);
    TryDecodeIs(w, draw, x);
    TryDecodeIs(w, draw, y);
    forall k, l | 0 <= k < l < |y.coefs| ensures y.coefs[k] != y.coefs[l] { assert x.coefs[k] != x.coefs[l]; }
    forall k | 0 <= k < |p| ensures HasCoef(q, p[k].hdr.coefId) { assert q[k] == p[k]; }
    MorePacketsStillDecode(draw, Untouched(w.senders[x.origin.sender].nin), p, q, w.BatchOf(x.origin));
  }

  lemma DifferentPrefix(ids: seq<nat>)
    requires ids != [] && Different(ids)
    ensures Different(ids[..|ids| - 1])
  {
  }

  /** With different ids, a stretch has been decoded exactly if all its packets together decode. */
  lemma {:induction false} DeterminedIsDecodable(w: Network, draw: Draws, x: Stretch)
    requires w.Valid() && StretchOf(w, x) && Different(x.coefs)
    ensures Determined(w, draw, x) <==> TryDecode(draw, StretchPackets(w, draw, x), w.size).Some?
    decreases |x.coefs|
  {
    hide TryDecode, StretchPackets, Different;
    if x.coefs == [] {
      NothingDecodes(w, draw, x);
    } else {
      DifferentPrefix(x.coefs);
      DeterminedIsDecodable(w, draw, x.Before());
      if Determined(w, draw, x.Before()) { DecodableStays(w, draw, x); }
    }
  }

  lemma NothingDecodes(w: Network, draw: Draws, x: Stretch)
    requires w.Valid() && StretchOf(w, x) && x.coefs == []
    ensures StretchPackets(w, draw, x) == [] && TryDecode(draw, StretchPackets(w, draw, x), w.size).None?
  {
  }

  /** Determined means what it says: no other source of that shape gives the packets received. */
  lemma DeterminedIffUnambiguous(w: Network, draw: Draws, x: Stretch)
    requires w.Valid() && StretchOf(w, x) && Different(x.coefs) && w.senders[x.origin.sender].nin >= 1 && w.size >= 1
    ensures var p, b := StretchPackets(w, draw, x), w.BatchOf(x.origin);
            Determined(w, draw, x) <==>
            !exists other: Matrix :: other != b.source && b.(source := other).Valid() &&
               AllPacketsOf(draw, p, b.(source := other))
  {
    hide Decode, IsPacketOf, StretchPackets, Untouched, Different, Determined;
    var p, b := StretchPackets(w, draw, x), w.BatchOf(x.origin);
    DeterminedIsDecodable(w, draw, x);
    if p == [] {
      var first := b.source[0];
      var other := b.source[0 := first[0 := Add(first[0], 1)]];
      AddZeroEqual(Add(first[0], 1), first[0]);
      assert other[0][0] != b.source[0][0];
      assert b.(source := other).Valid() && AllPacketsOf(draw, p, b.(source := other));
    } else {
      PacketsBelong(w, draw, x);
      TryDecodeIs(w, draw, x);
      FailsIffAmbiguous(draw, Untouched(b.nin), p, b);
    }
  }

  // ----- what is handed out -----

  /** The batches of the stretches that are decoded, oldest first. */
  function HandedOut(w: Network, draw: Draws, cut: seq<Stretch>): (ids: seq<Origin>)
    requires w.Valid() && CutOf(w, cut)
    ensures forall i :: 0 <= i < |ids| ==> w.Has(ids[i])
  {
    if cut == [] then []
    else
      var rest, x := HandedOut(w, draw, cut[..|cut| - 1]), cut[|cut| - 1];
      if Determined(w, draw, x) then rest + [x.origin] else rest
  }

  /** What comes out of these stretches. */
  function Results(w: Network, draw: Draws, cut: seq<Stretch>): (out: seq<Matrix>)
    requires w.Valid() && CutOf(w, cut)
  {
    if cut == [] then []
    else
      var rest, y := Results(w, draw, cut[..|cut| - 1]), FirstDecode(w, draw, cut[|cut| - 1]);
      if y.Some? then rest + [y.value] else rest
  }

  function Sources(w: Network, ids: seq<Origin>): seq<Matrix>
    requires w.Valid() && forall i :: 0 <= i < |ids| ==> w.Has(ids[i])
  {
    seq(|ids|, i requires 0 <= i < |ids| => w.Source(ids[i]))
  }

  /** As long as ids differ, the results are the sources of the batches handed out. */
  lemma {:induction false} ResultsAreSources(w: Network, draw: Draws, cut: seq<Stretch>)
    requires w.Valid() && CutOf(w, cut) && AllFresh(w, draw, cut)
    ensures Results(w, draw, cut) == Sources(w, HandedOut(w, draw, cut))
  {
    hide FirstDecode, Fresh;
    if cut != [] {
      ResultsAreSources(w, draw, cut[..|cut| - 1]);
      FreshIsRight(w, draw, cut[|cut| - 1]);
    }
  }

  /** The stretch that the packet goes on with, or a new one. */
  function Current(cut: seq<Stretch>, o: Origin): Stretch {
    if cut != [] && cut[|cut| - 1].origin == o then cut[|cut| - 1] else Stretch(o, [])
  }

  lemma NothingDetermined(w: Network, draw: Draws, o: Origin)
    requires w.Valid() && w.Has(o)
    ensures !Determined(w, draw, Stretch(o, [])) && StretchPackets(w, draw, Stretch(o, [])) == []
  {
  }

  lemma ExtendCurrent(cut: seq<Stretch>, last: Slot)
    ensures var next, x := Extend(cut, last), Current(cut, last.origin);
            next != [] && next[|next| - 1] == x.(coefs := x.coefs + [last.coef]) && next[|next| - 1].Before() == x &&
            next[..|next| - 1] == if x.coefs == [] && !EndsWith(cut, last.origin) then cut else cut[..|cut| - 1]
  {
    var x := Current(cut, last.origin);
    assert (x.coefs + [last.coef])[..|x.coefs|] == x.coefs;
  }

  /** One more packet: a result is added exactly if the current stretch is decoded now and was not before. */
  lemma ResultsExtend(w: Network, draw: Draws, cut: seq<Stretch>, last: Slot)
    requires w.Valid() && CutOf(w, cut) && CutOf(w, Extend(cut, last)) && StretchOf(w, Current(cut, last.origin))
    ensures var next := Extend(cut, last);
            var y := FirstDecode(w, draw, next[|next| - 1]);
            Results(w, draw, next) ==
            if y.Some? && !Determined(w, draw, Current(cut, last.origin)) then Results(w, draw, cut) + [y.value]
            else Results(w, draw, cut)
  {
    hide TryDecode, StretchPackets;
    ExtendCurrent(cut, last);
    NothingDetermined(w, draw, last.origin);
    var next := Extend(cut, last);
    var now := next[|next| - 1];
    assert FirstDecode(w, draw, now.Before()).Some? ==> FirstDecode(w, draw, now) == FirstDecode(w, draw, now.Before());
  }

  // ----- the run -----

  /** What holds between packets: the state describes the current stretch. */
  ghost predicate Describes(st: State, w: Network, draw: Draws, cut: seq<Stretch>)
    requires w.Valid() && CutOf(w, cut)
  {
    if cut == [] then st == INITIAL
    else
      var x := cut[|cut| - 1];
      st.node == w.senders[x.origin.sender].node && st.batch == x.origin.batch % 256 &&
      st.decoded == Determined(w, draw, x) && (!st.decoded ==> st.pkts == StretchPackets(w, draw, x))
  }

  predicate NoClashWith(cut: seq<Stretch>, o: Origin) {
    cut != [] ==> !Clash(cut[|cut| - 1].origin, o)
  }

  /** After the switches, the state is about the stretch that the packet belongs to. */
  lemma Switched(st: State, w: Network, draw: Draws, cut: seq<Stretch>, last: Slot)
    requires w.Valid() && CutOf(w, cut) && Describes(st, w, draw, cut) && NoClashWith(cut, last.origin) && InBatch(w, last)
    ensures var x := Current(cut, last.origin);
            var st' := Switch(st, w.Sent(draw, last).hdr);
            StretchOf(w, x) && st'.node == w.senders[last.origin.sender].node && st'.batch == last.origin.batch % 256 &&
            st'.decoded == Determined(w, draw, x) && (!st'.decoded ==> st'.pkts == StretchPackets(w, draw, x))
  {
    hide Determined, StretchPackets, Remember, Network.Sent;
    SentHeader(w, draw, last);
    NothingDetermined(w, draw, last.origin);
    if cut != [] && cut[|cut| - 1].origin.sender != last.origin.sender {
      assert w.senders[cut[|cut| - 1].origin.sender].node != w.senders[last.origin.sender].node;
    }
  }

  /** The packets of a stretch that goes on. */
  lemma PacketsExtend(w: Network, draw: Draws, x: Stretch, last: Slot)
    requires w.Valid() && StretchOf(w, x) && InBatch(w, last) && last.origin == x.origin
    ensures var now := x.(coefs := x.coefs + [last.coef]);
            StretchOf(w, now) && now.Before() == x &&
            StretchPackets(w, draw, now) == StretchPackets(w, draw, x) + [w.Sent(draw, last)] &&
            FirstDecode(w, draw, now) == if Determined(w, draw, x) then FirstDecode(w, draw, x)
                                         else TryDecode(draw, StretchPackets(w, draw, now), w.size)
  {
    hide TryDecode, Network.Sent;
    var now := x.(coefs := x.coefs + [last.coef]);
    assert now.coefs[..|now.coefs| - 1] == x.coefs;
  }

  /** One packet: the state stays a description, and what is handed out is what the trace's stretches
      give. */
  lemma StepDescribes(st: State, w: Network, draw: Draws, cut: seq<Stretch>, last: Slot)
    requires w.Valid() && CutOf(w, cut) && CutOf(w, Extend(cut, last)) && Describes(st, w, draw, cut)
    requires InBatch(w, last) && NoClashWith(cut, last.origin)
    ensures var (st', y) := Step(draw, w.size, st, w.Sent(draw, last));
            Describes(st', w, draw, Extend(cut, last)) &&
            Results(w, draw, Extend(cut, last))
            == if y.Some? then Results(w, draw, cut) + [y.value] else Results(w, draw, cut)
  {
    hide Switch, TryDecode, Network.Sent, Results, StretchPackets, FirstDecode, InBatch, Extend;
    var next := Extend(cut, last);
    var x := Current(cut, last.origin);
    SentHeader(w, draw, last);
    SentBelongs(w, draw, last);
    Switched(st, w, draw, cut, last);
    ResultsExtend(w, draw, cut, last);
    ExtendCurrent(cut, last);
    PacketsExtend(w, draw, x, last);
    var now := next[|next| - 1];
    if |now.coefs| < w.senders[last.origin.sender].nin { TooFewReceived(w, draw, now); }
  }

  lemma NoClashAtEnd(trace: seq<Slot>)
    requires NoIdClash(trace) && trace != []
    ensures NoClashWith(Cut(trace[..|trace| - 1]), trace[|trace| - 1].origin)
  {
    CutMaximal(trace[..|trace| - 1]);
  }

  /** Every run, whatever was dropped, delayed, reordered or repeated: the receiver hands out one result
      for every stretch that can be decoded, in the order of the stretches. */
  lemma {:induction false} Delivers(w: Network, draw: Draws, trace: seq<Slot>)
    requires w.Valid() && InNetwork(w, trace) && NoIdClash(trace)
    ensures CutOf(w, Cut(trace))
    ensures var (st, out) := Run(draw, w.size, INITIAL, Received(w, draw, trace));
            Describes(st, w, draw, Cut(trace)) && out == Results(w, draw, Cut(trace))
  {
    hide Step, Determined, StretchPackets, FirstDecode, Extend, Network.Sent, NoClashWith, InBatch;
    CutIsOf(w, trace);
    if trace != [] {
      var before, last := trace[..|trace| - 1], trace[|trace| - 1];
      var stream := Received(w, draw, trace);
      assert stream[..|stream| - 1] == Received(w, draw, before);
      CutIsOf(w, before);
      Delivers(w, draw, before);
      NoClashAtEnd(trace);
      StepDescribes(Run(draw, w.size, INITIAL, Received(w, draw, before)).0, w, draw, Cut(before), last);
    }
  }

  /** As long as no id repeats before its stretch is decoded, these results are the senders' source
      packets, in order. */
  lemma {:induction false} DeliversSources(w: Network, draw: Draws, trace: seq<Slot>)
    requires w.Valid() && InNetwork(w, trace) && NoIdClash(trace) && CutOf(w, Cut(trace)) && AllFresh(w, draw, Cut(trace))
    ensures Run(draw, w.size, INITIAL, Received(w, draw, trace)).1 == Sources(w, HandedOut(w, draw, Cut(trace)))
  {
    hide Run, Results, HandedOut, AllFresh, Describes;
    Delivers(w, draw, trace);
    ResultsAreSources(w, draw, Cut(trace));
  }

  // ----- at most once -----

  predicate NoneTwice(ids: seq<Origin>) {
    forall i, j :: 0 <= i < j < |ids| ==> ids[i] != ids[j]
  }

  lemma {:induction false} HandedOutMembers(w: Network, draw: Draws, cut: seq<Stretch>, o: Origin)
    requires w.Valid() && CutOf(w, cut)
    ensures o in HandedOut(w, draw, cut) <==> exists k :: 0 <= k < |cut| && cut[k].origin == o && Determined(w, draw, cut[k])
  {
    hide Determined;
    if cut != [] {
      var before := cut[..|cut| - 1];
      HandedOutMembers(w, draw, before, o);
      if k :| 0 <= k < |before| && before[k].origin == o && Determined(w, draw, before[k]) {
        assert cut[k] == before[k];
      }
      if k :| 0 <= k < |cut| && cut[k].origin == o && Determined(w, draw, cut[k]) {
        if k < |before| { assert before[k] == cut[k]; }
      }
    }
  }

  /** No batch is determined by two stretches. */
  predicate DeterminedOnce(w: Network, draw: Draws, cut: seq<Stretch>)
    requires w.Valid() && CutOf(w, cut)
  {
    forall k, l :: 0 <= k < l < |cut| && cut[k].origin == cut[l].origin ==>
      !Determined(w, draw, cut[k]) || !Determined(w, draw, cut[l])
  }

  lemma {:induction false} HandedOutOnceIff(w: Network, draw: Draws, cut: seq<Stretch>)
    requires w.Valid() && CutOf(w, cut)
    ensures NoneTwice(HandedOut(w, draw, cut)) <==> DeterminedOnce(w, draw, cut)
  {
    hide Determined, NoneTwice;
    if cut == [] {
      assert NoneTwice([]) by { NoneInNothing(); }
    } else {
      var before, x := cut[..|cut| - 1], cut[|cut| - 1];
      HandedOutOnceIff(w, draw, before);
      HandedOutMembers(w, draw, before, x.origin);
      NoneTwiceAppend(HandedOut(w, draw, before), x.origin);
      DeterminedOnceAppend(w, draw, before, x);
      assert cut == before + [x];
    }
  }

  lemma NoneInNothing()
    ensures NoneTwice([])
  {
  }

  lemma NoneTwiceAppend(ids: seq<Origin>, o: Origin)
    ensures NoneTwice(ids + [o]) <==> NoneTwice(ids) && o !in ids
  {
    var more := ids + [o];
    assert forall k :: 0 <= k < |ids| ==> more[k] == ids[k];
    if NoneTwice(more) {
      forall k | 0 <= k < |ids| ensures ids[k] != o { assert more[k] != more[|ids|]; }
      forall k, l | 0 <= k < l < |ids| ensures ids[k] != ids[l] { assert more[k] != more[l]; }
    }
  }

  lemma {:induction false} DeterminedOnceAppend(w: Network, draw: Draws, cut: seq<Stretch>, x: Stretch)
    requires w.Valid() && CutOf(w, cut) && StretchOf(w, x)
    ensures CutOf(w, cut + [x])
    ensures DeterminedOnce(w, draw, cut + [x]) <==>
            DeterminedOnce(w, draw, cut) && (Determined(w, draw, x) ==>
              forall k :: 0 <= k < |cut| && cut[k].origin == x.origin ==> !Determined(w, draw, cut[k]))
  {
    hide Determined;
    var next := cut + [x];
    assert forall k :: 0 <= k < |cut| ==> next[k] == cut[k];
    assert next[|cut|] == x;
    if DeterminedOnce(w, draw, next) {
      forall k, l | 0 <= k < l < |cut| && cut[k].origin == cut[l].origin
        ensures !Determined(w, draw, cut[k]) || !Determined(w, draw, cut[l])
      {
        assert next[k].origin == next[l].origin;
      }
      forall k | 0 <= k < |cut| && cut[k].origin == x.origin && Determined(w, draw, x)
        ensures !Determined(w, draw, cut[k])
      {
        assert next[k].origin == next[|cut|].origin;
      }
    }
  }

  /** Delivery at most once, exactly: no batch is handed out twice if and only if no batch is
      determined by two different stretches of the received packets. */
  lemma {:induction false} AtMostOnceIff(w: Network, draw: Draws, trace: seq<Slot>)
    requires w.Valid() && InNetwork(w, trace) && NoIdClash(trace)
    ensures CutOf(w, Cut(trace))
    ensures var cut := Cut(trace);
            Run(draw, w.size, INITIAL, Received(w, draw, trace)).1 == Results(w, draw, cut) &&
            (AllFresh(w, draw, cut) ==> Results(w, draw, cut) == Sources(w, HandedOut(w, draw, cut))) &&
            (NoneTwice(HandedOut(w, draw, cut)) <==> DeterminedOnce(w, draw, cut))
  {
    hide Run, HandedOut, DeterminedOnce, NoneTwice, AllFresh, Results, Describes;
    Delivers(w, draw, trace);
    HandedOutOnceIff(w, draw, Cut(trace));
    if AllFresh(w, draw, Cut(trace)) { ResultsAreSources(w, draw, Cut(trace)); }
  }

  // ----- channels that keep batches together -----

  /** What a channel may deliver that drops packets, and reorders them within a batch at most. */
  predicate Delivery(w: Network, trace: seq<Slot>) {
    InNetwork(w, trace) && Grouped(trace) && NoRepeats(trace)
  }

  lemma {:induction false} DifferentIsFresh(w: Network, draw: Draws, x: Stretch)
    requires w.Valid() && StretchOf(w, x) && Different(x.coefs)
    ensures Fresh(w, draw, x)
    decreases |x.coefs|
  {
    hide Determined, Different;
    if x.coefs != [] {
      DifferentPrefix(x.coefs);
      DifferentIsFresh(w, draw, x.Before());
    }
  }

  lemma {:induction false} DeliveryIsFresh(w: Network, draw: Draws, trace: seq<Slot>)
    requires w.Valid() && Delivery(w, trace)
    ensures CutOf(w, Cut(trace)) && AllFresh(w, draw, Cut(trace))
    ensures forall k :: 0 <= k < |Cut(trace)| ==> Different(Cut(trace)[k].coefs)
  {
    hide Different, Apart, Cut, Gathered, Fresh;
    CutIsOf(w, trace);
    GroupedApart(trace);
    var cut := Cut(trace);
    forall k | 0 <= k < |cut| ensures Different(cut[k].coefs) && Fresh(w, draw, cut[k]) {
      CoefsDifferent(trace, cut[k].origin);
      GatheredIsCoefs(trace, cut[k].origin);
      GatheredApart(cut, cut[k].origin);
      DifferentIsFresh(w, draw, cut[k]);
    }
  }

  lemma {:induction false} CoefsInRange(w: Network, trace: seq<Slot>, o: Origin)
    requires InNetwork(w, trace) && w.Has(o)
    ensures StretchOf(w, Stretch(o, Coefs(trace, o)))
  {
    if trace != [] { CoefsInRange(w, trace[..|trace| - 1], o); }
  }

  /** If the channel keeps the packets of a batch together, the receiver hands out exactly the batches
      that all their received packets determine, each once, with the senders' source packets. */
  lemma {:induction false} DeliversOnce(w: Network, draw: Draws, trace: seq<Slot>)
    requires w.Valid() && Delivery(w, trace) && NoIdClash(trace)
    ensures CutOf(w, Cut(trace))
    ensures var ids := HandedOut(w, draw, Cut(trace));
            Run(draw, w.size, INITIAL, Received(w, draw, trace)).1 == Sources(w, ids) && NoneTwice(ids) &&
            forall o: Origin :: w.Has(o) ==>
              StretchOf(w, Stretch(o, Coefs(trace, o))) && (o in ids <==> Determined(w, draw, Stretch(o, Coefs(trace, o))))
  {
    hide Run, Determined, Coefs, HandedOut, Cut, Gathered, AllFresh, NoneTwice, Grouped;
    var cut := Cut(trace);
    DeliveryIsFresh(w, draw, trace);
    DeliversSources(w, draw, trace);
    GroupedApart(trace);
    HandedOutOnceIff(w, draw, cut);
    forall o: Origin | w.Has(o)
      ensures StretchOf(w, Stretch(o, Coefs(trace, o)))
      ensures o in HandedOut(w, draw, cut) <==> Determined(w, draw, Stretch(o, Coefs(trace, o)))
    {
      CoefsInRange(w, trace, o);
      HandedOutMembers(w, draw, cut, o);
      NothingDetermined(w, draw, o);
      GatheredIsCoefs(trace, o);
      GatheredApart(cut, o);
      if k :| 0 <= k < |cut| && cut[k].origin == o {
        assert cut[k] == Stretch(o, Coefs(trace, o));
        forall l | 0 <= l < |cut| && cut[l].origin == o ensures l == k {}
      }
    }
  }

  predicate Ascending(ids: seq<Origin>) {
    forall i, j :: 0 <= i < j < |ids| ==> ids[i].batch < ids[j].batch
  }

  /** Stretches in order are handed out in order. */
  lemma {:induction false} HandedOutAscending(w: Network, draw: Draws, cut: seq<Stretch>)
    requires w.Valid() && CutOf(w, cut) && Increasing(cut)
    ensures Ascending(HandedOut(w, draw, cut))
    ensures forall i :: 0 <= i < |HandedOut(w, draw, cut)| ==>
              cut != [] && HandedOut(w, draw, cut)[i].batch <= cut[|cut| - 1].origin.batch
  {
    hide Determined;
    if cut != [] {
      var before, x := cut[..|cut| - 1], cut[|cut| - 1];
      HandedOutAscending(w, draw, before);
      var rest, ids := HandedOut(w, draw, before), HandedOut(w, draw, cut);
      forall i | 0 <= i < |rest| ensures rest[i].batch < x.origin.batch {
        assert rest[i].batch <= before[|before| - 1].origin.batch == cut[|before| - 1].origin.batch;
      }
      assert ids == if Determined(w, draw, x) then rest + [x.origin] else rest;
    }
  }

  // ----- capacity -----

  lemma StretchFits(w: Network, draw: Draws, x: Stretch)
    requires w.Valid() && StretchOf(w, x) && Different(x.coefs) && x.coefs != []
    ensures Fits(StretchPackets(w, draw, x))
  {
    hide StretchPackets, Different, IsPacketOf, Fits;
    PacketsBelong(w, draw, x);
    var p := StretchPackets(w, draw, x);
    assert forall k :: 0 <= k < |p| ==> CoefIds(p)[k] == p[k].hdr.coefId;
    DifferentIdsFit(p);
  }

  /** The next packet of a stretch fits, if it is the last one of a stretch with fresh ids. */
  lemma AcceptableNext(st: State, w: Network, draw: Draws, cut: seq<Stretch>, last: Slot)
    requires w.Valid() && CutOf(w, cut) && CutOf(w, Extend(cut, last)) && Describes(st, w, draw, cut)
    requires InBatch(w, last) && NoClashWith(cut, last.origin) && AllFresh(w, draw, Extend(cut, last))
    ensures Acceptable(w.size, st, w.Sent(draw, last))
  {
    hide Switch, Determined, Different, Network.Sent, Fits, StretchPackets, Extend;
    var next, x := Extend(cut, last), Current(cut, last.origin);
    Switched(st, w, draw, cut, last);
    ExtendCurrent(cut, last);
    PacketsExtend(w, draw, x, last);
    var now := next[|next| - 1];
    assert Fresh(w, draw, now);
    if !Determined(w, draw, x) { StretchFits(w, draw, now); }
  }

  lemma FreshBefore(w: Network, draw: Draws, cut: seq<Stretch>, last: Slot)
    requires w.Valid() && CutOf(w, cut) && CutOf(w, Extend(cut, last)) && AllFresh(w, draw, Extend(cut, last))
    ensures AllFresh(w, draw, cut)
  {
    hide Determined, Different;
    var next := Extend(cut, last);
    ExtendCurrent(cut, last);
    assert Fresh(w, draw, next[|next| - 1]);
    forall k | 0 <= k < |cut| ensures Fresh(w, draw, cut[k]) {
      if k < |next| - 1 { assert next[k] == cut[k]; } else { assert cut[k] == next[k].Before(); }
    }
  }

  lemma {:induction false} FreshInPrefix(w: Network, draw: Draws, trace: seq<Slot>, k: nat)
    requires w.Valid() && InNetwork(w, trace) && CutOf(w, Cut(trace)) && AllFresh(w, draw, Cut(trace)) && k <= |trace|
    ensures CutOf(w, Cut(trace[..k])) && AllFresh(w, draw, Cut(trace[..k]))
    decreases |trace|
  {
    hide AllFresh, Extend, InBatch;
    if k < |trace| {
      var before := trace[..|trace| - 1];
      CutIsOf(w, before);
      FreshBefore(w, draw, Cut(before), trace[|trace| - 1]);
      FreshInPrefix(w, draw, before, k);
      assert before[..k] == trace[..k];
    } else {
      assert trace[..k] == trace;
    }
  }

  lemma {:induction false} AcceptableAtEnd(w: Network, draw: Draws, trace: seq<Slot>)
    requires w.Valid() && InNetwork(w, trace) && NoIdClash(trace) && CutOf(w, Cut(trace)) && AllFresh(w, draw, Cut(trace))
    requires trace != []
    ensures var before, last := trace[..|trace| - 1], trace[|trace| - 1];
            Acceptable(w.size, Run(draw, w.size, INITIAL, Received(w, draw, before)).0, w.Sent(draw, last))
  {
    hide Run, Acceptable, Describes, AllFresh, NoClashWith, Extend, Network.Sent, Results;
    var before, last := trace[..|trace| - 1], trace[|trace| - 1];
    Delivers(w, draw, before);
    NoClashAtEnd(trace);
    AcceptableNext(Run(draw, w.size, INITIAL, Received(w, draw, before)).0, w, draw, Cut(before), last);
  }

  /** The receiver can hold what arrives, as long as no id repeats before its stretch is decoded. */
  lemma {:induction false} FreshIsAcceptable(w: Network, draw: Draws, trace: seq<Slot>)
    requires w.Valid() && InNetwork(w, trace) && NoIdClash(trace) && CutOf(w, Cut(trace)) && AllFresh(w, draw, Cut(trace))
    ensures AllAcceptable(draw, w.size, INITIAL, Received(w, draw, trace))
  {
    hide Run, Acceptable, AllFresh, Network.Sent, Cut, InBatch;
    var stream := Received(w, draw, trace);
    forall k | 0 <= k < |stream|
      ensures Acceptable(w.size, Run(draw, w.size, INITIAL, stream[..k]).0, stream[k])
    {
      var now := trace[..k + 1];
      FreshInPrefix(w, draw, trace, k + 1);
      AcceptableAtEnd(w, draw, now);
      assert now[..|now| - 1] == trace[..k];
      assert stream[..k] == Received(w, draw, trace[..k]);
    }
  }

  // ----- what happens when a batch is interrupted -----

  lemma {:induction false} ResultsConcat(w: Network, draw: Draws, c: seq<Stretch>, d: seq<Stretch>)
    requires w.Valid() && CutOf(w, c) && CutOf(w, d)
    ensures CutOf(w, c + d) && Results(w, draw, c + d) == Results(w, draw, c) + Results(w, draw, d)
    decreases |d|
  {
    hide FirstDecode;
    if d == [] {
      assert c + d == c;
    } else {
      var d' := d[..|d| - 1];
      ResultsConcat(w, draw, c, d');
      assert (c + d)[..|c + d| - 1] == c + d';
    }
  }

  lemma ResultsOne(w: Network, draw: Draws, x: Stretch)
    requires w.Valid() && StretchOf(w, x)
    ensures var y := FirstDecode(w, draw, x);
            CutOf(w, [x]) && Results(w, draw, [x]) == if y.Some? then [y.value] else []
  {
    hide FirstDecode;
  }

  /** A stretch that contains the nin systematic packets determines its batch. */
  lemma SystematicDetermine(w: Network, draw: Draws, x: Stretch)
    requires w.Valid() && StretchOf(w, x) && Different(x.coefs) && x.coefs != []
    requires forall r: nat :: r < w.senders[x.origin.sender].nin ==> r in x.coefs
    ensures Determined(w, draw, x)
  {
    hide Decode, Different, StretchPackets, Untouched, IsPacketOf, Determined, Network.BatchOf;
    var p, nin := StretchPackets(w, draw, x), w.senders[x.origin.sender].nin;
    PacketsBelong(w, draw, x);
    TryDecodeIs(w, draw, x);
    forall r: nat | r < nin
      ensures HasCoef(p, r)
    {
      assert r in x.coefs;
      var k :| 0 <= k < |x.coefs| && x.coefs[k] == r;
      assert CoefIds(p)[k] == r;
    }
    SystematicPacketsDecode(draw, Untouched(nin), p, w.BatchOf(x.origin));
    DeterminedIsDecodable(w, draw, x);
  }

  /** Interrupted batches are repeated: if enough packets of a batch to determine it arrive, then packets
      of other batches or of other senders, and then again enough packets of it, the batch is handed
      out a second time. */
  lemma {:induction false} LatePacketsRepeatBatch(w: Network, draw: Draws, x: Stretch, b: seq<Slot>, y: Stretch)
    requires w.Valid() && StretchOf(w, x) && StretchOf(w, y) && x.origin == y.origin && InNetwork(w, b) && b != []
    requires Determined(w, draw, x) && Determined(w, draw, y) && Fresh(w, draw, x) && Fresh(w, draw, y)
    requires b[0].origin != x.origin && b[|b| - 1].origin != x.origin && NoIdClash(Slots(x) + b + Slots(y))
    ensures InNetwork(w, Slots(x) + b + Slots(y)) && CutOf(w, Cut(b))
    ensures Run(draw, w.size, INITIAL, Received(w, draw, Slots(x) + b + Slots(y))).1
         == [w.Source(x.origin)] + Results(w, draw, Cut(b)) + [w.Source(x.origin)]
  {
    hide Run, FirstDecode, Results, Cut, Fresh, NoIdClash, Describes;
    var trace := Slots(x) + b + Slots(y);
    var cut := Cut(b);
    NothingDetermined(w, draw, x.origin);
    CutIsOf(w, b);
    CutSlots(x);
    CutSlots(y);
    CutConcat(Slots(x), b);
    CutConcat(Slots(x) + b, Slots(y));
    assert Cut(trace) == [x] + cut + [y];
    Delivers(w, draw, trace);
    FreshIsRight(w, draw, x);
    FreshIsRight(w, draw, y);
    ResultsOne(w, draw, x);
    ResultsOne(w, draw, y);
    ResultsConcat(w, draw, [x], cut);
    ResultsConcat(w, draw, [x] + cut, [y]);
  }

  // ----- what happens when batch numbers clash -----

  /** n different numbers below n are all of them. */
  lemma AllBelow(ids: seq<nat>, n: nat, r: nat)
    requires Different(ids) && |ids| == n && r < n && forall k :: 0 <= k < |ids| ==> ids[k] < n
    ensures r in ids
  {
    if r !in ids {
      var moved := seq(|ids|, k requires 0 <= k < |ids| => if ids[k] == n - 1 then r else ids[k]);
      assert forall k :: 0 <= k < |ids| ==> moved[k] < n - 1;
      DifferentBelow(moved, n - 1);
    }
  }

  /** The source packets that packets of two batches carry, each taken from the batch it came with. */
  function Mixture(w: Network, trace: seq<Slot>, o: Origin, o': Origin): (x: Matrix)
    requires w.Valid() && w.Has(o) && w.Has(o') && o.sender == o'.sender
    ensures HasShape(x, w.senders[o.sender].nin, w.size)
  {
    seq(w.senders[o.sender].nin, r requires 0 <= r < w.senders[o.sender].nin =>
      if Slot(o', r) in trace then w.Source(o')[r] else w.Source(o)[r])
  }

  /** The network in which batch o has another source. */
  function Replaced(w: Network, o: Origin, source: Matrix): (v: Network)
    requires w.Valid() && w.Has(o) && HasShape(source, w.senders[o.sender].nin, w.size)
    ensures v.Valid() && v.Has(o) && v.Source(o) == source
  {
    var s := w.senders[o.sender];
    w.(senders := w.senders[o.sender := s.(sources := s.sources[o.batch := source])])
  }

  /** Packets of two batches with the same number modulo 256 look like packets of one batch. */
  lemma LooksMixed(w: Network, draw: Draws, trace: seq<Slot>, o: Origin, o': Origin, slot: Slot)
    requires w.Valid() && w.Has(o) && w.Has(o') && Clash(o, o') && slot in trace
    requires slot.coef < w.senders[o.sender].nin && (slot.origin == o || slot.origin == o')
    requires slot.origin == o ==> Slot(o', slot.coef) !in trace
    ensures w.Sent(draw, slot) == Replaced(w, o, Mixture(w, trace, o, o')).Sent(draw, Slot(o, slot.coef))
  {
    hide Combination, GeneratorRow;
    var s, v := w.senders[o.sender], Replaced(w, o, Mixture(w, trace, o, o'));
    SystematicRow(draw, o.batch % 256, s.nin, s.nout, s.size, w.Source(slot.origin), slot.coef);
    SystematicRow(draw, o.batch % 256, s.nin, s.nout, s.size, v.Source(o), slot.coef);
  }

  /** The condition on batch numbers cannot be dropped: take any two batches of a sender whose numbers
      agree in the low eight bits, and let every systematic packet arrive from one of the two, in any
      order. The receiver hands out a mixture of both. */
  lemma {:induction false} IdClashMixesBatches(w: Network, draw: Draws, trace: seq<Slot>, o: Origin, o': Origin)
    requires w.Valid() && w.Has(o) && w.Has(o') && Clash(o, o') && |trace| == w.senders[o.sender].nin >= 1
    requires forall k :: 0 <= k < |trace| ==> (trace[k].origin == o || trace[k].origin == o') && trace[k].coef < |trace|
    requires forall k, l :: 0 <= k < l < |trace| ==> trace[k].coef != trace[l].coef
    ensures InNetwork(w, trace)
    ensures Run(draw, w.size, INITIAL, Received(w, draw, trace)).1 == [Mixture(w, trace, o, o')]
    ensures forall k :: 0 <= k < |trace| ==>
              Mixture(w, trace, o, o')[trace[k].coef] == w.Source(trace[k].origin)[trace[k].coef]
  {
    hide Run, Results, Cut, Network.Sent, Replaced, Describes, FirstDecode;
    var v := Replaced(w, o, Mixture(w, trace, o, o'));
    var x := Stretch(o, seq(|trace|, k requires 0 <= k < |trace| => trace[k].coef));
    forall k | 0 <= k < |trace|
      ensures Mixture(w, trace, o, o')[trace[k].coef] == w.Source(trace[k].origin)[trace[k].coef]
      ensures w.Sent(draw, trace[k]) == v.Sent(draw, Slot(o, trace[k].coef))
    {
      forall l | 0 <= l < |trace| && trace[k].origin == o ensures trace[l] != Slot(o', trace[k].coef) {
        assert l != k ==> trace[l].coef != trace[k].coef;
      }
      LooksMixed(w, draw, trace, o, o', trace[k]);
    }
    ReplacedShape(w, o, Mixture(w, trace, o, o'));
    assert Received(w, draw, trace) == Received(v, draw, Slots(x));
    assert NoIdClash(Slots(x)) && Different(x.coefs);
    CutSlots(x);
    Delivers(v, draw, Slots(x));
    forall r: nat | r < |trace| ensures r in x.coefs { AllBelow(x.coefs, |trace|, r); }
    SystematicDetermine(v, draw, x);
    DifferentIsFresh(v, draw, x);
    FreshIsRight(v, draw, x);
    ResultsOne(v, draw, x);
  }

  lemma ReplacedShape(w: Network, o: Origin, source: Matrix)
    requires w.Valid() && w.Has(o) && HasShape(source, w.senders[o.sender].nin, w.size)
    ensures var v := Replaced(w, o, source);
            v.size == w.size && |v.senders| == |w.senders| && v.senders[o.sender].nin == w.senders[o.sender].nin &&
            v.senders[o.sender].nout == w.senders[o.sender].nout
  {
  }
}
