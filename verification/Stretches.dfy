/**
 Traces of received packets, cut into stretches: maximal runs of consecutive packets of one batch
 of one sender.
 */
module Stretches {
  import opened SharedRows

  /** A batch of a sender. */
  datatype Origin = Origin(sender: nat, batch: nat)

  /** A sent packet: number coef of its batch. */
  datatype Slot = Slot(origin: Origin, coef: nat)

  /** Consecutive packets of one batch. */
  datatype Stretch = Stretch(origin: Origin, coefs: seq<nat>) {
    /** The stretch without its last packet. */
    function Before(): Stretch
      requires coefs != []
    {
      Stretch(origin, coefs[..|coefs| - 1])
    }
  }

  function Extend(cut: seq<Stretch>, last: Slot): seq<Stretch> {
    if cut != [] && cut[|cut| - 1].origin == last.origin
    then cut[..|cut| - 1] + [Stretch(last.origin, cut[|cut| - 1].coefs + [last.coef])]
    else cut + [Stretch(last.origin, [last.coef])]
  }

  /** The trace, cut wherever the batch or the sender changes. */
  function Cut(trace: seq<Slot>): (cut: seq<Stretch>) {
    if trace == [] then [] else Extend(Cut(trace[..|trace| - 1]), trace[|trace| - 1])
  }

  function Slots(x: Stretch): (s: seq<Slot>)
    ensures |s| == |x.coefs|
  {
    seq(|x.coefs|, k requires 0 <= k < |x.coefs| => Slot(x.origin, x.coefs[k]))
  }

  function Join(cut: seq<Stretch>): seq<Slot> {
    if cut == [] then [] else Join(cut[..|cut| - 1]) + Slots(cut[|cut| - 1])
  }

  /** Neighbouring stretches belong to different batches, and none is empty. */
  predicate Maximal(cut: seq<Stretch>) {
    (forall k :: 0 <= k < |cut| ==> cut[k].coefs != []) &&
    forall k :: 0 < k < |cut| ==> cut[k - 1].origin != cut[k].origin
  }

  predicate EndsWith(cut: seq<Stretch>, o: Origin) {
    cut != [] && cut[|cut| - 1].origin == o
  }

  /** Cutting gives maximal stretches that join up to the trace. */
  lemma {:induction false} CutMaximal(trace: seq<Slot>)
    ensures Maximal(Cut(trace)) && Join(Cut(trace)) == trace
    ensures trace != [] ==> EndsWith(Cut(trace), trace[|trace| - 1].origin)
  {
    hide Extend, Join, Maximal, EndsWith;
    if trace == [] {
      NothingCut();
    } else {
      var before, last := trace[..|trace| - 1], trace[|trace| - 1];
      CutMaximal(before);
      JoinExtend(Cut(before), last);
      assert before + [last] == trace;
    }
  }

  lemma NothingCut()
    ensures Maximal([]) && Join([]) == [] && Cut([]) == []
  {
  }

  lemma JoinExtend(cut: seq<Stretch>, last: Slot)
    requires Maximal(cut)
    ensures Join(Extend(cut, last)) == Join(cut) + [last] && Maximal(Extend(cut, last))
    ensures EndsWith(Extend(cut, last), last.origin)
  {
    var next := Extend(cut, last);
    if cut != [] && cut[|cut| - 1].origin == last.origin {
      assert next[..|next| - 1] == cut[..|cut| - 1];
      assert Slots(next[|next| - 1]) == Slots(cut[|cut| - 1]) + [last];
    } else {
      assert next[..|next| - 1] == cut;
      assert Slots(next[|next| - 1]) == [last];
    }
  }

  lemma CutNext(trace: seq<Slot>, last: Slot)
    ensures Cut(trace + [last]) == Extend(Cut(trace), last)
  {
    assert (trace + [last])[..|trace|] == trace;
  }

  /** Where the batch changes, a trace can be cut piece by piece. */
  lemma {:induction false} CutConcat(a: seq<Slot>, b: seq<Slot>)
    requires a != [] && b != [] ==> a[|a| - 1].origin != b[0].origin
    ensures Cut(a + b) == Cut(a) + Cut(b)
    decreases |b|
  {
    hide Extend, Cut, Maximal, Join;
    NothingCut();
    if b == [] {
      assert a + b == a;
    } else {
      var b', last := b[..|b| - 1], b[|b| - 1];
      CutConcat(a, b');
      CutMaximal(a);
      CutMaximal(b');
      assert (a + b') + [last] == a + b && b' + [last] == b;
      CutNext(a + b', last);
      CutNext(b', last);
      ExtendConcat(Cut(a), Cut(b'), last);
    }
  }

  lemma ExtendConcat(c: seq<Stretch>, d: seq<Stretch>, last: Slot)
    requires d == [] && c != [] ==> c[|c| - 1].origin != last.origin
    ensures Extend(c + d, last) == c + Extend(d, last)
  {
    if d != [] {
      assert (c + d)[|c + d| - 1] == d[|d| - 1];
      assert (c + d)[..|c + d| - 1] == c + d[..|d| - 1];
    } else {
      assert c + d == c;
    }
  }

  lemma {:induction false} CutSlots(x: Stretch)
    requires x.coefs != []
    ensures Cut(Slots(x)) == [x]
    decreases |x.coefs|
  {
    var y, slots := x.Before(), Slots(x);
    assert slots[..|slots| - 1] == Slots(y);
    if y.coefs != [] { CutSlots(y); }
    assert x.coefs == y.coefs + [x.coefs[|x.coefs| - 1]];
  }

  // ----- what was received of one batch -----

  /** The coefficient ids received of a batch, in order. */
  function Coefs(trace: seq<Slot>, o: Origin): seq<nat> {
    if trace == [] then []
    else
      var rest, last := Coefs(trace[..|trace| - 1], o), trace[|trace| - 1];
      if last.origin == o then rest + [last.coef] else rest
  }

  predicate NoRepeats(trace: seq<Slot>) {
    forall k, l :: 0 <= k < l < |trace| ==> trace[k] != trace[l]
  }

  lemma DifferentAppend(ids: seq<nat>, m: nat)
    ensures Different(ids + [m]) <==> Different(ids) && m !in ids
  {
    var more := ids + [m];
    assert forall k :: 0 <= k < |ids| ==> more[k] == ids[k];
    if Different(more) {
      forall k | 0 <= k < |ids| ensures ids[k] != m { assert more[k] != more[|ids|]; }
      forall k, l | 0 <= k < l < |ids| ensures ids[k] != ids[l] { assert more[k] != more[l]; }
    }
  }

  lemma {:induction false} CoefsDifferent(trace: seq<Slot>, o: Origin)
    requires NoRepeats(trace)
    ensures Different(Coefs(trace, o)) && forall c :: c in Coefs(trace, o) ==> Slot(o, c) in trace
  {
    if trace != [] {
      var before, last := trace[..|trace| - 1], trace[|trace| - 1];
      CoefsDifferent(before, o);
      if last.origin == o {
        forall k | 0 <= k < |before| ensures before[k] != last { assert trace[k] != trace[|trace| - 1]; }
        DifferentAppend(Coefs(before, o), last.coef);
      }
    }
  }

  /** The coefficient ids of all stretches of a batch. */
  function Gathered(cut: seq<Stretch>, o: Origin): seq<nat> {
    if cut == [] then []
    else
      var rest, x := Gathered(cut[..|cut| - 1], o), cut[|cut| - 1];
      if x.origin == o then rest + x.coefs else rest
  }

  lemma {:induction false} GatheredIsCoefs(trace: seq<Slot>, o: Origin)
    ensures Gathered(Cut(trace), o) == Coefs(trace, o)
  {
    hide Extend, Gathered;
    if trace == [] {
      GatheredNothing(o);
    } else {
      GatheredIsCoefs(trace[..|trace| - 1], o);
      GatheredExtend(Cut(trace[..|trace| - 1]), trace[|trace| - 1], o);
    }
  }

  lemma GatheredNothing(o: Origin)
    ensures Gathered([], o) == []
  {
  }

  lemma GatheredExtend(cut: seq<Stretch>, last: Slot, o: Origin)
    ensures Gathered(Extend(cut, last), o) == Gathered(cut, o) + if last.origin == o then [last.coef] else []
  {
    var next := Extend(cut, last);
    if cut != [] && cut[|cut| - 1].origin == last.origin {
      assert next[..|next| - 1] == cut[..|cut| - 1];
    } else {
      assert next[..|next| - 1] == cut;
    }
  }

  // ----- traces in which every batch arrives in one piece -----

  /** Between two packets of a batch there are only packets of that batch. */
  predicate Grouped(trace: seq<Slot>) {
    forall j, k, l :: 0 <= j < k < l < |trace| && trace[j].origin == trace[l].origin ==> trace[k].origin == trace[j].origin
  }

  /** No batch has two stretches. */
  predicate Apart(cut: seq<Stretch>) {
    forall k, l :: 0 <= k < l < |cut| ==> cut[k].origin != cut[l].origin
  }

  predicate Occurs(trace: seq<Slot>, o: Origin) {
    exists k :: 0 <= k < |trace| && trace[k].origin == o
  }

  lemma {:induction false} StretchesOccur(trace: seq<Slot>)
    ensures forall k :: 0 <= k < |Cut(trace)| ==> Occurs(trace, Cut(trace)[k].origin)
  {
    hide Occurs;
    if trace != [] {
      var before, last := trace[..|trace| - 1], trace[|trace| - 1];
      StretchesOccur(before);
      forall o | Occurs(before, o) || o == last.origin ensures Occurs(trace, o) { OccursLater(trace, o); }
    }
  }

  lemma OccursLater(trace: seq<Slot>, o: Origin)
    requires trace != [] && (Occurs(trace[..|trace| - 1], o) || o == trace[|trace| - 1].origin)
    ensures Occurs(trace, o)
  {
  }

  lemma {:induction false} GroupedApart(trace: seq<Slot>)
    requires Grouped(trace)
    ensures Apart(Cut(trace))
  {
    hide Extend, Occurs, EndsWith, Maximal, Join;
    if trace != [] {
      var before, last := trace[..|trace| - 1], trace[|trace| - 1];
      GroupedApart(before);
      StretchesOccur(before);
      CutMaximal(before);
      if before != [] && before[|before| - 1].origin != last.origin { OnlyNow(trace); }
      ApartExtend(Cut(before), last, if before == [] then last.origin else before[|before| - 1].origin);
    } else {
      NothingCut();
    }
  }

  /** A batch that begins after another has not occurred before. */
  lemma OnlyNow(trace: seq<Slot>)
    requires Grouped(trace) && |trace| >= 2 && trace[|trace| - 2].origin != trace[|trace| - 1].origin
    ensures !Occurs(trace[..|trace| - 1], trace[|trace| - 1].origin)
  {
    var before, o := trace[..|trace| - 1], trace[|trace| - 1].origin;
    forall k | 0 <= k < |before| ensures before[k].origin != o { assert trace[k] == before[k]; }
  }

  lemma ApartExtend(cut: seq<Stretch>, last: Slot, o: Origin)
    requires Apart(cut) && (cut != [] ==> EndsWith(cut, o))
    requires o != last.origin ==> forall k :: 0 <= k < |cut| ==> cut[k].origin != last.origin
    ensures Apart(Extend(cut, last))
  {
  }

  /** A batch without a stretch has nothing; a batch with one stretch has just that. */
  lemma {:induction false} GatheredApart(cut: seq<Stretch>, o: Origin)
    requires Apart(cut)
    ensures (forall k :: 0 <= k < |cut| ==> cut[k].origin != o) ==> Gathered(cut, o) == []
    ensures forall k :: 0 <= k < |cut| && cut[k].origin == o ==> cut[k].coefs == Gathered(cut, o)
  {
    if cut != [] {
      var before, x := cut[..|cut| - 1], cut[|cut| - 1];
      GatheredApart(before, o);
      assert forall k :: 0 <= k < |before| ==> before[k] == cut[k] && cut[k].origin != x.origin;
    }
  }

  // ----- traces of one sender in which batches arrive in order -----

  predicate Ordered(trace: seq<Slot>) {
    forall k, l :: 0 <= k < l < |trace| ==>
      trace[k].origin.sender == trace[l].origin.sender && trace[k].origin.batch <= trace[l].origin.batch
  }

  predicate Increasing(cut: seq<Stretch>) {
    forall k, l :: 0 <= k < l < |cut| ==> cut[k].origin.batch < cut[l].origin.batch
  }

  lemma OrderedIsGrouped(trace: seq<Slot>)
    requires Ordered(trace)
    ensures Grouped(trace)
  {
  }

  /** If batches arrive in order, their stretches are in order. */
  lemma {:induction false} OrderedIncreasing(trace: seq<Slot>)
    requires Ordered(trace)
    ensures Increasing(Cut(trace))
  {
    hide Increasing, Extend, EndsWith, Maximal, Join;
    if trace == [] {
      IncreasingNone();
    } else {
      var before, last := trace[..|trace| - 1], trace[|trace| - 1];
      OrderedIncreasing(before);
      CutMaximal(before);
      if before != [] { assert trace[|before| - 1].origin.batch <= last.origin.batch; }
      IncreasingExtend(Cut(before), last, if before == [] then last.origin else before[|before| - 1].origin);
    }
  }

  lemma IncreasingNone()
    ensures Increasing(Cut([]))
  {
  }

  lemma IncreasingExtend(cut: seq<Stretch>, last: Slot, o: Origin)
    requires Increasing(cut) && (cut != [] ==> EndsWith(cut, o)) && o.batch <= last.origin.batch
    requires o.sender == last.origin.sender
    ensures Increasing(Extend(cut, last))
  {
  }
}
