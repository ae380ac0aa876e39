/**
 The dispatch handshake between the local scheduler and its model processes: two condition
 variables, one flag array for each direction, any number of workers, any interleaving of the
 atomic steps. A condition variable is a lock with a wait set; wait_for tests its predicate while
 it holds the lock, and gives the lock up in the same step in which it enters the wait set.
 */
module Handshake {
  import opened Options

  /** Where a worker is in its loop. */
  datatype WorkerPc =
    | WantStart     // acquiring start_lock, at the top of the loop or after a wake-up
    | HoldStart     // holds start_lock, about to test its start flag
    | WaitStart     // in the wait set of start_lock
    | Cleared       // holds start_lock, has cleared its start flag
    | Running       // reads data and runs the model
    | WantEnd       // acquiring end_lock
    | HoldEnd       // holds end_lock, about to set its end flag
    | EndSet        // holds end_lock, has set its end flag
    | Notified      // holds end_lock, has notified

  /** Where the scheduler is in its loop. */
  datatype SchedPc =
    | Selecting     // choosing a task and a model variant
    | SWantStart    // acquiring start_lock
    | SHoldStart    // holds start_lock, about to set the start flag
    | SFlagSet      // holds start_lock, has set the start flag
    | SNotified     // holds start_lock, has notified all
    | SWantEnd      // acquiring end_lock, at first or after a wake-up
    | SHoldEnd      // holds end_lock, about to test the end flag
    | SWaitEnd      // in the wait set of end_lock
    | SCleared      // holds end_lock, has cleared the end flag

  datatype Owner = Free | Scheduler | Worker(id: nat)

  datatype State = State(
    workers: seq<WorkerPc>,
    sched: SchedPc,
    selected: nat,
    startFlag: seq<bool>,
    endFlag: seq<bool>,
    startOwner: Owner,
    endOwner: Owner)

  /** One start flag, one end flag and one worker for every task and model variant. */
  predicate Shaped(s: State) {
    |s.startFlag| == |s.endFlag| == |s.workers| && s.selected < |s.workers|
  }

  predicate Init(s: State) {
    Shaped(s) && s.sched == Selecting && s.startOwner == Free && s.endOwner == Free &&
    (forall w :: 0 <= w < |s.workers| ==> s.workers[w] == WantStart && !s.startFlag[w] && !s.endFlag[w])
  }

  // ----- steps of a worker -----

  function Move(s: State, w: nat, pc: WorkerPc): State
    requires w < |s.workers|
  {
    s.(workers := s.workers[w := pc])
  }

  /** The next step of worker w, if it is not blocked. */
  function WorkerStep(s: State, w: nat): Option<State>
    requires Shaped(s) && w < |s.workers|
  {
    match s.workers[w]
    case WantStart =>
      if s.startOwner == Free then Some(Move(s, w, HoldStart).(startOwner := Worker(w))) else None
    case HoldStart =>
      if s.startFlag[w] then Some(Move(s, w, Cleared).(startFlag := s.startFlag[w := false]))
      else Some(Move(s, w, WaitStart).(startOwner := Free))
    case WaitStart => None
    case Cleared => Some(Move(s, w, Running).(startOwner := Free))
    case Running => Some(Move(s, w, WantEnd))
    case WantEnd =>
      if s.endOwner == Free then Some(Move(s, w, HoldEnd).(endOwner := Worker(w))) else None
    case HoldEnd => Some(Move(s, w, EndSet).(endFlag := s.endFlag[w := true]))
    case EndSet => Some(Move(s, w, Notified).(sched := if s.sched == SWaitEnd then SWantEnd else s.sched))
    case Notified => Some(Move(s, w, WantStart).(endOwner := Free))
  }

  // ----- steps of the scheduler -----

  /** notify_all moves every waiting worker back to acquiring the lock. */
  function WakeAll(workers: seq<WorkerPc>): (r: seq<WorkerPc>)
    ensures |r| == |workers|
  {
    seq(|workers|, w requires 0 <= w < |workers| => if workers[w] == WaitStart then WantStart else workers[w])
  }

  /** The next step of the scheduler, if it is not blocked; next is the worker it would select. */
  function SchedStep(s: State, next: nat): Option<State>
    requires Shaped(s) && next < |s.workers|
  {
    match s.sched
    case Selecting => Some(s.(sched := SWantStart, selected := next))
    case SWantStart =>
      if s.startOwner == Free then Some(s.(sched := SHoldStart, startOwner := Scheduler)) else None
    case SHoldStart => Some(s.(sched := SFlagSet, startFlag := s.startFlag[s.selected := true]))
    case SFlagSet => Some(s.(sched := SNotified, workers := WakeAll(s.workers)))
    case SNotified => Some(s.(sched := SWantEnd, startOwner := Free))
    case SWantEnd =>
      if s.endOwner == Free then Some(s.(sched := SHoldEnd, endOwner := Scheduler)) else None
    case SHoldEnd =>
      if s.endFlag[s.selected] then Some(s.(sched := SCleared, endFlag := s.endFlag[s.selected := false]))
      else Some(s.(sched := SWaitEnd, endOwner := Free))
    case SWaitEnd => None
    case SCleared => Some(s.(sched := Selecting, endOwner := Free))
  }

  /** Who takes the next step; a scheduler that selects names the worker. */
  datatype Actor = ByScheduler(next: nat) | ByWorker(w: nat)

  function Step(s: State, a: Actor): Option<State>
    requires Shaped(s)
  {
    match a
    case ByScheduler(next) => if next < |s.workers| then SchedStep(s, next) else None
    case ByWorker(w) => if w < |s.workers| then WorkerStep(s, w) else None
  }

  /** A run: the states that a list of steps goes through. */
  predicate Run(states: seq<State>, actors: seq<Actor>) {
    |states| == |actors| + 1 && Init(states[0]) &&
    forall k :: 0 <= k < |actors| ==> Shaped(states[k]) && Step(states[k], actors[k]) == Some(states[k + 1])
  }

  // ----- the invariant -----

  /** A worker from clearing its start flag to setting its end flag. */
  predicate Busy(pc: WorkerPc) {
    pc == Cleared || pc == Running || pc == WantEnd || pc == HoldEnd
  }

  predicate HoldsStart(pc: WorkerPc) { pc == HoldStart || pc == Cleared }

  predicate HoldsEnd(pc: WorkerPc) { pc == HoldEnd || pc == EndSet || pc == Notified }

  /** From setting the start flag to clearing the end flag: a dispatch is under way. */
  predicate Dispatching(pc: SchedPc) {
    pc == SFlagSet || pc == SNotified || pc == SWantEnd || pc == SHoldEnd || pc == SWaitEnd
  }

  function Tokens(s: State, w: nat): nat
    requires Shaped(s) && w < |s.workers|
  {
    (if s.startFlag[w] then 1 else 0) + (if Busy(s.workers[w]) then 1 else 0) + (if s.endFlag[w] then 1 else 0)
  }

  /** start_lock is held by who is inside it. */
  predicate StartLockRight(s: State) {
    (s.startOwner == Scheduler <==> s.sched == SHoldStart || s.sched == SFlagSet || s.sched == SNotified) &&
    (forall w: nat :: w < |s.workers| ==> (s.startOwner == Worker(w) <==> HoldsStart(s.workers[w]))) &&
    (s.startOwner.Worker? ==> s.startOwner.id < |s.workers|)
  }

  /** end_lock is held by who is inside it. */
  predicate EndLockRight(s: State) {
    (s.endOwner == Scheduler <==> s.sched == SHoldEnd || s.sched == SCleared) &&
    (forall w: nat :: w < |s.workers| ==> (s.endOwner == Worker(w) <==> HoldsEnd(s.workers[w]))) &&
    (s.endOwner.Worker? ==> s.endOwner.id < |s.workers|)
  }

  /** The selected worker has the one token while a dispatch is under way; nobody has one otherwise. */
  predicate TokensRight(s: State)
    requires Shaped(s)
  {
    forall w: nat :: w < |s.workers| ==> Tokens(s, w) == if Dispatching(s.sched) && w == s.selected then 1 else 0
  }

  /** No wake-up is lost: a worker with its start flag set waits only while the scheduler is about to
      notify, and the scheduler waits for a set end flag only while the worker is about to notify. */
  predicate NoLostWakeup(s: State)
    requires Shaped(s)
  {
    (forall w :: 0 <= w < |s.workers| && s.startFlag[w] && s.workers[w] == WaitStart ==> s.sched == SFlagSet) &&
    (s.sched == SWaitEnd && s.endFlag[s.selected] ==> s.workers[s.selected] == EndSet)
  }

  predicate Inv(s: State) {
    Shaped(s) && StartLockRight(s) && EndLockRight(s) && TokensRight(s) && NoLostWakeup(s)
  }

  lemma InitInv(s: State)
    requires Init(s)
    ensures Inv(s)
  {
  }

  lemma WorkerStepKeepsStartLock(s: State, w: nat)
    requires Inv(s) && w < |s.workers| && WorkerStep(s, w).Some?
    ensures Shaped(WorkerStep(s, w).value) && StartLockRight(WorkerStep(s, w).value)
  {
    hide EndLockRight, TokensRight, NoLostWakeup;
    var s' := WorkerStep(s, w).value;
    assert s.startOwner == Worker(w) <==> HoldsStart(s.workers[w]);
    forall v: nat | v < |s.workers| && v != w
      ensures s'.startOwner == Worker(v) <==> HoldsStart(s'.workers[v])
    {
      assert s'.workers[v] == s.workers[v];
    }
  }

  lemma WorkerStepKeepsEndLock(s: State, w: nat)
    requires Inv(s) && w < |s.workers| && WorkerStep(s, w).Some?
    ensures Shaped(WorkerStep(s, w).value) && EndLockRight(WorkerStep(s, w).value)
  {
    hide StartLockRight, TokensRight, NoLostWakeup;
    var s' := WorkerStep(s, w).value;
    assert s.endOwner == Worker(w) <==> HoldsEnd(s.workers[w]);
    forall v: nat | v < |s.workers| && v != w
      ensures s'.endOwner == Worker(v) <==> HoldsEnd(s'.workers[v])
    {
      assert s'.workers[v] == s.workers[v];
    }
  }

  lemma WorkerStepKeepsTokens(s: State, w: nat)
    requires Inv(s) && w < |s.workers| && WorkerStep(s, w).Some?
    ensures TokensRight(WorkerStep(s, w).value)
  {
    hide StartLockRight, EndLockRight, NoLostWakeup;
    var s' := WorkerStep(s, w).value;
    assert Tokens(s, w) <= 1;
    forall v: nat | v < |s.workers|
      ensures Tokens(s', v) == Tokens(s, v)
    {
    }
  }

  lemma WorkerStepKeepsWakeups(s: State, w: nat)
    requires Inv(s) && w < |s.workers| && WorkerStep(s, w).Some?
    ensures NoLostWakeup(WorkerStep(s, w).value)
  {
    var s' := WorkerStep(s, w).value;
    assert Tokens(s, w) == if Dispatching(s.sched) && w == s.selected then 1 else 0;
    assert s.startFlag[w] && s.workers[w] == HoldStart ==> s'.workers[w] == Cleared;
    forall v | 0 <= v < |s'.workers| && s'.startFlag[v] && s'.workers[v] == WaitStart
      ensures s'.sched == SFlagSet
    {
      assert v != w && s.workers[v] == WaitStart && s.startFlag[v];
    }
  }

  lemma WorkerStepKeepsInv(s: State, w: nat)
    requires Inv(s) && w < |s.workers| && WorkerStep(s, w).Some?
    ensures Inv(WorkerStep(s, w).value)
  {
    hide WorkerStep, StartLockRight, EndLockRight, TokensRight, NoLostWakeup;
    WorkerStepKeepsStartLock(s, w);
    WorkerStepKeepsEndLock(s, w);
    WorkerStepKeepsTokens(s, w);
    WorkerStepKeepsWakeups(s, w);
  }

  lemma SchedStepKeepsLocks(s: State, next: nat)
    requires Inv(s) && next < |s.workers| && SchedStep(s, next).Some?
    ensures var s' := SchedStep(s, next).value; Shaped(s') && StartLockRight(s') && EndLockRight(s')
  {
    hide TokensRight, NoLostWakeup;
  }

  lemma SchedStepKeepsTokens(s: State, next: nat)
    requires Inv(s) && next < |s.workers| && SchedStep(s, next).Some?
    ensures Shaped(SchedStep(s, next).value) && TokensRight(SchedStep(s, next).value)
  {
    hide StartLockRight, EndLockRight, NoLostWakeup;
    var s' := SchedStep(s, next).value;
    assert Tokens(s, s.selected) <= 1;
    forall v: nat | v < |s.workers|
      ensures Tokens(s', v) == if Dispatching(s'.sched) && v == s'.selected then 1 else 0
    {
      assert Tokens(s, v) == if Dispatching(s.sched) && v == s.selected then 1 else 0;
    }
  }

  lemma SchedStepKeepsWakeups(s: State, next: nat)
    requires Inv(s) && next < |s.workers| && SchedStep(s, next).Some?
    ensures Shaped(SchedStep(s, next).value) && NoLostWakeup(SchedStep(s, next).value)
  {
    hide StartLockRight, EndLockRight;
    assert Tokens(s, s.selected) <= 1;
  }

  lemma SchedStepKeepsInv(s: State, next: nat)
    requires Inv(s) && next < |s.workers| && SchedStep(s, next).Some?
    ensures Inv(SchedStep(s, next).value)
  {
    hide SchedStep, StartLockRight, EndLockRight, TokensRight, NoLostWakeup;
    SchedStepKeepsLocks(s, next);
    SchedStepKeepsTokens(s, next);
    SchedStepKeepsWakeups(s, next);
  }

  lemma StepKeepsInv(s: State, a: Actor)
    requires Inv(s) && Step(s, a).Some?
    ensures Inv(Step(s, a).value)
  {
    hide Inv, WorkerStep, SchedStep;
    InvShaped(s);
    match a
    case ByScheduler(next) => SchedStepKeepsInv(s, next);
    case ByWorker(w) => WorkerStepKeepsInv(s, w);
  }

  lemma InvShaped(s: State)
    requires Inv(s)
    ensures Shaped(s)
  {
  }

  /** Every state of every run satisfies the invariant. */
  lemma {:induction false} RunInv(states: seq<State>, actors: seq<Actor>, k: nat)
    requires Run(states, actors) && k < |states|
    ensures Inv(states[k])
  {
    hide Inv, Step;
    if k == 0 {
      InitInv(states[0]);
    } else {
      RunInv(states, actors, k - 1);
      assert Step(states[k - 1], actors[k - 1]) == Some(states[k]);
      StepKeepsInv(states[k - 1], actors[k - 1]);
    }
  }

  // ----- safety -----

  /** At most one model process runs at a time, in every run. */
  lemma MutualExclusion(states: seq<State>, actors: seq<Actor>, k: nat, v: nat, w: nat)
    requires Run(states, actors) && k < |states| && v < |states[k].workers| && w < |states[k].workers|
    requires Busy(states[k].workers[v]) && Busy(states[k].workers[w])
    ensures v == w == states[k].selected && Dispatching(states[k].sched)
  {
    RunInv(states, actors, k);
    assert Tokens(states[k], v) >= 1 && Tokens(states[k], w) >= 1;
  }

  function TokensBelow(s: State, n: nat): nat
    requires Shaped(s) && n <= |s.workers|
  {
    if n == 0 then 0 else TokensBelow(s, n - 1) + Tokens(s, n - 1)
  }

  lemma {:induction false} CountTokens(s: State, n: nat)
    requires Inv(s) && n <= |s.workers|
    ensures TokensBelow(s, n) == if Dispatching(s.sched) && s.selected < n then 1 else 0
  {
    if n > 0 {
      CountTokens(s, n - 1);
      assert Tokens(s, n - 1) == if Dispatching(s.sched) && n - 1 == s.selected then 1 else 0;
    }
  }

  /** Conservation, in every run: start flags, busy workers and end flags add up to one exactly
      while a dispatch is under way, and to zero otherwise. */
  lemma Conservation(states: seq<State>, actors: seq<Actor>, k: nat)
    requires Run(states, actors) && k < |states|
    ensures Shaped(states[k])
    ensures TokensBelow(states[k], |states[k].workers|) == if Dispatching(states[k].sched) then 1 else 0
  {
    RunInv(states, actors, k);
    CountTokens(states[k], |states[k].workers|);
  }

  /** In every run each lock has one owner: who is inside start_lock or end_lock is there alone. */
  lemma LocksExclude(states: seq<State>, actors: seq<Actor>, k: nat, v: nat, w: nat)
    requires Run(states, actors) && k < |states| && v < |states[k].workers| && w < |states[k].workers|
    ensures var s := states[k];
            (s.workers[v] in {HoldStart, Cleared} ==>
              s.sched !in {SHoldStart, SFlagSet, SNotified} && (s.workers[w] in {HoldStart, Cleared} ==> v == w)) &&
            (s.workers[v] in {HoldEnd, EndSet, Notified} ==>
              s.sched !in {SHoldEnd, SCleared} && (s.workers[w] in {HoldEnd, EndSet, Notified} ==> v == w))
  {
    hide TokensRight, NoLostWakeup;
    RunInv(states, actors, k);
  }

  /** The start flag stays until the scheduler has given start_lock back. */
  lemma {:induction false} FlagStays(states: seq<State>, actors: seq<Actor>, k: nat)
    requires Run(states, actors) && k < |states| && states[k].sched in {SFlagSet, SNotified}
    ensures Shaped(states[k]) && states[k].startFlag[states[k].selected]
  {
    hide EndLockRight, TokensRight, NoLostWakeup;
    RunInv(states, actors, k);
    if k > 0 {
      RunInv(states, actors, k - 1);
      assert Step(states[k - 1], actors[k - 1]) == Some(states[k]);
      if states[k - 1].sched in {SFlagSet, SNotified} { FlagStays(states, actors, k - 1); }
    }
  }

  /** While a model runs, it is the selected one and the only one, no flag is set, its worker holds
      no lock, and the scheduler is at the end lock. */
  lemma RunningMeans(states: seq<State>, actors: seq<Actor>, k: nat, v: nat, w: nat)
    requires Run(states, actors) && k < |states| && v < |states[k].workers| && w < |states[k].workers|
    requires states[k].workers[v] == Running
    ensures Shaped(states[k])
    ensures var s := states[k];
            v == s.selected && s.sched in {SWantEnd, SHoldEnd, SWaitEnd} && (s.workers[w] == Running ==> w == v) &&
            !s.startFlag[w] && !s.endFlag[w] && s.startOwner != Worker(v) && s.endOwner != Worker(v)
  {
    hide NoLostWakeup;
    RunInv(states, actors, k);
    var s := states[k];
    assert Tokens(s, v) >= 1 && Tokens(s, w) <= 1;
    if s.sched in {SFlagSet, SNotified} { FlagStays(states, actors, k); }
  }

  // ----- every dispatch runs its model once -----

  /** Worker w finishes running the model. */
  predicate Finishes(s: State, a: Actor, w: nat) {
    a == ByWorker(w) && w < |s.workers| && s.workers[w] == Running
  }

  /** The scheduler selects worker w. */
  predicate Selects(s: State, a: Actor, w: nat) {
    a == ByScheduler(w) && s.sched == Selecting
  }

  /** How often worker w runs the model to its end from state k to state l. */
  function Inferences(states: seq<State>, actors: seq<Actor>, k: nat, l: nat, w: nat): nat
    requires k <= l <= |actors| < |states|
    decreases l
  {
    if k == l then 0
    else Inferences(states, actors, k, l - 1, w) + if Finishes(states[l - 1], actors[l - 1], w) then 1 else 0
  }

  /** How often worker w is selected from state k to state l. */
  function Selections(states: seq<State>, actors: seq<Actor>, k: nat, l: nat, w: nat): nat
    requires k <= l <= |actors| < |states|
    decreases l
  {
    if k == l then 0
    else Selections(states, actors, k, l - 1, w) + if Selects(states[l - 1], actors[l - 1], w) then 1 else 0
  }

  /** Worker w has been selected and has not run the model yet. */
  function Owed(s: State, w: nat): nat
    requires Shaped(s)
  {
    if w != s.selected then 0
    else if s.sched == SWantStart || s.sched == SHoldStart then 1
    else if Dispatching(s.sched) && (s.startFlag[w] || s.workers[w] == Cleared || s.workers[w] == Running) then 1
    else 0
  }

  lemma WorkerStepOwes(s: State, v: nat, w: nat)
    requires Inv(s) && v < |s.workers| && WorkerStep(s, v).Some?
    ensures Shaped(WorkerStep(s, v).value)
    ensures Owed(WorkerStep(s, v).value, w) + (if v == w && s.workers[w] == Running then 1 else 0) == Owed(s, w)
  {
    hide StartLockRight, EndLockRight, NoLostWakeup;
    assert Tokens(s, v) == if Dispatching(s.sched) && v == s.selected then 1 else 0;
  }

  lemma SchedStepOwes(s: State, next: nat, w: nat)
    requires Inv(s) && next < |s.workers| && SchedStep(s, next).Some?
    ensures Shaped(SchedStep(s, next).value)
    ensures Owed(SchedStep(s, next).value, w) == Owed(s, w) + if s.sched == Selecting && next == w then 1 else 0
  {
    hide StartLockRight, EndLockRight, NoLostWakeup;
    assert Tokens(s, s.selected) == if Dispatching(s.sched) then 1 else 0;
  }

  /** Conservation of work: what worker w owed and was selected for is what it has run and still owes. */
  lemma {:induction false} WorkBalance(states: seq<State>, actors: seq<Actor>, k: nat, l: nat, w: nat)
    requires Run(states, actors) && k <= l <= |actors|
    ensures Shaped(states[k]) && Shaped(states[l])
    ensures Owed(states[k], w) + Selections(states, actors, k, l, w)
         == Inferences(states, actors, k, l, w) + Owed(states[l], w)
    decreases l
  {
    hide Inv, Owed, WorkerStep, SchedStep;
    RunInv(states, actors, l);
    InvShaped(states[l]);
    if k < l {
      WorkBalance(states, actors, k, l - 1, w);
      RunInv(states, actors, l - 1);
      var s, a := states[l - 1], actors[l - 1];
      assert Step(s, a) == Some(states[l]);
      match a
      case ByScheduler(next) => SchedStepOwes(s, next, w);
      case ByWorker(v) => WorkerStepOwes(s, v, w);
    }
  }

  /** In every run, whenever the scheduler is back at selecting, every worker has run its model exactly
      as often as it has been selected. */
  lemma EverySelectionRuns(states: seq<State>, actors: seq<Actor>, l: nat, w: nat)
    requires Run(states, actors) && l <= |actors| && states[l].sched == Selecting
    ensures Inferences(states, actors, 0, l, w) == Selections(states, actors, 0, l, w)
  {
    WorkBalance(states, actors, 0, l, w);
  }

  lemma {:induction false} NoneSelected(states: seq<State>, actors: seq<Actor>, k: nat, l: nat, w: nat)
    requires k < l <= |actors| < |states| && forall i :: k < i < l ==> states[i].sched != Selecting
    ensures Selections(states, actors, k, l, w) == if Selects(states[k], actors[k], w) then 1 else 0
    decreases l
  {
    if k + 1 < l { NoneSelected(states, actors, k, l - 1, w); }
  }

  /** One dispatch, in every run: from the selection of a worker to the next return to selecting that
      worker runs the model exactly once, and no other worker runs it. */
  lemma DispatchRunsOnce(states: seq<State>, actors: seq<Actor>, k: nat, l: nat, next: nat, w: nat)
    requires Run(states, actors) && k < l <= |actors|
    requires states[k].sched == Selecting && actors[k] == ByScheduler(next)
    requires states[l].sched == Selecting && forall i :: k < i < l ==> states[i].sched != Selecting
    ensures Inferences(states, actors, k, l, w) == if w == next then 1 else 0
  {
    WorkBalance(states, actors, k, l, w);
    NoneSelected(states, actors, k, l, w);
  }

  // ----- progress -----

  /** Who can move: the owner of the lock somebody waits for, the scheduler, or the worker with the token. */
  function Mover(s: State): Actor
    requires Shaped(s)
  {
    match s.sched
    case SWantStart => if s.startOwner.Worker? then ByWorker(s.startOwner.id) else ByScheduler(s.selected)
    case SWantEnd => if s.endOwner.Worker? then ByWorker(s.endOwner.id) else ByScheduler(s.selected)
    case SWaitEnd =>
      if s.workers[s.selected] == WantStart && s.startOwner.Worker? then ByWorker(s.startOwner.id)
      else if s.workers[s.selected] == WantEnd && s.endOwner.Worker? then ByWorker(s.endOwner.id)
      else ByWorker(s.selected)
    case _ => ByScheduler(s.selected)
  }

  /** No deadlock and no lost wake-up: in every reachable state some step is possible, and while the
      scheduler is not selecting, one that brings the dispatch forward. */
  lemma Progress(states: seq<State>, actors: seq<Actor>, k: nat)
    requires Run(states, actors) && k < |states|
    ensures Shaped(states[k]) && Step(states[k], Mover(states[k])).Some?
  {
    RunInv(states, actors, k);
    var s := states[k];
    assert Tokens(s, s.selected) == if Dispatching(s.sched) then 1 else 0;
  }

  // ----- bounded response -----

  function WorkerRank(pc: WorkerPc): nat {
    match pc
    case Cleared => 10
    case Running => 9
    case WantEnd => 8
    case HoldEnd => 7
    case EndSet => 6
    case Notified => 3
    case WantStart => 2
    case HoldStart => 1
    case WaitStart => 0
  }

  function SchedRank(pc: SchedPc, n: nat): nat {
    match pc
    case SWantStart => 18 + 2 * n
    case SHoldStart => 17 + 2 * n
    case SFlagSet => 6 + 2 * n
    case SNotified => 5
    case SWantEnd => 4
    case SHoldEnd => 3
    case SWaitEnd => 2
    case SCleared => 1
    case Selecting => 0
  }

  function Weight(pc: WorkerPc, flag: bool): nat {
    WorkerRank(pc) + if flag then 10 else 0
  }

  function Weights(workers: seq<WorkerPc>, flags: seq<bool>): nat
    requires |workers| == |flags|
  {
    if workers == [] then 0
    else
      var n := |workers| - 1;
      Weights(workers[..n], flags[..n]) + Weight(workers[n], flags[n])
  }

  /** What is left to do before the scheduler is back at selecting. */
  function Rank(s: State): nat
    requires Shaped(s)
  {
    SchedRank(s.sched, |s.workers|) + Weights(s.workers, s.startFlag)
  }

  lemma {:induction false} WeightsUpdate(workers: seq<WorkerPc>, flags: seq<bool>, w: nat, pc: WorkerPc, flag: bool)
    requires |workers| == |flags| && w < |workers|
    ensures Weights(workers[w := pc], flags[w := flag])
         == Weights(workers, flags) - Weight(workers[w], flags[w]) + Weight(pc, flag)
  {
    var n := |workers| - 1;
    if w < n {
      WeightsUpdate(workers[..n], flags[..n], w, pc, flag);
      assert workers[w := pc][..n] == workers[..n][w := pc];
      assert flags[w := flag][..n] == flags[..n][w := flag];
    } else {
      assert workers[w := pc][..n] == workers[..n] && flags[w := flag][..n] == flags[..n];
    }
  }

  lemma {:induction false} WeightsWake(workers: seq<WorkerPc>, flags: seq<bool>)
    requires |workers| == |flags|
    ensures Weights(WakeAll(workers), flags) <= Weights(workers, flags) + 2 * |workers|
  {
    if workers != [] {
      var n := |workers| - 1;
      WeightsWake(workers[..n], flags[..n]);
      assert WakeAll(workers)[..n] == WakeAll(workers[..n]);
    }
  }

  lemma WorkerStepReducesRank(s: State, w: nat)
    requires Shaped(s) && w < |s.workers| && WorkerStep(s, w).Some?
    ensures Shaped(WorkerStep(s, w).value) && Rank(WorkerStep(s, w).value) < Rank(s)
  {
    hide Weights;
    var s' := WorkerStep(s, w).value;
    assert s.startFlag[w := s.startFlag[w]] == s.startFlag;
    WeightsUpdate(s.workers, s.startFlag, w, s'.workers[w], s'.startFlag[w]);
  }

  lemma SchedStepReducesRank(s: State, next: nat)
    requires Shaped(s) && next < |s.workers| && s.sched != Selecting && SchedStep(s, next).Some?
    ensures Shaped(SchedStep(s, next).value) && Rank(SchedStep(s, next).value) < Rank(s)
  {
    hide Weights;
    var s' := SchedStep(s, next).value;
    if s.sched == SHoldStart {
      assert s.workers[s.selected := s.workers[s.selected]] == s.workers;
      WeightsUpdate(s.workers, s.startFlag, s.selected, s.workers[s.selected], true);
    } else if s.sched == SFlagSet {
      WeightsWake(s.workers, s.startFlag);
    }
  }

  /** Every step other than a new selection leaves less to do. */
  lemma StepReducesRank(s: State, a: Actor)
    requires Shaped(s) && Step(s, a).Some? && !(a.ByScheduler? && s.sched == Selecting)
    ensures Shaped(Step(s, a).value) && Rank(Step(s, a).value) < Rank(s)
  {
    hide WorkerStep, SchedStep, Rank;
    match a
    case ByScheduler(next) => SchedStepReducesRank(s, next);
    case ByWorker(w) => WorkerStepReducesRank(s, w);
  }

  /** Bounded response: in every run, from any state on, no more steps than its rank can pass before
      the scheduler makes a new selection. With Progress, every dispatch is answered, whichever of
      the possible steps is taken. */
  lemma {:induction false} BoundedResponse(states: seq<State>, actors: seq<Actor>, k: nat, l: nat)
    requires Run(states, actors) && k <= l < |states|
    requires forall i :: k <= i < l ==> !(actors[i].ByScheduler? && states[i].sched == Selecting)
    ensures Shaped(states[k]) && Shaped(states[l]) && Rank(states[l]) + (l - k) <= Rank(states[k])
    decreases l - k
  {
    hide Inv, Step, Rank;
    RunInv(states, actors, k);
    InvShaped(states[k]);
    if k < l {
      assert Step(states[k], actors[k]) == Some(states[k + 1]);
      StepReducesRank(states[k], actors[k]);
      BoundedResponse(states, actors, k + 1, l);
    }
  }

  lemma {:induction false} WeightsBounded(workers: seq<WorkerPc>, flags: seq<bool>)
    requires |workers| == |flags|
    ensures Weights(workers, flags) <= 20 * |workers|
  {
    if workers != [] { WeightsBounded(workers[..|workers| - 1], flags[..|flags| - 1]); }
  }

  /** The bound depends on the number of workers only. */
  lemma RankBounded(s: State)
    requires Shaped(s)
    ensures Rank(s) <= 18 + 22 * |s.workers|
  {
    WeightsBounded(s.workers, s.startFlag);
  }
}
