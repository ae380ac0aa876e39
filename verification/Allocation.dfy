/**
 The greedy allocation of tasks to edge nodes, on values. Times are real numbers. The main results:
 the chosen node is the best of all feasible ones, what is placed stays schedulable, nothing is
 lost, and no task that is left over fits anywhere at the end.
 */
module Allocation {

  import opened Options

  datatype Task = Task(taskId: int, priority: int, fps: real, optTime: real, deadline: real, sensorId: int) {
    predicate Valid() { fps > 0.0 && optTime > 0.0 && deadline > 0.0 }
  }

  predicate AllValid(tasks: seq<Task>) {
    forall k :: 0 <= k < |tasks| ==> tasks[k].Valid()
  }

  predicate DistinctIds(tasks: seq<Task>) {
    forall k, l :: 0 <= k < l < |tasks| ==> tasks[k].taskId != tasks[l].taskId
  }

  /** The communication delay of a task's data to node i. */
  type Delays = (Task, nat) -> real

  ghost predicate NonNegative(delay: Delays) {
    forall t: Task, i: nat :: delay(t, i) >= 0.0
  }

  // ----- execution time and load -----

  /** Time per second that the tasks together need. */
  function TotalTime(tasks: seq<Task>): real {
    if tasks == [] then 0.0
    else TotalTime(tasks[..|tasks| - 1]) + tasks[|tasks| - 1].fps * tasks[|tasks| - 1].optTime
  }

  /** Execution time of task t among the given tasks. */
  function ExecTime(tasks: seq<Task>, t: Task): real
    requires t.Valid()
  {
    TotalTime(tasks) / t.fps
  }

  function Load(tasks: seq<Task>): real
    requires AllValid(tasks)
  {
    if tasks == [] then 0.0
    else Load(tasks[..|tasks| - 1]) + tasks[|tasks| - 1].optTime / tasks[|tasks| - 1].deadline
  }

  /** All the tasks meet their deadlines, with the transfer delay d on top. */
  predicate Schedulable(tasks: seq<Task>, d: real)
    requires AllValid(tasks)
  {
    forall k :: 0 <= k < |tasks| ==> ExecTime(tasks, tasks[k]) + d <= tasks[k].deadline
  }

  /** Task t can be added to a node that has the given tasks. */
  predicate Feasible(tasks: seq<Task>, t: Task, d: real)
    requires AllValid(tasks) && t.Valid()
  {
    Schedulable(tasks + [t], d)
  }

  lemma {:induction false} TotalTimeNonNegative(tasks: seq<Task>)
    requires AllValid(tasks)
    ensures TotalTime(tasks) >= 0.0
  {
    if tasks != [] { TotalTimeNonNegative(tasks[..|tasks| - 1]); }
  }

  lemma {:induction false} TotalTimeConcat(a: seq<Task>, b: seq<Task>)
    ensures TotalTime(a + b) == TotalTime(a) + TotalTime(b)
  {
    if b == [] {
      assert a + b == a;
    } else {
      assert (a + b)[..|a + b| - 1] == a + b[..|b| - 1];
      TotalTimeConcat(a, b[..|b| - 1]);
    }
  }

  lemma DivideMonotone(x: real, y: real, f: real)
    requires x <= y && f > 0.0
    ensures x / f <= y / f
  {
    assert (y / f - x / f) * f == y - x;
    SignOfProduct(y / f - x / f, f);
  }

  lemma SignOfProduct(q: real, f: real)
    requires f > 0.0
    ensures q * f >= 0.0 <==> q >= 0.0
  {
  }

  /** What the total is: a sum over the tasks of rate times processing time. */
  lemma TotalTimeOne(t: Task)
    ensures TotalTime([]) == 0.0 && TotalTime([t]) == t.fps * t.optTime
  {
    assert [t][..0] == [];
  }

  lemma DivideIff(x: real, f: real, y: real)
    requires f > 0.0
    ensures x / f <= y <==> x <= y * f
  {
    var q := x / f;
    assert q * f == x;
    SignOfProduct(y - q, f);
    assert (y - q) * f == y * f - x;
  }

  /** Schedulability in terms of the tasks: shared at their rates, the total time fits into what the
      delay leaves of every deadline. */
  lemma SchedulableMeans(tasks: seq<Task>, d: real)
    requires AllValid(tasks)
    ensures Schedulable(tasks, d) <==>
            forall k :: 0 <= k < |tasks| ==> TotalTime(tasks) <= (tasks[k].deadline - d) * tasks[k].fps
  {
    hide TotalTime;
    forall k | 0 <= k < |tasks|
      ensures ExecTime(tasks, tasks[k]) + d <= tasks[k].deadline
              <==> TotalTime(tasks) <= (tasks[k].deadline - d) * tasks[k].fps
    {
      DivideIff(TotalTime(tasks), tasks[k].fps, tasks[k].deadline - d);
    }
  }

  /** Feasibility, in terms of the tasks: shared at their rates, the total time fits into what the delay
      leaves of every deadline. */
  lemma FeasibleIff(tasks: seq<Task>, t: Task, d: real)
    requires AllValid(tasks) && t.Valid()
    ensures Feasible(tasks, t, d) <==>
            forall k :: 0 <= k < |tasks + [t]| ==>
              TotalTime(tasks + [t]) <= ((tasks + [t])[k].deadline - d) * (tasks + [t])[k].fps
  {
    hide TotalTime, Schedulable;
    SchedulableMeans(tasks + [t], d);
  }

  // ----- what the load is -----

  lemma {:induction false} LoadConcat(a: seq<Task>, b: seq<Task>)
    requires AllValid(a) && AllValid(b)
    ensures AllValid(a + b) && Load(a + b) == Load(a) + Load(b)
    decreases |b|
  {
    if b == [] {
      assert a + b == a;
    } else {
      assert (a + b)[..|a + b| - 1] == a + b[..|b| - 1];
      LoadConcat(a, b[..|b| - 1]);
    }
  }

  /** What the load is: a sum over the tasks of processing time over deadline. */
  lemma LoadOne(t: Task)
    requires t.Valid()
    ensures Load([]) == 0.0 && Load([t]) * t.deadline == t.optTime && Load([t]) > 0.0
  {
    assert [t][..0] == [];
    var q := t.optTime / t.deadline;
    assert q * t.deadline == t.optTime;
    SignOfProduct(-q, t.deadline);
    assert -q * t.deadline == -t.optTime;
  }

  /** Tasks added to a node raise its load. */
  lemma {:induction false} LoadGrows(tasks: seq<Task>, more: seq<Task>)
    requires AllValid(tasks) && AllValid(more) && more != []
    ensures AllValid(tasks + more) && Load(tasks) < Load(tasks + more)
    decreases |more|
  {
    hide Load;
    var less, last := more[..|more| - 1], more[|more| - 1];
    LoadOne(last);
    LoadConcat(tasks + less, [last]);
    assert tasks + more == (tasks + less) + [last];
    if less != [] { LoadGrows(tasks, less); } else { assert tasks + less == tasks; }
  }

  /** Adding tasks to a node never makes another task fit. */
  lemma FeasibilityIsLost(tasks: seq<Task>, more: seq<Task>, t: Task, d: real)
    requires AllValid(tasks) && AllValid(more) && t.Valid() && AllValid(tasks + more)
    requires Feasible(tasks + more, t, d)
    ensures Feasible(tasks, t, d)
  {
    hide TotalTime;
    var small, big := tasks + [t], tasks + more + [t];
    TotalTimeConcat(tasks, [t]);
    TotalTimeConcat(tasks + more, [t]);
    TotalTimeConcat(tasks, more);
    TotalTimeNonNegative(more);
    forall k | 0 <= k < |small|
      ensures ExecTime(small, small[k]) + d <= small[k].deadline
    {
      var l := if k < |tasks| then k else |big| - 1;
      assert big[l] == small[k];
      DivideMonotone(TotalTime(small), TotalTime(big), small[k].fps);
    }
  }

  /** A delay beyond the task's own deadline rules a node out. */
  lemma TooFarAway(tasks: seq<Task>, t: Task, d: real)
    requires AllValid(tasks) && t.Valid() && d > t.deadline
    ensures !Feasible(tasks, t, d)
  {
    hide TotalTime;
    var all := tasks + [t];
    TotalTimeNonNegative(all);
    DivideMonotone(0.0, TotalTime(all), t.fps);
    assert all[|tasks|] == t;
  }

  // ----- the best node -----

  type Lists = seq<seq<Task>>

  predicate ListsValid(lists: Lists) {
    forall i :: 0 <= i < |lists| ==> AllValid(lists[i])
  }

  predicate Fits(lists: Lists, t: Task, d: seq<real>, i: nat)
    requires ListsValid(lists) && t.Valid() && |d| == |lists| && i < |lists|
  {
    Feasible(lists[i], t, d[i])
  }

  function LoadWith(lists: Lists, t: Task, i: nat): real
    requires ListsValid(lists) && t.Valid() && i < |lists|
  {
    Load(lists[i] + [t])
  }

  /** Node i precedes node j in the order of delays; ties keep the order of the nodes. */
  predicate Nearer(d: seq<real>, i: nat, j: nat)
    requires i < |d| && j < |d|
  {
    d[i] < d[j] || (d[i] == d[j] && i <= j)
  }

  /** Node i is at least as good as node j: less load, or the same load and nearer. */
  predicate AtLeastAsGood(lists: Lists, t: Task, d: seq<real>, i: nat, j: nat)
    requires ListsValid(lists) && t.Valid() && |d| == |lists| && i < |lists| && j < |lists|
  {
    LoadWith(lists, t, i) < LoadWith(lists, t, j) ||
    (LoadWith(lists, t, i) == LoadWith(lists, t, j) && Nearer(d, i, j))
  }

  /** The best of the feasible nodes, all nodes considered. */
  predicate IsBest(lists: Lists, t: Task, d: seq<real>, r: Option<nat>)
    requires ListsValid(lists) && t.Valid() && |d| == |lists|
  {
    match r
    case None => forall i :: 0 <= i < |lists| ==> !Fits(lists, t, d, i)
    case Some(b) =>
      b < |lists| && Fits(lists, t, d, b) &&
      forall i :: 0 <= i < |lists| && Fits(lists, t, d, i) ==> AtLeastAsGood(lists, t, d, b, i)
  }

  lemma BestIsUnique(lists: Lists, t: Task, d: seq<real>, r: Option<nat>, r': Option<nat>)
    requires ListsValid(lists) && t.Valid() && |d| == |lists|
    requires IsBest(lists, t, d, r) && IsBest(lists, t, d, r')
    ensures r == r'
  {
    hide Feasible, Load;
  }

  /** Search over the first n nodes without any order or early exit. */
  function BestOf(lists: Lists, t: Task, d: seq<real>, n: nat): (r: Option<nat>)
    requires ListsValid(lists) && t.Valid() && |d| == |lists| && n <= |lists|
    ensures r.Some? ==> r.value < n
  {
    if n == 0 then None
    else
      var r, i := BestOf(lists, t, d, n - 1), n - 1;
      if Fits(lists, t, d, i) && (r.None? || !AtLeastAsGood(lists, t, d, r.value, i)) then Some(i) else r
  }

  function Best(lists: Lists, t: Task, d: seq<real>): (r: Option<nat>)
    requires ListsValid(lists) && t.Valid() && |d| == |lists|
    ensures r.Some? ==> r.value < |lists|
  {
    BestOf(lists, t, d, |lists|)
  }

  lemma {:induction false} BestOfIsBest(lists: Lists, t: Task, d: seq<real>, n: nat)
    requires ListsValid(lists) && t.Valid() && |d| == |lists| && n <= |lists|
    ensures match BestOf(lists, t, d, n)
            case None => forall i :: 0 <= i < n ==> !Fits(lists, t, d, i)
            case Some(b) =>
              Fits(lists, t, d, b) &&
              forall i :: 0 <= i < n && Fits(lists, t, d, i) ==> AtLeastAsGood(lists, t, d, b, i)
  {
    hide Fits, LoadWith;
    if n > 0 { BestOfIsBest(lists, t, d, n - 1); }
  }

  lemma BestIsBest(lists: Lists, t: Task, d: seq<real>)
    requires ListsValid(lists) && t.Valid() && |d| == |lists|
    ensures IsBest(lists, t, d, Best(lists, t, d))
  {
    hide Fits, AtLeastAsGood;
    BestOfIsBest(lists, t, d, |lists|);
  }

  /** What the best node is, in terms of loads and delays: the task fits there, and on every other node
      it fits on it would make more load, or as much load at no shorter delay, the first node on ties. */
  lemma BestMeans(lists: Lists, t: Task, d: seq<real>)
    requires ListsValid(lists) && t.Valid() && |d| == |lists|
    ensures match Best(lists, t, d)
            case None => forall i :: 0 <= i < |lists| ==> !Feasible(lists[i], t, d[i])
            case Some(b) =>
              Feasible(lists[b], t, d[b]) &&
              forall i :: 0 <= i < |lists| && Feasible(lists[i], t, d[i]) ==>
                Load(lists[b] + [t]) < Load(lists[i] + [t]) ||
                (Load(lists[b] + [t]) == Load(lists[i] + [t]) && (d[b] < d[i] || (d[b] == d[i] && b <= i)))
  {
    hide Feasible, Load, Best;
    BestIsBest(lists, t, d);
    match Best(lists, t, d)
    case None =>
      forall i | 0 <= i < |lists| ensures !Feasible(lists[i], t, d[i]) { assert !Fits(lists, t, d, i); }
    case Some(b) =>
      forall i | 0 <= i < |lists| && Feasible(lists[i], t, d[i])
        ensures Load(lists[b] + [t]) < Load(lists[i] + [t]) ||
                (Load(lists[b] + [t]) == Load(lists[i] + [t]) && (d[b] < d[i] || (d[b] == d[i] && b <= i)))
      {
        assert Fits(lists, t, d, i) && AtLeastAsGood(lists, t, d, b, i);
      }
  }

  // ----- the allocation -----

  /** What is on the nodes, and what is still to be placed. */
  datatype Placement = Placement(lists: Lists, candidates: seq<Task>) {
    predicate Valid() { ListsValid(lists) && AllValid(candidates) }
  }

  function DelaysOf(delay: Delays, t: Task, n: nat): (d: seq<real>)
    ensures |d| == n
  {
    seq(n, (i: nat) => delay(t, i))
  }

  /** Removes the first occurrence. */
  function Remove(s: seq<Task>, t: Task): seq<Task> {
    if s == [] then [] else if s[0] == t then s[1..] else [s[0]] + Remove(s[1..], t)
  }

  lemma {:induction false} RemoveMultiset(s: seq<Task>, t: Task)
    ensures t in s ==> multiset(Remove(s, t)) == multiset(s) - multiset{t}
    ensures t !in s ==> Remove(s, t) == s
    ensures forall u :: u in Remove(s, t) ==> u in s
  {
    if s != [] {
      assert s == [s[0]] + s[1..];
      RemoveMultiset(s[1..], t);
    }
  }

  lemma RemoveValid(s: seq<Task>, t: Task)
    requires AllValid(s)
    ensures AllValid(Remove(s, t))
  {
    RemoveMultiset(s, t);
    forall k | 0 <= k < |Remove(s, t)| ensures Remove(s, t)[k].Valid() { assert Remove(s, t)[k] in s; }
  }

  lemma RemoveGone(s: seq<Task>, t: Task)
    requires NoneTwice(multiset(s))
    ensures t !in Remove(s, t)
  {
    RemoveMultiset(s, t);
    assert multiset(s)[t] <= 1;
    assert t !in multiset(Remove(s, t));
  }

  /** Appends the task to the list of a node, unless it is there. */
  function Insert(tasks: seq<Task>, t: Task): seq<Task> {
    if t in tasks then tasks else tasks + [t]
  }

  /** Places one task on the best node, or leaves it where it is. */
  function PlaceOne(p: Placement, t: Task, delay: Delays): (q: Placement)
    requires p.Valid() && t.Valid()
    ensures q.Valid() && |q.lists| == |p.lists|
  {
    var b := Best(p.lists, t, DelaysOf(delay, t, |p.lists|));
    RemoveValid(p.candidates, t);
    if b.None? then p
    else Placement(p.lists[b.value := Insert(p.lists[b.value], t)], Remove(p.candidates, t))
  }

  /** Places the tasks of a queue one after the other. */
  function PlaceAll(p: Placement, queue: seq<Task>, delay: Delays): (q: Placement)
    requires p.Valid() && AllValid(queue)
    ensures q.Valid() && |q.lists| == |p.lists|
    decreases |queue|
  {
    if queue == [] then p else PlaceAll(PlaceOne(p, queue[0], delay), queue[1..], delay)
  }

  // ----- nothing is lost -----

  function Placed(lists: Lists): multiset<Task> {
    if lists == [] then multiset{} else Placed(lists[..|lists| - 1]) + multiset(lists[|lists| - 1])
  }

  lemma {:induction false} PlacedUpdate(lists: Lists, i: nat, t: Task)
    requires i < |lists|
    ensures Placed(lists[i := lists[i] + [t]]) == Placed(lists) + multiset{t}
  {
    var n := |lists| - 1;
    if i < n {
      PlacedUpdate(lists[..n], i, t);
      assert lists[i := lists[i] + [t]][..n] == lists[..n][i := lists[i] + [t]];
    } else {
      assert lists[i := lists[i] + [t]][..n] == lists[..n];
    }
  }

  lemma {:induction false} PlacedMember(lists: Lists, i: nat, t: Task)
    requires i < |lists| && t in lists[i]
    ensures t in Placed(lists)
  {
    if i < |lists| - 1 { PlacedMember(lists[..|lists| - 1], i, t); }
  }

  /** No task twice. */
  ghost predicate NoneTwice(m: multiset<Task>) {
    forall t :: m[t] <= 1
  }

  lemma PlaceOneKeepsTasks(p: Placement, t: Task, delay: Delays)
    requires p.Valid() && t.Valid() && t in p.candidates
    requires NoneTwice(Placed(p.lists) + multiset(p.candidates))
    ensures var q := PlaceOne(p, t, delay);
            Placed(q.lists) + multiset(q.candidates) == Placed(p.lists) + multiset(p.candidates) &&
            (q.candidates == p.candidates || q.candidates == Remove(p.candidates, t))
  {
    hide Best, Placed;
    var b := Best(p.lists, t, DelaysOf(delay, t, |p.lists|));
    if b.Some? {
      RemoveMultiset(p.candidates, t);
      if t in p.lists[b.value] { PlacedMember(p.lists, b.value, t); }
      assert (Placed(p.lists) + multiset(p.candidates))[t] <= 1;
      PlacedUpdate(p.lists, b.value, t);
    }
  }

  lemma CandidateIsNotPlaced(p: Placement, t: Task, i: nat)
    requires t in p.candidates && i < |p.lists| && NoneTwice(Placed(p.lists) + multiset(p.candidates))
    ensures t !in p.lists[i]
  {
    hide Placed;
    assert (Placed(p.lists) + multiset(p.candidates))[t] <= 1;
    if t in p.lists[i] { PlacedMember(p.lists, i, t); }
  }

  /** Node b takes the task, and no node that could take it would be less loaded or as loaded and nearer. */
  predicate TakenBy(p: Placement, t: Task, delay: Delays, b: nat, q: Placement)
    requires p.Valid() && t.Valid()
  {
    b < |p.lists| && Feasible(p.lists[b], t, delay(t, b)) &&
    q.lists == p.lists[b := p.lists[b] + [t]] && q.candidates == Remove(p.candidates, t) &&
    forall i :: 0 <= i < |p.lists| && Feasible(p.lists[i], t, delay(t, i)) ==>
      Load(p.lists[b] + [t]) < Load(p.lists[i] + [t]) ||
      (Load(p.lists[b] + [t]) == Load(p.lists[i] + [t]) &&
       (delay(t, b) < delay(t, i) || (delay(t, b) == delay(t, i) && b <= i)))
  }

  /** A task that fits somewhere goes to the best node and leaves the candidates; otherwise nothing
      changes. */
  lemma PlaceOneTakes(p: Placement, t: Task, delay: Delays)
    requires p.Valid() && t.Valid() && t in p.candidates
    requires NoneTwice(Placed(p.lists) + multiset(p.candidates))
    ensures var q := PlaceOne(p, t, delay);
            if forall i :: 0 <= i < |p.lists| ==> !Feasible(p.lists[i], t, delay(t, i)) then q == p
            else exists b :: TakenBy(p, t, delay, b, q)
  {
    hide Best, Placed, Feasible, Load, Remove;
    var d := DelaysOf(delay, t, |p.lists|);
    BestMeans(p.lists, t, d);
    var r := Best(p.lists, t, d);
    if r.Some? {
      CandidateIsNotPlaced(p, t, r.value);
      assert TakenBy(p, t, delay, r.value, PlaceOne(p, t, delay));
    }
  }

  /** A queue is placed in order: first its front, then, on what that leaves, the rest. */
  lemma {:induction false} PlaceAllInOrder(p: Placement, front: seq<Task>, rest: seq<Task>, delay: Delays)
    requires p.Valid() && AllValid(front) && AllValid(rest) && AllValid(front + rest)
    ensures PlaceAll(p, front + rest, delay) == PlaceAll(PlaceAll(p, front, delay), rest, delay)
    ensures |front| == 1 ==> PlaceAll(p, front, delay) == PlaceOne(p, front[0], delay)
    decreases |front|
  {
    hide PlaceOne;
    if front == [] {
      assert front + rest == rest;
    } else {
      assert (front + rest)[1..] == front[1..] + rest;
      PlaceAllInOrder(PlaceOne(p, front[0], delay), front[1..], rest, delay);
    }
  }

  /** Partition: after the allocation every task is on exactly one node or among the candidates. */
  lemma {:induction false} PlaceAllKeepsTasks(p: Placement, queue: seq<Task>, delay: Delays)
    requires p.Valid() && AllValid(queue) && multiset(queue) <= multiset(p.candidates)
    requires NoneTwice(Placed(p.lists) + multiset(p.candidates))
    ensures var q := PlaceAll(p, queue, delay);
            Placed(q.lists) + multiset(q.candidates) == Placed(p.lists) + multiset(p.candidates)
    decreases |queue|
  {
    hide PlaceOne, Placed;
    if queue != [] {
      QueueRest(p, queue, delay);
      PlaceAllKeepsTasks(PlaceOne(p, queue[0], delay), queue[1..], delay);
    }
  }

  /** After the first task the rest of the queue is still waiting. */
  lemma QueueRest(p: Placement, queue: seq<Task>, delay: Delays)
    requires p.Valid() && AllValid(queue) && queue != [] && multiset(queue) <= multiset(p.candidates)
    requires NoneTwice(Placed(p.lists) + multiset(p.candidates))
    ensures var q := PlaceOne(p, queue[0], delay);
            Placed(q.lists) + multiset(q.candidates) == Placed(p.lists) + multiset(p.candidates) &&
            multiset(queue[1..]) <= multiset(q.candidates) && queue[0] in p.candidates
  {
    hide PlaceOne, Placed;
    assert queue == [queue[0]] + queue[1..];
    assert queue[0] in multiset(queue);
    PlaceOneKeepsTasks(p, queue[0], delay);
    RemoveMultiset(p.candidates, queue[0]);
  }

  // ----- what is placed stays schedulable -----

  /** Every task on a node meets its deadline, also with the transfer delay of the newest task. */
  predicate NodeSchedulable(tasks: seq<Task>, delay: Delays, i: nat)
    requires AllValid(tasks)
  {
    tasks != [] ==> Schedulable(tasks, delay(tasks[|tasks| - 1], i))
  }

  predicate AllSchedulable(p: Placement, delay: Delays)
    requires p.Valid()
  {
    forall i :: 0 <= i < |p.lists| ==> NodeSchedulable(p.lists[i], delay, i)
  }

  lemma PlaceOneKeepsSchedulable(p: Placement, t: Task, delay: Delays)
    requires p.Valid() && t.Valid() && AllSchedulable(p, delay)
    ensures AllSchedulable(PlaceOne(p, t, delay), delay)
  {
    hide ExecTime, Best, IsBest;
    var d := DelaysOf(delay, t, |p.lists|);
    BestIsFeasible(p.lists, t, d);
  }

  lemma BestIsFeasible(lists: Lists, t: Task, d: seq<real>)
    requires ListsValid(lists) && t.Valid() && |d| == |lists|
    ensures var b := Best(lists, t, d);
            if b.Some? then Fits(lists, t, d, b.value) else forall i :: 0 <= i < |lists| ==> !Fits(lists, t, d, i)
  {
    hide Fits, Best;
    BestIsBest(lists, t, d);
  }

  /** Whatever the queue, schedulability survives the whole allocation. */
  lemma {:induction false} PlaceAllKeepsSchedulable(p: Placement, queue: seq<Task>, delay: Delays)
    requires p.Valid() && AllValid(queue) && AllSchedulable(p, delay)
    ensures AllSchedulable(PlaceAll(p, queue, delay), delay)
    decreases |queue|
  {
    hide PlaceOne, AllSchedulable;
    if queue != [] {
      PlaceOneKeepsSchedulable(p, queue[0], delay);
      PlaceAllKeepsSchedulable(PlaceOne(p, queue[0], delay), queue[1..], delay);
    }
  }

  // ----- maximality -----

  /** The task fits on no node. */
  predicate FitsNowhere(lists: Lists, t: Task, delay: Delays)
    requires ListsValid(lists) && t.Valid()
  {
    forall i :: 0 <= i < |lists| ==> !Feasible(lists[i], t, delay(t, i))
  }

  /** Lists that only grow at the end. */
  predicate Grown(lists: Lists, lists': Lists) {
    |lists| == |lists'| && forall i :: 0 <= i < |lists| ==> lists[i] <= lists'[i]
  }

  lemma PlaceOneGrows(p: Placement, t: Task, delay: Delays)
    requires p.Valid() && t.Valid()
    ensures Grown(p.lists, PlaceOne(p, t, delay).lists)
  {
    hide Best;
  }

  lemma {:induction false} PlaceAllGrows(p: Placement, queue: seq<Task>, delay: Delays)
    requires p.Valid() && AllValid(queue)
    ensures Grown(p.lists, PlaceAll(p, queue, delay).lists)
    decreases |queue|
  {
    hide PlaceOne;
    if queue != [] {
      PlaceOneGrows(p, queue[0], delay);
      PlaceAllGrows(PlaceOne(p, queue[0], delay), queue[1..], delay);
    }
  }

  /** A task that fits nowhere does not fit on fuller nodes either. */
  lemma FitsNowhereStays(lists: Lists, lists': Lists, t: Task, delay: Delays)
    requires ListsValid(lists) && ListsValid(lists') && t.Valid() && Grown(lists, lists')
    requires FitsNowhere(lists, t, delay)
    ensures FitsNowhere(lists', t, delay)
  {
    hide Feasible;
    forall i | 0 <= i < |lists'|
      ensures !Feasible(lists'[i], t, delay(t, i))
    {
      var more := lists'[i][|lists[i]|..];
      assert lists'[i] == lists[i] + more;
      if Feasible(lists'[i], t, delay(t, i)) { FeasibilityIsLost(lists[i], more, t, delay(t, i)); }
    }
  }

  lemma LeftOverFitsNowhere(p: Placement, t: Task, delay: Delays)
    requires p.Valid() && t.Valid() && t in p.candidates
    requires NoneTwice(multiset(p.candidates)) && t in PlaceOne(p, t, delay).candidates
    ensures FitsNowhere(PlaceOne(p, t, delay).lists, t, delay)
  {
    hide Best, Feasible;
    var d := DelaysOf(delay, t, |p.lists|);
    BestIsFeasible(p.lists, t, d);
    RemoveGone(p.candidates, t);
    forall i | 0 <= i < |p.lists| ensures !Feasible(p.lists[i], t, delay(t, i)) { assert !Fits(p.lists, t, d, i); }
  }

  /** Maximality: at the end, no task of the queue that is still a candidate fits on any node. */
  lemma {:induction false} NothingLeftFits(p: Placement, queue: seq<Task>, delay: Delays, u: Task)
    requires p.Valid() && AllValid(queue) && multiset(queue) <= multiset(p.candidates)
    requires NoneTwice(Placed(p.lists) + multiset(p.candidates))
    requires u in queue && u in PlaceAll(p, queue, delay).candidates
    ensures u.Valid() && FitsNowhere(PlaceAll(p, queue, delay).lists, u, delay)
    decreases |queue|
  {
    hide PlaceOne, Placed, FitsNowhere;
    var t, q := queue[0], PlaceOne(p, queue[0], delay);
    QueueRest(p, queue, delay);
    if u == t {
      PlaceAllGrows(q, queue[1..], delay);
      CandidatesShrink(q, queue[1..], delay);
      CandidatesOnce(p);
      LeftOverFitsNowhere(p, t, delay);
      FitsNowhereStays(q.lists, PlaceAll(q, queue[1..], delay).lists, t, delay);
    } else {
      assert u in queue[1..];
      NothingLeftFits(q, queue[1..], delay, u);
    }
  }

  lemma CandidatesOnce(p: Placement)
    requires NoneTwice(Placed(p.lists) + multiset(p.candidates))
    ensures NoneTwice(multiset(p.candidates))
  {
    forall t ensures multiset(p.candidates)[t] <= 1 { assert (Placed(p.lists) + multiset(p.candidates))[t] <= 1; }
  }

  lemma {:induction false} CandidatesShrink(p: Placement, queue: seq<Task>, delay: Delays)
    requires p.Valid() && AllValid(queue)
    ensures forall u :: u in PlaceAll(p, queue, delay).candidates ==> u in p.candidates
    decreases |queue|
  {
    hide Best;
    if queue != [] {
      RemoveMultiset(p.candidates, queue[0]);
      CandidatesShrink(PlaceOne(p, queue[0], delay), queue[1..], delay);
    }
  }
}
