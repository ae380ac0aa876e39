/**
 The allocator and the edge nodes as objects. Allocate is proved to compute the placement of module
 Allocation, although it walks the nodes in order of delay and stops at the first one that is too
 far away.
 */
module TaskAllocator {
  import opened Allocation
  import opened Options

  class EdgeNode {
    const id: int
    var tasklist: seq<Task>
    var lastTasklist: seq<Task>
    var updateFlag: bool
    /** The list at the last report. */
    ghost var reported: seq<Task>

    ghost predicate Valid()
      reads this
    {
      reported == if updateFlag then lastTasklist else tasklist
    }

    constructor (id: int)
      ensures Valid() && this.id == id && tasklist == [] && lastTasklist == [] && !updateFlag && reported == []
    {
      this.id := id;
      tasklist, lastTasklist, updateFlag, reported := [], [], false, [];
    }

    /** Adds a task once; the first change after a report keeps the list as it was. */
    method InsertTask(task: Task)
      modifies this
      ensures tasklist == if task in old(tasklist) then old(tasklist) else old(tasklist) + [task]
      ensures updateFlag == (old(updateFlag) || task !in old(tasklist))
      ensures lastTasklist == if old(updateFlag) then old(lastTasklist) else old(tasklist)
      ensures reported == old(reported) && (old(Valid()) ==> Valid())
    {
      if !updateFlag { lastTasklist := tasklist; }
      if task in tasklist { return; }
      updateFlag := true;
      tasklist := tasklist + [task];
    }

    /** Reports whether the set of task ids differs from that at the last report. */
    method IsChanged() returns (changed: bool)
      requires Valid()
      modifies this`updateFlag, this`reported
      ensures Valid() && reported == tasklist && !updateFlag
      ensures changed == (Ids(tasklist) != Ids(old(reported)))
    {
      reported := tasklist;
      if updateFlag {
        updateFlag := false;
        return Ids(tasklist) != Ids(lastTasklist);
      }
      return false;
    }
  }

  function Ids(tasks: seq<Task>): set<int> {
    set k | 0 <= k < |tasks| :: tasks[k].taskId
  }

  /** Two lists have the same set of ids exactly if each id of one is an id of the other. */
  lemma SameIdsIff(a: seq<Task>, b: seq<Task>)
    ensures Ids(a) == Ids(b) <==> IdsAmong(a, b) && IdsAmong(b, a)
  {
    IdsAmongIff(a, b);
    IdsAmongIff(b, a);
  }

  /** Some task of the list has the id. */
  predicate HasId(tasks: seq<Task>, id: int) {
    exists k :: 0 <= k < |tasks| && tasks[k].taskId == id
  }

  /** Every id of the first list is an id of the second. */
  predicate IdsAmong(a: seq<Task>, b: seq<Task>) {
    forall k :: 0 <= k < |a| ==> HasId(b, a[k].taskId)
  }

  lemma IdsAmongIff(a: seq<Task>, b: seq<Task>)
    ensures IdsAmong(a, b) <==> Ids(a) <= Ids(b)
  {
    hide Ids, HasId;
    forall id ensures id in Ids(b) <==> HasId(b, id) { IdsMember(b, id); }
    forall k | 0 <= k < |a| ensures a[k].taskId in Ids(a) { IdOf(a, k); }
    if IdsAmong(a, b) {
      forall id | id in Ids(a) ensures id in Ids(b) {
        IdsMember(a, id);
        HasIdMeans(a, id);
      }
    }
  }

  lemma IdOf(tasks: seq<Task>, k: nat)
    requires k < |tasks|
    ensures tasks[k].taskId in Ids(tasks)
  {
  }

  lemma HasIdMeans(tasks: seq<Task>, id: int)
    ensures HasId(tasks, id) <==> exists k :: 0 <= k < |tasks| && tasks[k].taskId == id
  {
  }

  lemma IdsMember(tasks: seq<Task>, id: int)
    ensures id in Ids(tasks) <==> HasId(tasks, id)
  {
  }

  // ----- the order of the queue and of the nodes -----

  predicate DistinctPriorities(tasks: seq<Task>) {
    forall k, l :: 0 <= k < l < |tasks| ==> tasks[k].priority != tasks[l].priority
  }

  /** The index of a task with the smallest priority value. */
  function FirstIndex(queue: seq<Task>): (i: nat)
    requires queue != []
    ensures i < |queue| && forall k :: 0 <= k < |queue| ==> queue[i].priority <= queue[k].priority
  {
    if |queue| == 1 then 0
    else
      var i := FirstIndex(queue[..|queue| - 1]);
      if queue[|queue| - 1].priority < queue[i].priority then |queue| - 1 else i
  }

  function RemoveAt(queue: seq<Task>, i: nat): seq<Task>
    requires i < |queue|
  {
    queue[..i] + queue[i + 1..]
  }

  /** The tasks in the order in which a priority queue yields them. */
  function Drain(queue: seq<Task>): seq<Task>
    decreases |queue|
  {
    if queue == [] then []
    else
      var i := FirstIndex(queue);
      [queue[i]] + Drain(RemoveAt(queue, i))
  }

  lemma RemoveAtMultiset(queue: seq<Task>, i: nat)
    requires i < |queue|
    ensures multiset(queue) == multiset{queue[i]} + multiset(RemoveAt(queue, i))
  {
    assert queue == queue[..i] + [queue[i]] + queue[i + 1..];
  }

  /** Draining loses nothing and yields the tasks by priority. */
  lemma {:induction false} DrainOrders(queue: seq<Task>)
    ensures multiset(Drain(queue)) == multiset(queue)
    ensures forall k, l :: 0 <= k < l < |Drain(queue)| ==> Drain(queue)[k].priority <= Drain(queue)[l].priority
    decreases |queue|
  {
    if queue != [] {
      var i := FirstIndex(queue);
      var rest := RemoveAt(queue, i);
      DrainOrders(rest);
      RemoveAtMultiset(queue, i);
      forall l | 0 <= l < |Drain(rest)|
        ensures queue[i].priority <= Drain(rest)[l].priority
      {
        assert Drain(rest)[l] in multiset(Drain(rest));
        assert Drain(rest)[l] in multiset(queue);
      }
    }
  }

  /** The place behind the last node that is not farther away than node i. */
  function PlaceOf(order: seq<nat>, d: seq<real>, i: nat): (p: nat)
    requires i < |d| && forall k :: 0 <= k < |order| ==> order[k] < |d|
    ensures p <= |order| && (p > 0 ==> d[order[p - 1]] <= d[i])
    ensures forall k :: p <= k < |order| ==> d[order[k]] > d[i]
  {
    if order == [] || d[order[|order| - 1]] <= d[i] then |order| else PlaceOf(order[..|order| - 1], d, i)
  }

  function InsertAt(order: seq<nat>, p: nat, i: nat): (r: seq<nat>)
    requires p <= |order|
    ensures |r| == |order| + 1
    ensures forall k :: 0 <= k < |r| ==> r[k] == if k < p then order[k] else if k == p then i else order[k - 1]
  {
    order[..p] + [i] + order[p..]
  }

  /** The first n nodes sorted by delay; ties keep the order of the nodes. */
  function SortedNodes(d: seq<real>, n: nat): (order: seq<nat>)
    requires n <= |d|
    ensures |order| == n && forall k :: 0 <= k < n ==> order[k] < n
  {
    if n == 0 then []
    else
      var order := SortedNodes(d, n - 1);
      InsertAt(order, PlaceOf(order, d, n - 1), n - 1)
  }

  predicate InDelayOrder(order: seq<nat>, d: seq<real>) {
    (forall k :: 0 <= k < |order| ==> order[k] < |d|) &&
    (forall k, l :: 0 <= k < l < |order| ==> Nearer(d, order[k], order[l]) && order[k] != order[l])
  }

  /** Before its place no node is farther away than node i. */
  lemma PlaceOfSplits(order: seq<nat>, d: seq<real>, i: nat, k: nat)
    requires i < |d| && InDelayOrder(order, d) && k < |order|
    ensures k < PlaceOf(order, d, i) <==> d[order[k]] <= d[i]
  {
    var p := PlaceOf(order, d, i);
    if k + 1 < p { assert Nearer(d, order[k], order[p - 1]); }
  }

  lemma InsertPair(order: seq<nat>, d: seq<real>, i: nat, k: nat, l: nat)
    requires i < |d| && InDelayOrder(order, d) && forall k :: 0 <= k < |order| ==> order[k] < i
    requires k < l <= |order|
    ensures var longer := InsertAt(order, PlaceOf(order, d, i), i);
            longer[k] < |d| && longer[l] < |d| && Nearer(d, longer[k], longer[l]) && longer[k] != longer[l]
  {
    var p := PlaceOf(order, d, i);
    if k == p {
      PlaceOfSplits(order, d, i, l - 1);
    } else if l == p {
      PlaceOfSplits(order, d, i, k);
    } else {
      var k', l' := if k < p then k else k - 1, if l < p then l else l - 1;
      assert k' < l' && Nearer(d, order[k'], order[l']);
    }
  }

  lemma InsertKeepsOrder(order: seq<nat>, d: seq<real>, i: nat)
    requires i < |d| && InDelayOrder(order, d) && forall k :: 0 <= k < |order| ==> order[k] < i
    ensures InDelayOrder(InsertAt(order, PlaceOf(order, d, i), i), d)
  {
    var longer := InsertAt(order, PlaceOf(order, d, i), i);
    forall k, l | 0 <= k < l < |longer|
      ensures longer[k] < |d| && longer[l] < |d| && Nearer(d, longer[k], longer[l]) && longer[k] != longer[l]
    {
      InsertPair(order, d, i, k, l);
    }
  }

  lemma {:induction false} SortedNodesSorted(d: seq<real>, n: nat)
    requires n <= |d|
    ensures InDelayOrder(SortedNodes(d, n), d)
  {
    hide InDelayOrder, InsertAt, PlaceOf;
    if n == 0 {
      NothingToOrder(d);
    } else {
      SortedNodesSorted(d, n - 1);
      InsertKeepsOrder(SortedNodes(d, n - 1), d, n - 1);
    }
  }

  lemma NothingToOrder(d: seq<real>)
    ensures InDelayOrder([], d)
  {
  }

  /** No node is missing. */
  lemma {:induction false} SortedNodesComplete(d: seq<real>, n: nat, i: nat) returns (k: nat)
    requires i < n <= |d|
    ensures k < n && SortedNodes(d, n)[k] == i
  {
    hide PlaceOf, InsertAt;
    var order := SortedNodes(d, n - 1);
    var p := PlaceOf(order, d, n - 1);
    if i == n - 1 {
      k := p;
    } else {
      k := SortedNodesComplete(d, n - 1, i);
      if k >= p { k := k + 1; }
    }
    InsertAtIndex(order, p, n - 1, k);
  }

  lemma InsertAtIndex(order: seq<nat>, p: nat, i: nat, k: nat)
    requires p <= |order| && k <= |order|
    ensures InsertAt(order, p, i)[k] == if k < p then order[k] else if k == p then i else order[k - 1]
  {
  }

  // ----- one node -----

  lemma TotalTimeNext(tasks: seq<Task>, k: nat)
    requires k < |tasks|
    ensures TotalTime(tasks[..k + 1]) == TotalTime(tasks[..k]) + tasks[k].fps * tasks[k].optTime
  {
    assert tasks[..k + 1][..k] == tasks[..k];
  }

  /** Execution times, by task id, if the task were added to the list. */
  method GetExecTime(tasklist: seq<Task>, task: Task) returns (execution: map<int, real>)
    requires AllValid(tasklist + [task]) && DistinctIds(tasklist + [task])
    ensures var tasks := tasklist + [task];
            forall k :: 0 <= k < |tasks| ==>
              tasks[k].taskId in execution && execution[tasks[k].taskId] * tasks[k].fps == TotalTime(tasks)
  {
    hide TotalTime;
    var tasks := tasklist + [task];
    var total := 0.0;
    TotalTimeOfNone();
    for k := 0 to |tasks|
      invariant total == TotalTime(tasks[..k])
    {
      TotalTimeNext(tasks, k);
      total := total + tasks[k].fps * tasks[k].optTime;
    }
    assert tasks[..|tasks|] == tasks;
    execution := map[];
    for k := 0 to |tasks|
      invariant forall l :: 0 <= l < k ==>
        tasks[l].taskId in execution && execution[tasks[l].taskId] * tasks[l].fps == TotalTime(tasks)
    {
      execution := execution[tasks[k].taskId := total / tasks[k].fps];
    }
  }

  lemma TimesIff(x: real, f: real, y: real)
    requires f > 0.0
    ensures x <= y <==> x * f <= y * f
  {
    SignOfProduct(y - x, f);
    assert (y - x) * f == y * f - x * f;
  }

  lemma TotalTimeOfNone()
    ensures TotalTime([]) == 0.0
  {
  }

  /** Counts the tasks that meet their deadlines, up to the first that does not: a node takes the task
      exactly when the total time fits into what the delay leaves of every deadline. */
  method CheckNode(tasklist: seq<Task>, task: Task, transTime: real) returns (ok: bool)
    requires AllValid(tasklist) && task.Valid() && DistinctIds(tasklist + [task])
    ensures ok == Feasible(tasklist, task, transTime)
    ensures var all := tasklist + [task];
            ok <==> forall k :: 0 <= k < |all| ==> TotalTime(all) <= (all[k].deadline - transTime) * all[k].fps
  {
    hide TotalTime, Feasible;
    FeasibleIff(tasklist, task, transTime);
    var execTime := GetExecTime(tasklist, task);
    var tasks := tasklist + [task];
    var count := 0;
    for k := 0 to |tasks|
      invariant count == k
      invariant forall l :: 0 <= l < k ==> TotalTime(tasks) <= (tasks[l].deadline - transTime) * tasks[l].fps
    {
      TimesIff(execTime[tasks[k].taskId], tasks[k].fps, tasks[k].deadline - transTime);
      if execTime[tasks[k].taskId] + transTime <= tasks[k].deadline {
        count := count + 1;
      } else {
        break;
      }
    }
    ok := count == |tasks|;
  }

  /** Sum of the relative loads. */
  method SumLoad(tasks: seq<Task>) returns (load: real)
    requires AllValid(tasks)
    ensures load == Load(tasks)
  {
    load := 0.0;
    for k := 0 to |tasks|
      invariant load == Load(tasks[..k])
    {
      assert tasks[..k + 1][..k] == tasks[..k];
      load := load + tasks[k].optTime / tasks[k].deadline;
    }
    assert tasks[..|tasks|] == tasks;
  }

  // ----- the search for a node -----

  /** Node i is among the first k. */
  ghost predicate Seen(order: seq<nat>, k: nat, i: nat)
    requires k <= |order|
  {
    exists l :: 0 <= l < k && order[l] == i
  }

  /** The best of the first k nodes in the order of delays. */
  ghost predicate IsBestSoFar(lists: Lists, t: Task, d: seq<real>, order: seq<nat>, k: nat, r: Option<nat>)
    requires ListsValid(lists) && t.Valid() && |d| == |lists| && k <= |order|
    requires forall l :: 0 <= l < |order| ==> order[l] < |lists|
  {
    match r
    case None => forall l :: 0 <= l < k ==> !Fits(lists, t, d, order[l])
    case Some(b) =>
      Seen(order, k, b) && b < |lists| && Fits(lists, t, d, b) &&
      forall l :: 0 <= l < k && Fits(lists, t, d, order[l]) ==> AtLeastAsGood(lists, t, d, b, order[l])
  }

  /** Taking a later node only for strictly less load keeps the best so far. */
  lemma BestSoFarNext(lists: Lists, t: Task, d: seq<real>, order: seq<nat>, k: nat, r: Option<nat>, r': Option<nat>)
    requires ListsValid(lists) && t.Valid() && |d| == |lists| && k < |order|
    requires (forall l :: 0 <= l < |order| ==> order[l] < |lists|) && InDelayOrder(order, d)
    requires IsBestSoFar(lists, t, d, order, k, r)
    requires r' == if Fits(lists, t, d, order[k]) &&
                      (r.None? || LoadWith(lists, t, order[k]) < LoadWith(lists, t, r.value)) then Some(order[k]) else r
    ensures IsBestSoFar(lists, t, d, order, k + 1, r')
  {
    hide Fits, LoadWith;
    if r.Some? {
      var l :| 0 <= l < k && order[l] == r.value;
      assert Nearer(d, order[l], order[k]);
      assert r' == r ==> order[l] == r'.value;
    }
  }

  /** A node that the task fits on has been seen before the first node that is too far away. */
  lemma FittingIsSeen(lists: Lists, t: Task, d: seq<real>, order: seq<nat>, k: nat, i: nat)
    requires ListsValid(lists) && t.Valid() && |d| == |lists| && k <= |order| && i < |lists|
    requires order == SortedNodes(d, |d|) && InDelayOrder(order, d)
    requires k < |order| ==> d[order[k]] > t.deadline
    requires Fits(lists, t, d, i)
    ensures Seen(order, k, i)
  {
    hide Feasible, SortedNodes, InDelayOrder;
    var l := SortedNodesComplete(d, |d|, i);
    if l >= k {
      LaterIsFarther(order, d, k, l);
      TooFarAway(lists[i], t, d[i]);
    }
  }

  lemma LaterIsFarther(order: seq<nat>, d: seq<real>, k: nat, l: nat)
    requires InDelayOrder(order, d) && k <= l < |order|
    ensures order[k] < |d| && order[l] < |d| && d[order[k]] <= d[order[l]]
  {
    assert k < l ==> Nearer(d, order[k], order[l]);
  }

  /** If every later node is too far away, the best so far is the best of all. */
  lemma BestSoFarIsBest(lists: Lists, t: Task, d: seq<real>, order: seq<nat>, k: nat, r: Option<nat>)
    requires ListsValid(lists) && t.Valid() && |d| == |lists| && k <= |order|
    requires order == SortedNodes(d, |d|) && InDelayOrder(order, d)
    requires k < |order| ==> d[order[k]] > t.deadline
    requires IsBestSoFar(lists, t, d, order, k, r)
    ensures r == Best(lists, t, d)
  {
    hide Fits, AtLeastAsGood, Best, SortedNodes, InDelayOrder;
    forall i: nat | i < |lists| && Fits(lists, t, d, i)
      ensures Seen(order, k, i)
    {
      FittingIsSeen(lists, t, d, order, k, i);
    }
    BestIsBest(lists, t, d);
    BestIsUnique(lists, t, d, r, Best(lists, t, d));
  }

  /** Walks the nodes in order of delay, stops at the first that is too far away, and keeps the one
      with the least load among those that the task fits on. */
  method FindNode(lists: Lists, task: Task, transDelay: seq<real>) returns (current: Option<nat>)
    requires ListsValid(lists) && task.Valid() && |transDelay| == |lists|
    requires forall i :: 0 <= i < |lists| ==> DistinctIds(lists[i] + [task])
    ensures current == Best(lists, task, transDelay)
    ensures match current
            case None => forall i :: 0 <= i < |lists| ==> !Feasible(lists[i], task, transDelay[i])
            case Some(b) =>
              Feasible(lists[b], task, transDelay[b]) &&
              forall i :: 0 <= i < |lists| && Feasible(lists[i], task, transDelay[i]) ==>
                Load(lists[b] + [task]) < Load(lists[i] + [task]) ||
                (Load(lists[b] + [task]) == Load(lists[i] + [task]) &&
                 (transDelay[b] < transDelay[i] || (transDelay[b] == transDelay[i] && b <= i)))
  {
    BestMeans(lists, task, transDelay);
    hide Best, Feasible, Load, SortedNodes, InDelayOrder;
    var order := SortedNodes(transDelay, |transDelay|);
    SortedNodesSorted(transDelay, |transDelay|);
    current := None;
    var currentWorkload := 0.0;
    var k := 0;
    while k < |order|
      invariant 0 <= k <= |order|
      invariant IsBestSoFar(lists, task, transDelay, order, k, current)
      invariant current.Some? ==> currentWorkload == LoadWith(lists, task, current.value)
    {
      var i := order[k];
      var transTime := transDelay[i];
      if transTime > task.deadline { break; }
      ghost var before := current;
      var ok := CheckNode(lists[i], task, transTime);
      if ok {
        var workload := SumLoad(lists[i] + [task]);
        if current.None? || workload < currentWorkload {
          currentWorkload := workload;
          current := Some(i);
        }
      }
      BestSoFarNext(lists, task, transDelay, order, k, before, current);
      k := k + 1;
    }
    BestSoFarIsBest(lists, task, transDelay, order, k, current);
  }

  // ----- the allocator -----

  /** Task ids identify tasks, and no task occurs twice. */
  ghost predicate Unique(m: multiset<Task>) {
    NoneTwice(m) && forall t, u :: t in m && u in m && t.taskId == u.taskId ==> t == u
  }

  lemma CountTwo(s: seq<Task>, k: nat, l: nat)
    requires k < l < |s|
    ensures multiset(s)[s[k]] >= if s[l] == s[k] then 2 else 1
  {
    assert s == s[..l] + [s[l]] + s[l + 1..];
    assert s[..l][k] == s[k];
    assert s[k] in s[..l];
    assert multiset(s) == multiset(s[..l]) + multiset{s[l]} + multiset(s[l + 1..]);
  }

  lemma UniqueIds(s: seq<Task>, m: multiset<Task>)
    requires Unique(m) && multiset(s) <= m
    ensures DistinctIds(s)
  {
    forall k, l | 0 <= k < l < |s|
      ensures s[k].taskId != s[l].taskId
    {
      assert s[k] in multiset(s) && s[l] in multiset(s);
      CountTwo(s, k, l);
      assert m[s[k]] <= 1;
    }
  }

  lemma {:induction false} PlacedContains(lists: Lists, i: nat)
    requires i < |lists|
    ensures multiset(lists[i]) <= Placed(lists)
  {
    if i < |lists| - 1 { PlacedContains(lists[..|lists| - 1], i); }
  }

  lemma ListsDistinctWith(p: Placement, t: Task)
    requires Unique(Placed(p.lists) + multiset(p.candidates)) && t in p.candidates
    ensures forall i :: 0 <= i < |p.lists| ==> DistinctIds(p.lists[i] + [t])
  {
    hide Unique, Placed, DistinctIds;
    forall i | 0 <= i < |p.lists| ensures DistinctIds(p.lists[i] + [t]) {
      PlacedContains(p.lists, i);
      assert t in multiset(p.candidates);
      UniqueIds(p.lists[i] + [t], Placed(p.lists) + multiset(p.candidates));
    }
  }

  /** The placement that the allocator computes. */
  function Greedy(p: Placement, delay: Delays): (q: Placement)
    requires p.Valid()
  {
    DrainValid(p.candidates);
    PlaceAll(p, Drain(p.candidates), delay)
  }

  lemma DrainValid(queue: seq<Task>)
    requires AllValid(queue)
    ensures AllValid(Drain(queue))
  {
    DrainOrders(queue);
    forall k | 0 <= k < |Drain(queue)| ensures Drain(queue)[k].Valid() {
      assert Drain(queue)[k] in multiset(Drain(queue));
      assert Drain(queue)[k] in multiset(queue);
    }
  }

  // ----- deployment -----

  /** The task ids of a list that use the sensor, in order. */
  function SensorIds(tasks: seq<Task>, sensor: int): seq<int> {
    if tasks == [] then []
    else
      var rest, last := SensorIds(tasks[..|tasks| - 1], sensor), tasks[|tasks| - 1];
      if last.sensorId == sensor then rest + [last.taskId] else rest
  }

  lemma {:induction false} SensorIdsMembers(tasks: seq<Task>, sensor: int, id: int)
    ensures id in SensorIds(tasks, sensor) <==>
            exists k :: 0 <= k < |tasks| && tasks[k].sensorId == sensor && tasks[k].taskId == id
  {
    if tasks != [] {
      var n := |tasks| - 1;
      SensorIdsMembers(tasks[..n], sensor, id);
      if k :| 0 <= k < |tasks| && tasks[k].sensorId == sensor && tasks[k].taskId == id && k < n {
        assert tasks[..n][k] == tasks[k];
      }
    }
  }

  /** What the list of a sensor is: the ids of its tasks, one for each, in the order of the tasks. */
  lemma {:induction false} SensorIdsConcat(a: seq<Task>, b: seq<Task>, sensor: int)
    ensures SensorIds(a + b, sensor) == SensorIds(a, sensor) + SensorIds(b, sensor)
    decreases |b|
  {
    if b == [] {
      assert a + b == a;
    } else {
      assert (a + b)[..|a + b| - 1] == a + b[..|b| - 1];
      SensorIdsConcat(a, b[..|b| - 1], sensor);
    }
  }

  lemma SensorIdsOne(t: Task, sensor: int)
    ensures SensorIds([], sensor) == []
    ensures SensorIds([t], sensor) == if t.sensorId == sensor then [t.taskId] else []
  {
    assert [t][..0] == [];
  }

  /** Per sensor, the task ids of one node; sensors without tasks do not appear. */
  ghost predicate Groups(m: map<int, seq<int>>, tasks: seq<Task>) {
    forall sensor: int ::
      (sensor in m <==> SensorIds(tasks, sensor) != []) && (sensor in m ==> m[sensor] == SensorIds(tasks, sensor))
  }

  /** Per node, its groups; nodes without tasks do not appear. */
  ghost predicate Deploys(dict: map<int, map<int, seq<int>>>, ids: seq<int>, lists: Lists)
    requires |ids| == |lists|
  {
    (forall i :: 0 <= i < |ids| ==> (ids[i] in dict <==> lists[i] != [])) &&
    (forall i :: 0 <= i < |ids| && ids[i] in dict ==> Groups(dict[ids[i]], lists[i])) &&
    (forall id :: id in dict ==> id in ids)
  }

  /** What a deployment says: under a node's id and a sensor it has a task's id exactly when such a task
      is on that node's list. */
  lemma DeploysTask(dict: map<int, map<int, seq<int>>>, ids: seq<int>, lists: Lists, i: nat, sensor: int, id: int)
    requires |ids| == |lists| && i < |ids| && Deploys(dict, ids, lists)
    ensures (ids[i] in dict && sensor in dict[ids[i]] && id in dict[ids[i]][sensor]) <==>
            exists k :: 0 <= k < |lists[i]| && lists[i][k].sensorId == sensor && lists[i][k].taskId == id
  {
    hide SensorIds;
    SensorIdsMembers(lists[i], sensor, id);
  }

  method GroupBySensor(tasks: seq<Task>) returns (m: map<int, seq<int>>)
    ensures Groups(m, tasks) && (m == map[] <==> tasks == [])
  {
    m := map[];
    for k := 0 to |tasks|
      invariant Groups(m, tasks[..k]) && (m == map[] <==> k == 0)
    {
      var s := tasks[k].sensorId;
      assert tasks[..k + 1][..k] == tasks[..k];
      m := m[s := (if s in m then m[s] else []) + [tasks[k].taskId]];
      assert s in m;
    }
    assert tasks[..|tasks|] == tasks;
  }

  lemma DeploysNone()
    ensures Deploys(map[], [], [])
  {
  }

  lemma DeploysNext(dict: map<int, map<int, seq<int>>>, ids: seq<int>, lists: Lists, i: nat, groups: map<int, seq<int>>)
    requires |ids| == |lists| && i < |ids| && Groups(groups, lists[i])
    requires forall k, l :: 0 <= k < l < |ids| ==> ids[k] != ids[l]
    requires Deploys(dict, ids[..i], lists[..i])
    ensures Deploys(if lists[i] != [] then dict[ids[i] := groups] else dict, ids[..i + 1], lists[..i + 1])
  {
    hide Groups;
    var dict' := if lists[i] != [] then dict[ids[i] := groups] else dict;
    forall id | id in dict
      ensures id != ids[i]
    {
      assert id in ids[..i];
      var k :| 0 <= k < i && ids[..i][k] == id;
      assert ids[k] != ids[i];
    }
    forall k | 0 <= k < i + 1
      ensures ids[k] in dict' <==> lists[k] != []
      ensures ids[k] in dict' ==> Groups(dict'[ids[k]], lists[k])
    {
      assert k < i ==> ids[..i][k] == ids[k] && lists[..i][k] == lists[k];
    }
    forall id | id in dict'
      ensures id in ids[..i + 1]
    {
      assert ids[..i + 1][i] == ids[i] && ids[..i + 1][..i] == ids[..i];
    }
  }

  class Allocator {
    const nodes: seq<EdgeNode>
    const delay: Delays
    var candidates: seq<Task>
    /** The queue to the deployment process. */
    var deployQueue: seq<map<int, map<int, seq<int>>>>

    constructor (nodes: seq<EdgeNode>, delay: Delays, taskList: seq<Task>)
      ensures this.nodes == nodes && this.delay == delay && candidates == taskList && deployQueue == []
    {
      this.nodes, this.delay, candidates, deployQueue := nodes, delay, taskList, [];
    }

    function NodeIds(): (ids: seq<int>)
      ensures |ids| == |nodes| && forall i :: 0 <= i < |nodes| ==> ids[i] == nodes[i].id
    {
      seq(|nodes|, i requires 0 <= i < |nodes| => nodes[i].id)
    }

    /** Publishes what is on the nodes; an older publication that was not fetched is dropped. */
    method DeployTasks()
      requires Valid()
      modifies this`deployQueue
      ensures |deployQueue| >= 1 && Deploys(deployQueue[|deployQueue| - 1], NodeIds(), Lists())
      ensures deployQueue[..|deployQueue| - 1] == if old(deployQueue) == [] then [] else old(deployQueue)[1..]
    {
      hide Deploys;
      var dict: map<int, map<int, seq<int>>> := map[];
      DeploysNone();
      for i := 0 to |nodes|
        invariant deployQueue == old(deployQueue) && Deploys(dict, NodeIds()[..i], Lists()[..i])
      {
        var node := nodes[i];
        var groups := GroupBySensor(node.tasklist);
        DeploysNext(dict, NodeIds(), Lists(), i, groups);
        if node.tasklist != [] {
          dict := dict[node.id := groups];
        }
      }
      assert NodeIds()[..|nodes|] == NodeIds() && Lists()[..|nodes|] == Lists();
      Publish(dict);
    }

    /** Puts a dictionary into the queue; one that was waiting already is taken out. */
    method Publish(dict: map<int, map<int, seq<int>>>)
      modifies this`deployQueue
      ensures deployQueue == (if old(deployQueue) == [] then [] else old(deployQueue)[1..]) + [dict]
    {
      deployQueue := deployQueue + [dict];
      if |deployQueue| > 1 { deployQueue := deployQueue[1..]; }
    }

    function Lists(): (lists: Lists)
      reads nodes
      ensures |lists| == |nodes| && forall i :: 0 <= i < |nodes| ==> lists[i] == nodes[i].tasklist
    {
      seq(|nodes|, i requires 0 <= i < |nodes| reads nodes => nodes[i].tasklist)
    }

    ghost predicate Valid() {
      forall k, l :: 0 <= k < l < |nodes| ==> nodes[k] != nodes[l] && nodes[k].id != nodes[l].id
    }

    ghost function State(): Placement
      reads this, nodes
    {
      Placement(Lists(), candidates)
    }

    /** Places one task on the best node; without one it stays among the candidates. */
    method PlaceTask(task: Task)
      requires Valid() && State().Valid() && task.Valid() && task in candidates
      requires Unique(Placed(Lists()) + multiset(candidates))
      modifies this`candidates, nodes
      ensures State() == PlaceOne(old(State()), task, delay)
    {
      hide Unique, Placed, DistinctIds, Best;
      ghost var p := State();
      var transDelay := DelaysOf(delay, task, |nodes|);
      ListsDistinctWith(p, task);
      var current := FindNode(Lists(), task, transDelay);
      if current.Some? {
        nodes[current.value].InsertTask(task);
        candidates := Remove(candidates, task);
        assert Lists() == p.lists[current.value := Insert(p.lists[current.value], task)];
      }
    }

    /** Takes the candidates by priority and places each of them if it fits somewhere. */
    method Allocate()
      requires Valid() && State().Valid() && DistinctPriorities(candidates)
      requires Unique(Placed(Lists()) + multiset(candidates))
      modifies this, nodes
      ensures State() == Greedy(old(State()), delay)
      ensures |deployQueue| >= 1 && Deploys(deployQueue[|deployQueue| - 1], NodeIds(), Lists())
      ensures deployQueue[..|deployQueue| - 1] == if old(deployQueue) == [] then [] else old(deployQueue)[1..]
    {
      hide Unique, Placed, PlaceOne, PlaceAll, Drain, RemoveAt;
      ghost var p := State();
      var queue := candidates;
      DrainValid(queue);
      while queue != []
        invariant State().Valid() && AllValid(queue) && AllValid(Drain(queue)) && deployQueue == old(deployQueue)
        invariant Unique(Placed(Lists()) + multiset(candidates)) && multiset(queue) <= multiset(candidates)
        invariant PlaceAll(State(), Drain(queue), delay) == Greedy(p, delay)
        decreases |queue|
      {
        var i := FirstIndex(queue);
        var task, rest := queue[i], RemoveAt(queue, i);
        QueueSplits(queue);
        assert task in multiset(candidates);
        RestWaits(State(), task, rest, delay);
        GreedyStep(State(), task, Drain(rest), delay);
        PlaceTask(task);
        queue := rest;
      }
      PlaceNone(State(), delay);
      DeployTasks();
    }
  }

  // ----- main results -----

  lemma {:induction false} PlacedCounts(lists: Lists, i: nat, j: nat, t: Task)
    requires i < j < |lists| && t in lists[i] && t in lists[j]
    ensures Placed(lists)[t] >= 2
  {
    var n := |lists| - 1;
    if j < n {
      PlacedCounts(lists[..n], i, j, t);
    } else {
      PlacedContains(lists[..n], i);
      assert t in multiset(lists[..n][i]) && t in multiset(lists[n]);
    }
  }

  /** Partition: the allocation loses no task and doubles none, and in the end every task is on
      exactly one node or among the candidates, never both. */
  lemma GreedyPartition(p: Placement, delay: Delays)
    requires p.Valid() && Unique(Placed(p.lists) + multiset(p.candidates))
    ensures var q := Greedy(p, delay);
            Placed(q.lists) + multiset(q.candidates) == Placed(p.lists) + multiset(p.candidates) &&
            (forall i, t :: 0 <= i < |q.lists| && t in q.lists[i] ==> t !in q.candidates) &&
            (forall i, j, t :: 0 <= i < j < |q.lists| && t in q.lists[i] ==> t !in q.lists[j])
  {
    hide PlaceAll, Placed, Drain;
    DrainOrders(p.candidates);
    DrainValid(p.candidates);
    UniqueNoneTwice(Placed(p.lists) + multiset(p.candidates));
    PlaceAllKeepsTasks(p, Drain(p.candidates), delay);
    var q := Greedy(p, delay);
    var all := Placed(q.lists) + multiset(q.candidates);
    forall i, t | 0 <= i < |q.lists| && t in q.lists[i]
      ensures t !in q.candidates
    {
      PlacedContains(q.lists, i);
      assert t in multiset(q.lists[i]);
      assert all[t] <= 1;
    }
    forall i, j, t | 0 <= i < j < |q.lists| && t in q.lists[i]
      ensures t !in q.lists[j]
    {
      assert all[t] <= 1;
      if t in q.lists[j] { PlacedCounts(q.lists, i, j, t); }
    }
  }

  /** Maximality: for a task that is left over, on every node at the end some deadline, its own or
      that of a task there, is too short for the total time with this task and its delay. */
  lemma GreedyIsMaximal(p: Placement, delay: Delays, u: Task)
    requires p.Valid() && Unique(Placed(p.lists) + multiset(p.candidates))
    requires u in Greedy(p, delay).candidates
    ensures u.Valid() && FitsNowhere(Greedy(p, delay).lists, u, delay)
    ensures forall i :: 0 <= i < |Greedy(p, delay).lists| ==> Exceeds(Greedy(p, delay).lists[i] + [u], delay(u, i))
  {
    hide PlaceAll, Placed, Drain, Feasible, Exceeds;
    DrainOrders(p.candidates);
    DrainValid(p.candidates);
    UniqueNoneTwice(Placed(p.lists) + multiset(p.candidates));
    CandidatesShrink(p, Drain(p.candidates), delay);
    assert u in multiset(p.candidates);
    assert u in multiset(Drain(p.candidates));
    NothingLeftFits(p, Drain(p.candidates), delay, u);
    var lists := Greedy(p, delay).lists;
    forall i | 0 <= i < |lists|
      ensures Exceeds(lists[i] + [u], delay(u, i))
    {
      InfeasibleExceeds(lists[i], u, delay(u, i));
    }
  }

  /** The total time of the tasks is more than one of them allows at its rate before its deadline. */
  predicate Exceeds(tasks: seq<Task>, d: real) {
    exists k :: 0 <= k < |tasks| && TotalTime(tasks) > (tasks[k].deadline - d) * tasks[k].fps
  }

  lemma InfeasibleExceeds(tasks: seq<Task>, t: Task, d: real)
    requires AllValid(tasks) && t.Valid() && !Feasible(tasks, t, d)
    ensures Exceeds(tasks + [t], d)
  {
    hide TotalTime, Feasible;
    FeasibleIff(tasks, t, d);
  }

  /** Schedulability: starting from empty nodes, in the end the total time of a node, shared at the
      rate of any task there, is over before that task's deadline, also with the transfer delay of the
      newest task on top. */
  lemma GreedyIsSchedulable(p: Placement, delay: Delays, i: nat, k: nat)
    requires p.Valid() && forall j :: 0 <= j < |p.lists| ==> p.lists[j] == []
    requires i < |p.lists| && k < |Greedy(p, delay).lists[i]|
    ensures var tasks := Greedy(p, delay).lists[i];
            TotalTime(tasks) <= (tasks[k].deadline - delay(tasks[|tasks| - 1], i)) * tasks[k].fps
    ensures var tasks := Greedy(p, delay).lists[i];
            NonNegative(delay) ==> TotalTime(tasks) <= tasks[k].deadline * tasks[k].fps
  {
    hide PlaceAll, Drain, Schedulable, TotalTime;
    DrainValid(p.candidates);
    EmptyIsSchedulable(p, delay);
    PlaceAllKeepsSchedulable(p, Drain(p.candidates), delay);
    var tasks := Greedy(p, delay).lists[i];
    var d := delay(tasks[|tasks| - 1], i);
    assert NodeSchedulable(tasks, delay, i);
    SchedulableMeans(tasks, d);
    SignOfProduct(d, tasks[k].fps);
    assert (tasks[k].deadline - d) * tasks[k].fps == tasks[k].deadline * tasks[k].fps - d * tasks[k].fps;
  }

  lemma EmptyIsSchedulable(p: Placement, delay: Delays)
    requires p.Valid() && forall i :: 0 <= i < |p.lists| ==> p.lists[i] == []
    ensures AllSchedulable(p, delay)
  {
  }

  lemma PlaceNone(p: Placement, delay: Delays)
    requires p.Valid()
    ensures Drain([]) == [] && PlaceAll(p, [], delay) == p
  {
  }

  /** When a task has been placed, those behind it in the queue are still candidates. */
  lemma RestWaits(p: Placement, t: Task, rest: seq<Task>, delay: Delays)
    requires p.Valid() && t.Valid() && multiset{t} + multiset(rest) <= multiset(p.candidates)
    requires Unique(Placed(p.lists) + multiset(p.candidates))
    ensures var q := PlaceOne(p, t, delay);
            Unique(Placed(q.lists) + multiset(q.candidates)) && multiset(rest) <= multiset(q.candidates)
  {
    hide Unique, Placed, PlaceOne;
    assert t in multiset(p.candidates);
    RemoveMultiset(p.candidates, t);
    UniqueNoneTwice(Placed(p.lists) + multiset(p.candidates));
    PlaceOneKeepsTasks(p, t, delay);
  }

  /** What a queue has in front and behind. */
  lemma QueueSplits(queue: seq<Task>)
    requires AllValid(queue) && queue != []
    ensures var t, rest := queue[FirstIndex(queue)], RemoveAt(queue, FirstIndex(queue));
            t.Valid() && |rest| < |queue| && AllValid(rest) && AllValid(Drain(rest)) &&
            multiset(queue) == multiset{t} + multiset(rest) && Drain(queue) == [t] + Drain(rest)
  {
    var rest := RemoveAt(queue, FirstIndex(queue));
    RemoveAtMultiset(queue, FirstIndex(queue));
    DrainValid(rest);
  }

  /** The first task of the queue is placed, then the rest. */
  lemma GreedyStep(p: Placement, t: Task, rest: seq<Task>, delay: Delays)
    requires p.Valid() && t.Valid() && AllValid(rest) && AllValid([t] + rest)
    ensures PlaceAll(p, [t] + rest, delay) == PlaceAll(PlaceOne(p, t, delay), rest, delay)
  {
    hide PlaceOne;
    assert ([t] + rest)[1..] == rest;
  }

  lemma UniqueNoneTwice(m: multiset<Task>)
    requires Unique(m)
    ensures NoneTwice(m)
  {
  }
}
