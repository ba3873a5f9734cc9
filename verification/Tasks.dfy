/**
 The task list and the scheduler as the kernel keeps them (kernel/kernel/task.c): task records reached through
 `next` links, a head, a current task and shared reference counts, all updated in place.  Every operation is the
 step of the task machine that bears its name.
 */
module Tasks {
  import opened TaskSpec
  import opened TaskProofs
  import opened TaskSleep
  import opened Wrappers

  const PREEMPT_QUANTUM: nat := 10
  const REAP_GUARD: nat := 1024

  // ---------------------------------------------------------------- circular links

  function After(n: nat, i: nat): nat { if i + 1 == n then 0 else i + 1 }

  /** The links lead from each task of the ring to the one behind it, and from the last to the head. */
  ghost predicate Circular(links: map<Tid, Tid>, ring: seq<Tid>) {
    forall i :: 0 <= i < |ring| ==> ring[i] in links && links[ring[i]] == ring[After(|ring|, i)]
  }

  lemma CircularAt(links: map<Tid, Tid>, ring: seq<Tid>, i: nat)
    requires Circular(links, ring) && i < |ring|
    ensures ring[i] in links && links[ring[i]] == ring[After(|ring|, i)]
  {
  }

  lemma DistinctAt(ring: seq<Tid>, i: nat, j: nat)
    requires Distinct(ring) && i < |ring| && j < |ring| && i != j
    ensures ring[i] != ring[j]
  {
  }

  lemma InsertCircular(links: map<Tid, Tid>, ring: seq<Tid>, i: nat, t: Tid)
    requires Circular(links, ring) && Distinct(ring) && i < |ring| && t !in ring
    ensures ring[i] in links && Circular(links[t := links[ring[i]]][ring[i] := t], Inserted(ring, i, t))
  {
    CircularAt(links, ring, i);
    var links', ring' := links[t := links[ring[i]]][ring[i] := t], Inserted(ring, i, t);
    forall k | 0 <= k < |ring'|
      ensures ring'[k] in links' && links'[ring'[k]] == ring'[After(|ring'|, k)]
    {
      InsertAt(links, ring, i, t, k);
    }
  }

  lemma InsertAt(links: map<Tid, Tid>, ring: seq<Tid>, i: nat, t: Tid, k: nat)
    requires Circular(links, ring) && Distinct(ring) && i < |ring| && t !in ring && k <= |ring| && ring[i] in links
    ensures var links', ring' := links[t := links[ring[i]]][ring[i] := t], Inserted(ring, i, t);
            ring'[k] in links' && links'[ring'[k]] == ring'[After(|ring'|, k)]
  {
    hide Circular;
    hide Distinct;
    CircularAt(links, ring, i);
    if k < i {
      CircularAt(links, ring, k);
      DistinctAt(ring, k, i);
    } else if k > i + 1 {
      CircularAt(links, ring, k - 1);
      DistinctAt(ring, k - 1, i);
    }
  }

  /** The ring without position q. */
  function Cut(ring: seq<Tid>, q: nat): seq<Tid>
    requires q < |ring|
  {
    ring[..q] + ring[q + 1..]
  }

  lemma UnlinkCircular(links: map<Tid, Tid>, ring: seq<Tid>, p: nat)
    requires Circular(links, ring) && Distinct(ring) && p < |ring| && |ring| >= 2
    ensures var q := After(|ring|, p);
            ring[q] in links && Circular(links[ring[p] := links[ring[q]]], Cut(ring, q))
  {
    var q := After(|ring|, p);
    CircularAt(links, ring, q);
    var links', ring' := links[ring[p] := links[ring[q]]], Cut(ring, q);
    forall k | 0 <= k < |ring'|
      ensures ring'[k] in links' && links'[ring'[k]] == ring'[After(|ring'|, k)]
    {
      UnlinkAt(links, ring, p, k);
    }
  }

  lemma UnlinkAt(links: map<Tid, Tid>, ring: seq<Tid>, p: nat, k: nat)
    requires Circular(links, ring) && Distinct(ring) && p < |ring| && k + 1 < |ring| && ring[After(|ring|, p)] in links
    ensures var q := After(|ring|, p);
            var links', ring' := links[ring[p] := links[ring[q]]], Cut(ring, q);
            ring'[k] in links' && links'[ring'[k]] == ring'[After(|ring'|, k)]
  {
    hide Circular;
    hide Distinct;
    var q := After(|ring|, p);
    var j := if k < q then k else k + 1;
    CircularAt(links, ring, j);
    CircularAt(links, ring, q);
    if j != p { DistinctAt(ring, j, p); }
  }

  /** Following links from the successor of position i walks the ring around to position i. */
  lemma AroundLinks(links: map<Tid, Tid>, ring: seq<Tid>, i: nat, k: nat)
    requires Circular(links, ring) && i < |ring| && k < |ring|
    ensures ring[i] in links && links[ring[i]] == Rotated(ring, i)[0]
    ensures Rotated(ring, i)[k] in links
    ensures links[Rotated(ring, i)[k]] == Rotated(ring, i)[After(|ring|, k)]
  {
    hide Circular;
    var c := Rotated(ring, i);
    CircularAt(links, ring, i);
    var j := if i + 1 + k < |ring| then i + 1 + k else i + 1 + k - |ring|;
    assert c[k] == ring[j];
    CircularAt(links, ring, j);
  }

  lemma RotatedDistinct(ring: seq<Tid>, i: nat)
    requires Distinct(ring) && i < |ring|
    ensures Distinct(Rotated(ring, i)) && forall t :: t in Rotated(ring, i) ==> t in ring
  {
  }

  lemma BootRing()
    ensures Circular(map[BOOT := BOOT], [BOOT]) && Distinct([BOOT])
  {
  }

  lemma UnlinkRing(links: map<Tid, Tid>, ring: seq<Tid>, p: nat, current: Tid)
    requires Circular(links, ring) && Distinct(ring) && p < |ring| && current in ring
    requires current != ring[After(|ring|, p)]
    ensures var q := After(|ring|, p);
            var r := Without(ring, ring[q]);
            && r == Cut(ring, q) && Distinct(r) && r != [] && current in r && ring[q] in links && ring[q] != ring[p]
            && (forall x :: x in r <==> x in ring && x != ring[q])
            && Circular(links[ring[p] := links[ring[q]]], r)
            && r[0] == (if q == 0 then links[ring[q]] else ring[0])
            && (ring[0] == ring[q] <==> q == 0)
  {
    hide Circular;
    var q := After(|ring|, p);
    WithoutFacts(ring, ring[q]);
    WithoutCuts(ring, q);
    UnlinkCircular(links, ring, p);
    CircularAt(links, ring, q);
    DistinctAt(ring, p, q);
    if q != 0 { DistinctAt(ring, 0, q); }
  }

  // ---------------------------------------------------------------- the shape of the task list

  /** The list starts at `head`, is closed by the links, and holds each task record and the current one. */
  ghost predicate Shape(st: State, links: map<Tid, Tid>, head: Tid) {
    && st.ring != [] && st.ring[0] == head && Distinct(st.ring) && Circular(links, st.ring)
    && (forall t :: t in st.ring <==> t in st.tasks) && st.current in st.ring
    && (forall t :: t in st.tasks ==> t < st.nextId)
    && (forall t :: t in st.tasks && st.tasks[t].cell.Some? ==> st.tasks[t].cell.value in st.cells)
  }

  lemma ShapeFacts(st: State, links: map<Tid, Tid>, head: Tid)
    requires Shape(st, links, head)
    ensures st.ring != [] && st.ring[0] == head && Distinct(st.ring) && Circular(links, st.ring)
    ensures st.current in st.ring && st.current in st.tasks && st.current in links
    ensures st.tasks[st.current].cell.Some? ==> st.tasks[st.current].cell.value in st.cells
  {
    CircularAt(links, st.ring, IndexOf(st.ring, st.current));
  }

  /** The list keeps its shape when records change in place and counts are added or changed. */
  lemma ShapeKept(st: State, st': State, links: map<Tid, Tid>, head: Tid)
    requires Shape(st, links, head) && st'.ring == st.ring && st'.nextId == st.nextId && st'.current in st.ring
    requires st'.tasks.Keys == st.tasks.Keys && forall t :: t in st.tasks ==> st'.tasks[t].cell == st.tasks[t].cell
    requires forall c :: c in st.cells ==> c in st'.cells
    ensures Shape(st', links, head)
  {
    hide Circular;
    hide Distinct;
    assert forall t :: t in st'.tasks <==> t in st.tasks;
  }

  lemma ShapeMember(st: State, links: map<Tid, Tid>, head: Tid, t: Tid)
    requires Shape(st, links, head)
    ensures t in st.ring <==> t in st.tasks
    ensures t in st.tasks ==> t in links && (st.tasks[t].cell.Some? ==> st.tasks[t].cell.value in st.cells)
  {
    if t in st.ring { CircularAt(links, st.ring, IndexOf(st.ring, t)); }
  }

  lemma AddShape(st: State, links: map<Tid, Tid>, head: Tid, task: Task)
    requires st.current in st.ring && st.current in links && (task.cell.Some? ==> task.cell.value in st.cells)
    requires Shape(st, links, head)
    ensures Shape(Add(st, task), links[st.nextId := links[st.current]][st.current := st.nextId], head)
  {
    hide Circular;
    hide Distinct;
    hide Inserted;
    var i := IndexOf(st.ring, st.current);
    InsertCircular(links, st.ring, i, st.nextId);
    InsertedFacts(st.ring, i, st.nextId);
  }

  lemma DropShape(st: State, links: map<Tid, Tid>, head: Tid, p: nat)
    requires Shape(st, links, head) && p < |st.ring| && st.current != st.ring[After(|st.ring|, p)]
    ensures var dead := st.ring[After(|st.ring|, p)];
            && dead in st.tasks && dead in links && dead != st.ring[p]
            && (st.tasks[dead].cell.Some? ==> st.tasks[dead].cell.value in st.cells)
            && Shape(Drop(st, dead), links[st.ring[p] := links[dead]], if head == dead then links[dead] else head)
            && Drop(st, dead).ring == Cut(st.ring, After(|st.ring|, p))
  {
    hide Circular;
    hide Distinct;
    hide Without;
    UnlinkRing(links, st.ring, p, st.current);
  }

  lemma BootShape(pd: Directory)
    ensures Shape(Booted(pd), map[BOOT := BOOT], BOOT)
  {
    BootRing();
    hide Circular;
    hide Distinct;
  }

  // ---------------------------------------------------------------- sleepers

  /** A sleeper whose tick has come is ready. */
  function Roused(task: Task, now: nat): Task {
    if task.state == Blocked && task.wakeTick != 0 && task.wakeTick <= now
    then task.(wakeTick := 0, state := Ready)
    else task
  }

  /** The first k tasks of the ring have been looked at. */
  ghost predicate RousedUpTo(st: State, tasks: map<Tid, Task>, k: nat, now: nat) {
    && tasks.Keys == st.tasks.Keys && k <= |st.ring|
    && (forall j :: 0 <= j < k ==> st.ring[j] in tasks && tasks[st.ring[j]] == Roused(st.tasks[st.ring[j]], now))
    && (forall j :: k <= j < |st.ring| && st.ring[j] in tasks ==> tasks[st.ring[j]] == st.tasks[st.ring[j]])
  }

  lemma RousedNext(st: State, tasks: map<Tid, Task>, k: nat, now: nat)
    requires RousedUpTo(st, tasks, k, now) && k < |st.ring| && Distinct(st.ring) && st.ring[k] in tasks
    ensures RousedUpTo(st, tasks[st.ring[k] := Roused(tasks[st.ring[k]], now)], k + 1, now)
    ensures tasks[st.ring[k] := tasks[st.ring[k]]] == tasks
  {
  }

  lemma AllRoused(st: State, tasks: map<Tid, Task>, links: map<Tid, Tid>, head: Tid, now: nat)
    requires RousedUpTo(st, tasks, |st.ring|, now) && Shape(st, links, head)
    ensures WakeSleepers(st, now) == st.(tasks := tasks) && Shape(st.(tasks := tasks), links, head)
  {
    hide Distinct;
    hide Circular;
    forall t | t in st.tasks
      ensures tasks[t] == Roused(st.tasks[t], now)
    {
      assert t in st.ring;
    }
    assert WakeSleepers(st, now).tasks == tasks;
    ShapeKept(st, st.(tasks := tasks), links, head);
  }

  // ---------------------------------------------------------------- reaping in order

  /** The loop of task_reap_terminated after `guard` rounds: prev is at position p, t behind it, and reaping what
      is left of the visit from here ends where reaping all of it ends. */
  ghost predicate Reaping(was: State, st: State, p: nat, prev: Tid, t: Tid, guard: nat) {
    && was.ring != [] && p < |st.ring| && prev == st.ring[p] && t == st.ring[After(|st.ring|, p)]
    && guard < |was.ring| && guard <= |Visited(was.ring)| && st.ring[p + 1..] == was.ring[guard + 1..]
    && Reap(st, Visited(was.ring)[guard..]) == Reap(was, Visited(was.ring))
  }

  lemma ReapStarts(st: State)
    requires st.ring != []
    ensures Reaping(st, st, 0, st.ring[0], st.ring[After(|st.ring|, 0)], 0)
  {
    assert Visited(st.ring)[0..] == Visited(st.ring);
  }

  /** While t is not the head, it is the next task to visit. */
  lemma ReapVisits(was: State, st: State, links: map<Tid, Tid>, head: Tid, p: nat, prev: Tid, t: Tid, guard: nat)
    requires Shape(st, links, head) && Reaping(was, st, p, prev, t, guard) && t != head && guard < REAP_GUARD
    ensures p + 1 < |st.ring| && t == st.ring[p + 1] && t in st.tasks && t in links && prev == st.ring[p]
    ensures guard < |Visited(was.ring)| && Visited(was.ring)[guard] == t && guard + 1 < |was.ring|
  {
    hide Reap;
    hide Shape;
    hide Circular;
    hide Distinct;
    ShapeFacts(st, links, head);
    ShapeMember(st, links, head, t);
    assert |st.ring[p + 1..]| == |was.ring[guard + 1..]|;
    assert st.ring[p + 1] == st.ring[p + 1..][0];
  }

  lemma ReapDrops(was: State, st: State, links: map<Tid, Tid>, head: Tid, p: nat, prev: Tid, t: Tid, guard: nat)
    requires Shape(st, links, head) && Reaping(was, st, p, prev, t, guard) && t != head && guard < REAP_GUARD
    requires Reapable(st, t) && p + 1 < |st.ring| && t == st.ring[p + 1]
    ensures var st' := Drop(st, t);
            && st'.ring == Cut(st.ring, p + 1) && p < |st'.ring| && st'.ring[p] == prev
            && Reaping(was, st', p, prev, st'.ring[After(|st'.ring|, p)], guard + 1)
  {
    hide Reap;
    hide Shape;
    hide Visited;
    hide Circular;
    hide Distinct;
    hide Without;
    ReapVisits(was, st, links, head, p, prev, t, guard);
    ReapStep(st, Visited(was.ring), guard);
    DropShape(st, links, head, p);
    CutTail(st.ring, was.ring, p, guard);
  }

  lemma ReapSkips(was: State, st: State, links: map<Tid, Tid>, head: Tid, p: nat, prev: Tid, t: Tid, guard: nat)
    requires Shape(st, links, head) && Reaping(was, st, p, prev, t, guard) && t != head && guard < REAP_GUARD
    requires !Reapable(st, t) && p + 1 < |st.ring| && t == st.ring[p + 1] && t in links
    ensures Reaping(was, st, p + 1, t, links[t], guard + 1)
  {
    hide Reap;
    hide Shape;
    hide Visited;
    hide Circular;
    hide Distinct;
    ReapVisits(was, st, links, head, p, prev, t, guard);
    ReapStep(st, Visited(was.ring), guard);
    ShapeFacts(st, links, head);
    CircularAt(links, st.ring, p + 1);
    CutTail(st.ring, was.ring, p, guard);
  }

  lemma CutTail(ring: seq<Tid>, was: seq<Tid>, p: nat, guard: nat)
    requires p + 1 < |ring| && guard + 1 < |was| && ring[p + 1..] == was[guard + 1..]
    ensures Cut(ring, p + 1)[p + 1..] == was[guard + 2..] && ring[p + 2..] == was[guard + 2..]
  {
    assert ring[p + 2..] == ring[p + 1..][1..];
  }

  lemma CircularAfter(st: State, links: map<Tid, Tid>, head: Tid, p: nat)
    requires Shape(st, links, head) && p < |st.ring|
    ensures st.ring[p] in links && links[st.ring[p]] == st.ring[After(|st.ring|, p)]
  {
    CircularAt(links, st.ring, p);
  }

  lemma ReapEnds(was: State, st: State, links: map<Tid, Tid>, head: Tid, p: nat, prev: Tid, t: Tid, guard: nat)
    requires Shape(st, links, head) && Reaping(was, st, p, prev, t, guard) && (t == head || guard == REAP_GUARD)
    ensures was.ring != [] && st == Reap(was, Visited(was.ring))
  {
    hide Reap;
    hide Circular;
    hide Distinct;
    if p + 1 < |st.ring| && t == head { DistinctAt(st.ring, 0, p + 1); }
    assert |st.ring[p + 1..]| == |was.ring[guard + 1..]|;
    TodoDone(st, was.ring, guard);
  }

  lemma ReapStep(st: State, todo: seq<Tid>, g: nat)
    requires g < |todo|
    ensures Reap(st, todo[g..]) == Reap(if Reapable(st, todo[g]) then Drop(st, todo[g]) else st, todo[g + 1..])
  {
    hide Drop;
    hide Reapable;
    assert todo[g..][0] == todo[g] && todo[g..][1..] == todo[g + 1..];
  }

  lemma TodoDone(st: State, was: seq<Tid>, guard: nat)
    requires guard < |was| && guard <= |Visited(was)| && (guard + 1 == |was| || guard == REAP_GUARD)
    ensures Reap(st, Visited(was)[guard..]) == st
  {
    assert Visited(was)[guard..] == [];
  }

  lemma ForkOfKernelTask(st: State, op: Op)
    requires op.DoFork? && st.current in st.ring && st.current in st.tasks && !st.tasks[st.current].isUser
    ensures Fork(st, op.pd, op.cell) == st
  {
  }

  lemma CurrentTask(st: State)
    requires Inv(st)
    ensures st.current in st.tasks && st.tasks[st.current].state == Running
  {
    hide Distinct;
    hide CountsOk;
    hide HistoryOk;
  }

  // ---------------------------------------------------------------- the scheduler

  datatype WaitResult = NoChildren | Reaped(child: Tid, code: int) | Slept

  class Scheduler {
    var tasks: map<Tid, Task>
    var links: map<Tid, Tid>
    var taskList: Tid
    var current: Tid
    var cells: map<Cell, int>
    var nextId: Tid
    var preemptionEnabled: bool
    var preemptCounter: nat
    var destroyed: seq<Directory>
    ghost var ring: seq<Tid>
    ghost var exits: map<Tid, int>
    ghost var forks: map<Tid, Tid>
    ghost var reports: seq<Report>

    ghost function Abs(): State
      reads this
    {
      State(tasks, ring, current, cells, nextId, exits, forks, reports, destroyed)
    }

    ghost predicate Valid()
      reads this
    {
      Shape(Abs(), links, taskList)
    }

    /** scheduler_init. */
    constructor (pd: Directory)
      ensures Valid() && !preemptionEnabled && preemptCounter == 0 && Abs() == Booted(pd)
    {
      hide Shape;
      tasks := map[BOOT := Task(Running, PRIORITY_NORMAL, false, pd, None, None, 0, 0, false)];
      links := map[BOOT := BOOT];
      taskList, current, cells, nextId := BOOT, BOOT, map[], BOOT + 1;
      preemptionEnabled, preemptCounter, destroyed := false, 0, [];
      ring, exits, forks, reports := [BOOT], map[], map[], [];
      BootShape(pd);
    }

    /** pick_next_task walks once around the ring. */
    method PickNextTask() returns (best: Option<Tid>)
      requires Valid()
      ensures current in ring && best == Pick(Abs())
    {
      hide Shape;
      hide Circular;
      hide Distinct;
      hide Rotated;
      ShapeFacts(Abs(), links, taskList);
      ghost var i := IndexOf(ring, current);
      ghost var c := Rotated(ring, i);
      RotatedDistinct(ring, i);
      AroundLinks(links, ring, i, 0);
      var bestPriority := 0;
      best := None;
      var start := links[current];
      var candidate := start;
      var again := true;
      ghost var k := 0;
      while again
        invariant 0 <= k <= |c| && (again <==> k < |c|) && (again ==> candidate == c[k])
        invariant best == Best(tasks, c, k)
        invariant best.Some? ==> bestPriority == tasks[best.value].priority
        decreases |c| - k
      {
        ShapeMember(Abs(), links, taskList, candidate);
        if tasks[candidate].state == Ready {
          if best.None? || tasks[candidate].priority > bestPriority {
            best := Some(candidate);
            bestPriority := tasks[candidate].priority;
          }
        }
        AroundLinks(links, ring, i, k);
        candidate := links[candidate];
        if k + 1 < |c| { DistinctAt(c, 0, k + 1); }
        k := k + 1;
        again := candidate != start;
      }
    }

    /** The switch of task_yield and scheduler_tick. */
    method TaskYield()
      requires Valid()
      modifies this`tasks, this`current
      ensures Valid() && old(current in ring && current in tasks) && Abs() == Yield(old(Abs()))
    {
      hide Shape;
      hide Pick;
      hide Circular;
      hide Distinct;
      ghost var was := Abs();
      ShapeFacts(was, links, taskList);
      var next := PickNextTask();
      PickFacts(was);
      if next.None? || next.value == current {
        return;
      }
      var prev := current;
      if tasks[prev].state == Running {
        tasks := tasks[prev := tasks[prev].(state := Ready)];
      }
      tasks := tasks[next.value := tasks[next.value].(state := Running)];
      current := next.value;
      ShapeKept(was, Abs(), links, taskList);
    }

    /** scheduler_tick switches on every tenth tick while preemption is on. */
    method SchedulerTick()
      requires Valid()
      modifies this`tasks, this`current, this`preemptCounter
      ensures Valid() && old(current in ring && current in tasks)
      ensures !preemptionEnabled ==> Abs() == old(Abs()) && preemptCounter == old(preemptCounter)
      ensures preemptionEnabled && old(preemptCounter) + 1 < PREEMPT_QUANTUM ==>
        Abs() == old(Abs()) && preemptCounter == old(preemptCounter) + 1
      ensures preemptionEnabled && old(preemptCounter) + 1 >= PREEMPT_QUANTUM ==>
        Abs() == Yield(old(Abs())) && preemptCounter == 0
    {
      hide Shape;
      hide Circular;
      hide Distinct;
      hide Yield;
      ShapeFacts(Abs(), links, taskList);
      if !preemptionEnabled { return; }
      preemptCounter := preemptCounter + 1;
      if preemptCounter < PREEMPT_QUANTUM { return; }
      preemptCounter := 0;
      TaskYield();
    }

    /** A whole quantum: of ten ticks with preemption on, the last one switches. */
    method Quantum()
      requires Valid() && preemptionEnabled && preemptCounter == 0
      modifies this`tasks, this`current, this`preemptCounter
      ensures Valid() && preemptCounter == 0 && old(current in ring && current in tasks)
      ensures Abs() == Yield(old(Abs()))
    {
      hide Shape;
      hide Circular;
      hide Distinct;
      hide Yield;
      ShapeFacts(Abs(), links, taskList);
      for i := 0 to 9
        invariant Valid() && preemptCounter == i && Abs() == old(Abs())
      {
        SchedulerTick();
      }
      SchedulerTick();
    }

    /** A new record is linked in behind the current task. */
    method Link(task: Task)
      requires Valid() && (task.cell.Some? ==> task.cell.value in cells)
      modifies this`tasks, this`links, this`nextId, this`ring
      ensures Valid() && old(current in ring && current in tasks) && Abs() == Add(old(Abs()), task)
    {
      hide Shape;
      hide Circular;
      hide Distinct;
      hide Inserted;
      ShapeFacts(Abs(), links, taskList);
      AddShape(Abs(), links, taskList, task);
      var id := nextId;
      nextId := nextId + 1;
      tasks := tasks[id := task];
      links := links[id := links[current]][current := id];
      ring := Inserted(ring, IndexOf(ring, current), id);
    }

    /** task_fork.  `record`, `stack` and `pd` are what the allocators returned; a kernel task and a missing stack
        leave with preemption off. */
    method TaskFork(record: bool, stack: bool, pd: Option<Directory>, cell: Option<Cell>) returns (child: Option<Tid>)
      requires Valid()
      modifies this`tasks, this`links, this`nextId, this`ring, this`cells, this`forks, this`preemptionEnabled
      ensures Valid() && old(current in ring && current in tasks)
      ensures child.Some? <==> old(tasks[current].isUser) && record && stack && pd.Some?
      ensures child.Some? ==> child.value == old(nextId) && Abs() == Fork(old(Abs()), pd.value, cell)
      ensures child.None? ==> Abs() == old(Abs())
      ensures preemptionEnabled <==> old(tasks[current].isUser) && (record ==> stack)
    {
      hide Shape;
      hide Circular;
      hide Distinct;
      ghost var was := Abs();
      ShapeFacts(was, links, taskList);
      preemptionEnabled := false;
      var parent := tasks[current];
      if !parent.isUser { return None; }
      if !record {
        preemptionEnabled := true;
        return None;
      }
      if !stack { return None; }
      if pd.None? {
        preemptionEnabled := true;
        return None;
      }
      if cell.Some? { cells := cells[cell.value := 1]; }
      forks := forks[nextId := current];
      ShapeKept(was, Abs(), links, taskList);
      child := Some(nextId);
      Link(Task(Ready, parent.priority, true, pd.value, cell, Some(current), 0, 0, false));
      preemptionEnabled := true;
    }

    /** task_create_user_thread.  `record` and `stack` are what the heap returned, `mapped` whether a page for the user
        stack was found and mapped. */
    method TaskCreateUserThread(record: bool, stack: bool, mapped: bool) returns (thread: Option<Tid>)
      requires Valid()
      modifies this`tasks, this`links, this`nextId, this`ring, this`cells, this`preemptionEnabled
      ensures Valid() && old(current in ring && current in tasks)
      ensures old(tasks[current].cell.Some? ==> tasks[current].cell.value in cells)
      ensures thread.Some? <==> record && stack && mapped
      ensures thread.Some? ==> thread.value == old(nextId) && Abs() == Spawn(old(Abs())) && preemptionEnabled
      ensures thread.None? ==> Abs() == old(Abs()) && preemptionEnabled == old(preemptionEnabled)
    {
      hide Shape;
      hide Circular;
      hide Distinct;
      ghost var was := Abs();
      ShapeFacts(was, links, taskList);
      var self := tasks[current];
      if !record || !stack || !mapped { return None; }
      preemptionEnabled := false;
      if self.cell.Some? { cells := cells[self.cell.value := cells[self.cell.value] + 1]; }
      ShapeKept(was, Abs(), links, taskList);
      thread := Some(nextId);
      Link(Task(Ready, self.priority, true, self.pd, self.cell, None, 0, 0, false));
      preemptionEnabled := true;
    }

    /** task_create_user_elf, and task_create with no count, where `loaded` and `mapped` are true.  `record` and `stack`
        are what the heap returned, `pd` is the new directory, `loaded` the answer of elf_load, `mapped` whether a page
        for the user stack was found and mapped.  A new directory that is given up again was never in a task. */
    method TaskCreate(record: bool, stack: bool, pd: Option<Directory>, loaded: bool, mapped: bool, isUser: bool,
                      priority: nat, cell: Option<Cell>) returns (t: Option<Tid>)
      requires Valid()
      modifies this`tasks, this`links, this`nextId, this`ring, this`cells, this`preemptionEnabled
      ensures Valid() && old(current in ring)
      ensures t.Some? <==> record && stack && pd.Some? && loaded && mapped
      ensures t.Some? ==> t.value == old(nextId) && preemptionEnabled
                          && Abs() == Create(old(Abs()), isUser, priority, pd.value, cell)
      ensures t.None? ==> Abs() == old(Abs()) && preemptionEnabled == old(preemptionEnabled)
    {
      hide Shape;
      hide Circular;
      hide Distinct;
      ghost var was := Abs();
      ShapeFacts(was, links, taskList);
      if !record || !stack || pd.None? { return None; }
      if !loaded || !mapped { return None; }
      preemptionEnabled := false;
      if cell.Some? { cells := cells[cell.value := 1]; }
      ShapeKept(was, Abs(), links, taskList);
      t := Some(nextId);
      Link(Task(Ready, priority, isUser, pd.value, cell, None, 0, 0, false));
      preemptionEnabled := true;
    }

    /** task_exit before its yield: record the code, give up the space, wake a parent that waits.  The record of a
        parent that has left the list still says TERMINATED. */
    method EndCurrent(code: int)
      requires Valid() && current in tasks
      modifies this`tasks, this`cells, this`exits
      ensures Valid() && old(tasks[current].cell.Some? ==> tasks[current].cell.value in cells)
      ensures Abs() == Ended(old(Abs()), code)
    {
      hide Shape;
      hide Circular;
      hide Distinct;
      ghost var was := Abs();
      ShapeFacts(was, links, taskList);
      exits := exits[current := code];
      tasks := tasks[current := tasks[current].(exitCode := code, state := Terminated)];
      if tasks[current].cell.Some? {
        var c := tasks[current].cell.value;
        cells := cells[c := cells[c] - 1];
      }
      if tasks[current].parent.Some? {
        var p := tasks[current].parent.value;
        if p in tasks && tasks[p].state == Blocked { tasks := tasks[p := tasks[p].(state := Ready)]; }
      }
      ShapeKept(was, Abs(), links, taskList);
    }

    /** task_exit. */
    method TaskExit(code: int)
      requires Valid() && current in tasks
      modifies this`tasks, this`cells, this`exits, this`current, this`preemptionEnabled
      ensures Valid() && preemptionEnabled && old(current in ring && current in tasks)
      ensures old(tasks[current].cell.Some? ==> tasks[current].cell.value in cells)
      ensures Abs() == Exit(old(Abs()), code)
    {
      hide Shape;
      hide Yield;
      preemptionEnabled := false;
      ShapeFacts(Abs(), links, taskList);
      EndCurrent(code);
      preemptionEnabled := true;
      TaskYield();
    }

    /** task_wake. */
    method TaskWake(t: Tid)
      requires Valid()
      modifies this`tasks
      ensures Valid() && Abs() == Wake(old(Abs()), t)
    {
      hide Shape;
      ghost var was := Abs();
      ShapeFacts(was, links, taskList);
      if t in tasks && tasks[t].state == Blocked {
        tasks := tasks[t := tasks[t].(state := Ready)];
      }
      ShapeKept(was, Abs(), links, taskList);
    }

    /** sys_sleep, with a tick, and the wait for a key, which leaves the tick in the record as it is. */
    method TaskBlock(tick: Option<nat>)
      requires Valid()
      modifies this`tasks, this`current
      ensures Valid() && old(current in ring && current in tasks) && Abs() == Block(old(Abs()), tick)
    {
      hide Shape;
      hide Yield;
      ghost var was := Abs();
      ShapeFacts(was, links, taskList);
      if tick.Some? { tasks := tasks[current := tasks[current].(wakeTick := tick.value)]; }
      tasks := tasks[current := tasks[current].(state := Blocked, inWait := false)];
      assert tasks == was.tasks[current := Sleeper(was.tasks[current], tick)];
      ShapeKept(was, Abs(), links, taskList);
      TaskYield();
    }

    /** sys_sleep of ms milliseconds at tick `now`. */
    method SysSleep(ms: nat, now: nat)
      requires Valid() && ms < U32
      modifies this`tasks, this`current
      ensures Valid() && old(current in ring && current in tasks)
      ensures Abs() == Block(old(Abs()), Some((now + DelayTicks(ms)) % U32))
    {
      hide Block;
      hide Shape;
      var delay := ms * 100 % U32 / 1000;
      if delay == 0 && ms > 0 { delay := 1; }
      TaskBlock(Some((now + delay) % U32));
    }

    /** task_wake_sleepers walks the list once. */
    method TaskWakeSleepers(now: nat)
      requires Valid()
      modifies this`tasks
      ensures Valid() && Abs() == WakeSleepers(old(Abs()), now)
    {
      hide Shape;
      hide Distinct;
      hide Circular;
      ghost var was := Abs();
      ShapeFacts(was, links, taskList);
      var t := taskList;
      var again := true;
      ghost var k := 0;
      while again
        invariant Abs() == was.(tasks := tasks)
        invariant 0 <= k <= |ring| && (again <==> k < |ring|) && (again ==> t == ring[k])
        invariant RousedUpTo(was, tasks, k, now)
        decreases |ring| - k
      {
        ShapeMember(was, links, taskList, t);
        RousedNext(was, tasks, k, now);
        if tasks[t].state == Blocked && tasks[t].wakeTick != 0 && tasks[t].wakeTick <= now {
          tasks := tasks[t := tasks[t].(wakeTick := 0, state := Ready)];
        }
        CircularAt(links, ring, k);
        t := links[t];
        if k + 1 < |ring| { DistinctAt(ring, 0, k + 1); }
        k := k + 1;
        again := t != taskList;
      }
      AllRoused(was, tasks, links, taskList, now);
    }

    /** The child that task_wait finds; its scan ends at the first child that has ended. */
    method ScanChildren() returns (haveChildren: bool, ended: Option<Tid>)
      requires Valid()
      ensures haveChildren <==> FirstChild(tasks, ring, current, false).Some?
      ensures ended == FirstChild(tasks, ring, current, true)
    {
      hide Shape;
      hide Distinct;
      hide Circular;
      ShapeFacts(Abs(), links, taskList);
      haveChildren, ended := false, None;
      var t := taskList;
      var again := true;
      ghost var k := 0;
      while again
        invariant 0 <= k <= |ring| && (again ==> k < |ring| && t == ring[k])
        invariant ended.None? ==> FirstChild(tasks, ring, current, true) == FirstChild(tasks, ring[k..], current, true)
        invariant ended.None? && !haveChildren ==>
          FirstChild(tasks, ring, current, false) == FirstChild(tasks, ring[k..], current, false)
        invariant haveChildren ==> FirstChild(tasks, ring, current, false).Some?
        invariant ended.Some? ==> haveChildren && !again && ended == FirstChild(tasks, ring, current, true)
        invariant ended.None? && !again ==> k == |ring|
        decreases |ring| - k, again
      {
        ShapeMember(Abs(), links, taskList, t);
        assert ring[k..][0] == t && ring[k..][1..] == ring[k + 1..];
        if tasks[t].parent == Some(current) {
          haveChildren := true;
          if tasks[t].state == Terminated {
            ended := Some(t);
            again := false;
            break;
          }
        }
        CircularAt(links, ring, k);
        t := links[t];
        if k + 1 < |ring| { DistinctAt(ring, 0, k + 1); }
        k := k + 1;
        again := t != taskList;
      }
    }

    /** The walk of task_wait to the task in front of `x`. */
    method Predecessor(x: Tid) returns (prev: Tid, ghost p: nat)
      requires Valid() && x in ring
      ensures p < |ring| && prev == ring[p] && ring[After(|ring|, p)] == x
    {
      hide Shape;
      hide Distinct;
      hide Circular;
      ShapeFacts(Abs(), links, taskList);
      prev, p := x, IndexOf(ring, x);
      ghost var q := p;
      ghost var steps := 0;
      CircularAt(links, ring, p);
      while links[prev] != x
        invariant p < |ring| && prev == ring[p] && prev in links && links[prev] == ring[After(|ring|, p)]
        invariant 0 <= steps < |ring| && p == if q + steps < |ring| then q + steps else q + steps - |ring|
        decreases |ring| - steps
      {
        prev := links[prev];
        p := After(|ring|, p);
        steps := steps + 1;
        CircularAt(links, ring, p);
      }
    }

    /** Take an ended task out of the list behind `prev` and free it; its space goes with the last user. */
    method Unlink(prev: Tid, dead: Tid, ghost p: nat)
      requires Valid() && p < |ring| && prev == ring[p] && dead == ring[After(|ring|, p)] && dead != current
      modifies this`tasks, this`links, this`ring, this`taskList, this`destroyed
      ensures Valid() && old(dead in tasks && dead in links) && Abs() == Drop(old(Abs()), dead)
      ensures links == old(links)[prev := old(links)[dead]]
      ensures taskList == if old(taskList) == dead then old(links)[dead] else old(taskList)
      ensures ring == Cut(old(ring), After(|old(ring)|, p))
    {
      hide Shape;
      hide Distinct;
      hide Circular;
      hide Without;
      DropShape(Abs(), links, taskList, p);
      links := links[prev := links[dead]];
      if taskList == dead { taskList := links[dead]; }
      var c := tasks[dead].cell;
      if c.Some? && cells[c.value] == 0 {
        destroyed := destroyed + [tasks[dead].pd];
      }
      tasks := tasks - {dead};
      ring := Without(ring, dead);
    }

    /** One pass of the loop of task_wait. */
    method TaskWait() returns (r: WaitResult)
      requires Valid() && current in tasks && tasks[current].state == Running
      modifies this
      ensures Valid() && old(current in ring) && Abs() == Wait(old(Abs()))
      ensures r.NoChildren? <==> FirstChild(old(tasks), old(ring), old(current), false).None?
      ensures r.Reaped? ==>
        && r.child in old(tasks) && old(tasks)[r.child].parent == Some(old(current))
        && old(tasks)[r.child].state == Terminated
        && r.code == old(tasks)[r.child].exitCode && reports == old(reports) + [Report(old(current), r.child, r.code)]
      ensures !r.Reaped? ==> reports == old(reports)
      ensures preemptionEnabled && preemptCounter == old(preemptCounter)
    {
      hide Shape;
      hide Yield;
      hide Drop;
      hide Wait;
      hide Circular;
      hide Distinct;
      hide FirstChild;
      ghost var was := Abs();
      ShapeFacts(was, links, taskList);
      WaitCases(was);
      preemptionEnabled := false;
      var haveChildren, ended := ScanChildren();
      if !haveChildren {
        tasks := tasks[current := tasks[current].(inWait := false)];
        ShapeKept(was, Abs(), links, taskList);
        r := NoChildren;
      } else if ended.Some? {
        r := Reaped(ended.value, tasks[ended.value].exitCode);
        ReapChild(ended.value);
      } else {
        SleepInWait();
        r := Slept;
      }
      preemptionEnabled := true;
    }

    /** The part of task_wait that sleeps until a child ends. */
    method SleepInWait()
      requires Valid() && current in tasks
      modifies this`tasks, this`current, this`preemptionEnabled
      ensures Valid() && old(current in ring) && Abs() == Yield(Asleep(old(Abs())))
    {
      hide Shape;
      hide Yield;
      hide Circular;
      hide Distinct;
      ghost var was := Abs();
      ShapeFacts(was, links, taskList);
      tasks := tasks[current := tasks[current].(state := Blocked, inWait := true)];
      ShapeKept(was, Abs(), links, taskList);
      preemptionEnabled := true;
      TaskYield();
    }

    /** The part of task_wait that unlinks and frees a child it reports. */
    method ReapChild(child: Tid)
      requires Valid() && current in tasks && child in ring && child in tasks && child != current
      modifies this`tasks, this`links, this`ring, this`taskList, this`destroyed, this`reports
      ensures Valid() && Abs() == Drop(Reported(old(Abs()), child), child)
    {
      hide Shape;
      hide Drop;
      ghost var was := Abs();
      ShapeFacts(was, links, taskList);
      var prev, p := Predecessor(child);
      reports := reports + [Report(current, child, tasks[child].exitCode)];
      tasks := tasks[current := tasks[current].(inWait := false)];
      ShapeKept(was, Abs(), links, taskList);
      Unlink(prev, child, p);
    }

    /** task_reap_terminated. */
    method TaskReapTerminated()
      requires Valid()
      modifies this
      ensures Valid() && preemptionEnabled && old(ring) != [] && Abs() == Reap(old(Abs()), Visited(old(ring)))
    {
      hide Shape;
      hide Drop;
      hide Distinct;
      hide Circular;
      hide Reaping;
      hide Reap;
      hide Visited;
      ghost var was := Abs();
      preemptionEnabled := false;
      ShapeFacts(was, links, taskList);
      CircularAt(links, ring, 0);
      var prev, t, guard := taskList, links[taskList], 0;
      ghost var p := 0;
      ReapStarts(was);
      while t != taskList && guard < REAP_GUARD
        invariant Valid() && guard <= REAP_GUARD
        invariant Reaping(was, Abs(), p, prev, t, guard)
        decreases REAP_GUARD - guard
      {
        ReapVisits(was, Abs(), links, taskList, p, prev, t, guard);
        if tasks[t].state == Terminated && tasks[t].parent.None? && t != current {
          ReapDrops(was, Abs(), links, taskList, p, prev, t, guard);
          Unlink(prev, t, p);
          CircularAfter(Abs(), links, taskList, p);
          t := links[prev];
        } else {
          ReapSkips(was, Abs(), links, taskList, p, prev, t, guard);
          prev := t;
          p := p + 1;
          t := links[t];
        }
        guard := guard + 1;
      }
      ReapEnds(was, Abs(), links, taskList, p, prev, t, guard);
      preemptionEnabled := true;
    }

    /** Any enabled step of the task machine, carried out on the linked list: the invariant of its runs holds here. */
    method Perform(op: Op)
      requires Valid() && Inv(Abs()) && Enabled(Abs(), op)
      modifies this
      ensures old(ring != [] && current in ring && current in tasks)
      ensures old(tasks[current].cell.Some? ==> tasks[current].cell.value in cells)
      ensures Valid() && Inv(Abs()) && Abs() == Step(old(Abs()), op)
    {
      hide Shape;
      hide Inv;
      hide Yield;
      hide Fork;
      hide Spawn;
      hide Create;
      hide Exit;
      hide Wait;
      hide Block;
      hide Wake;
      hide WakeSleepers;
      hide Reap;
      ghost var was := Abs();
      StepKeeps(was, op);
      if op.DoFork? && !tasks[current].isUser { ForkOfKernelTask(was, op); }
      CurrentTask(was);
      hide Enabled;
      match op
      case DoYield => TaskYield();
      case DoFork(pd, cell) => var child := TaskFork(true, true, Some(pd), cell);
      case DoSpawn => var thread := TaskCreateUserThread(true, true, true);
      case DoCreate(isUser, priority, pd, cell) =>
        var t := TaskCreate(true, true, Some(pd), true, true, isUser, priority, cell);
      case DoExit(code) => TaskExit(code);
      case DoWait => var r := TaskWait();
      case DoBlock(tick) => TaskBlock(tick);
      case DoWake(t) => TaskWake(t);
      case DoWakeSleepers(now) => TaskWakeSleepers(now);
      case DoReap => TaskReapTerminated();
    }
  }
}
