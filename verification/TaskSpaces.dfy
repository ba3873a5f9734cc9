/**
 Which address spaces the unlinking of ended tasks destroys.  A freed directory may be handed out while an ended task
 still names it; what is handed out safely is stated exactly, and so is when a space is destroyed more than once.
 */
module TaskSpaces {
  import opened TaskSpec
  import opened TaskProofs
  import opened TaskRuns
  import opened TaskSchedule
  import opened Wrappers

  // ---------------------------------------------------------------- who shares what

  /** An ended task that nobody will ever wait for or reap: its parent has ended or left. */
  predicate Orphan(tasks: map<Tid, Task>, t: Tid)
    requires t in tasks
  {
    tasks[t].state == Terminated && tasks[t].parent.Some? && !Living(tasks, tasks[t].parent.value)
  }

  /** t names the directory of s together with another count. */
  predicate Clash(tasks: map<Tid, Task>, s: Tid, t: Tid)
    requires s in tasks && t in tasks
  {
    tasks[s].pd == tasks[t].pd && tasks[t].cell.Some? && tasks[t].cell != tasks[s].cell
  }

  /** Tasks that can still be unlinked name a directory with one count only. */
  ghost predicate SpacesOk(tasks: map<Tid, Task>) {
    forall s, t :: s in tasks && t in tasks && Clash(tasks, s, t) ==>
      Orphan(tasks, t) || (!Living(tasks, s) && (tasks[s].cell.None? || Orphan(tasks, s)))
  }

  /** Only user tasks fork, and a child never shares the count of its parent. */
  ghost predicate ForksOk(tasks: map<Tid, Task>) {
    && BOOT in tasks && !tasks[BOOT].isUser
    && (forall t :: t in tasks ==> tasks[t].parent != Some(BOOT))
    && (forall t :: t in tasks && tasks[t].parent.Some? && tasks[t].parent.value in tasks && tasks[t].cell.Some? ==>
          tasks[t].cell != tasks[tasks[t].parent.value].cell)
  }

  /** An ended task that can still be unlinked names the directory with another count, whatever that count is. */
  ghost predicate Stale(st: State, pd: Directory, cell: Option<Cell>) {
    exists t :: t in st.tasks && StaleBy(st.tasks, pd, cell, t)
  }

  predicate StaleBy(tasks: map<Tid, Task>, pd: Directory, cell: Option<Cell>, t: Tid)
    requires t in tasks
  {
    && tasks[t].state == Terminated && tasks[t].pd == pd && tasks[t].cell.Some? && tasks[t].cell != cell
    && !Orphan(tasks, t)
  }

  /** The step hands out a directory with a count. */
  predicate HandsOut(st: State, op: Op, pd: Directory, cell: Option<Cell>) {
    || (op.DoFork? && op.pd == pd && op.cell == cell && st.current in st.tasks && st.tasks[st.current].isUser)
    || (op.DoCreate? && op.pd == pd && op.cell == cell)
  }

  /** The step hands out no stale directory. */
  ghost predicate Clean(st: State, op: Op) {
    forall pd, cell :: HandsOut(st, op, pd, cell) ==> !Stale(st, pd, cell)
  }

  // ---------------------------------------------------------------- what a step does to the table

  /** The task a step adds. */
  function Newcomer(st: State, op: Op): Task
    requires st.current in st.tasks && Arrival(op)
  {
    var self := st.tasks[st.current];
    match op
    case DoFork(pd, cell) => Task(Ready, self.priority, true, pd, cell, Some(st.current), 0, 0, false)
    case DoSpawn => Task(Ready, self.priority, true, self.pd, self.cell, None, 0, 0, false)
    case DoCreate(isUser, priority, pd, cell) => Task(Ready, priority, isUser, pd, cell, None, 0, 0, false)
  }

  predicate Adds(st: State, op: Op)
    requires st.current in st.tasks
  {
    Arrival(op) && (op.DoFork? ==> st.tasks[st.current].isUser)
  }

  lemma {:induction false} ReapKeys(st: State, todo: seq<Tid>)
    ensures Reap(st, todo).tasks.Keys <= st.tasks.Keys && Reap(st, todo).cells == st.cells
    decreases |todo|
  {
    if todo != [] {
      ReapKeys(if Reapable(st, todo[0]) then Drop(st, todo[0]) else st, todo[1..]);
    }
  }

  lemma WaitKeys(st: State)
    requires st.current in st.ring && st.current in st.tasks
    ensures Wait(st).tasks.Keys <= st.tasks.Keys
  {
    hide Wait;
    hide Yield;
    WaitCases(st);
    var done := FirstChild(st.tasks, st.ring, st.current, true);
    if FirstChild(st.tasks, st.ring, st.current, false).Some? && done.None? { YieldKept(Asleep(st), 0); }
  }

  /** A step adds its newcomer, or only takes tasks away. */
  lemma StepKeys(st: State, op: Op, st': State)
    requires Inv(st) && Next(st, op, st')
    ensures Adds(st, op) ==> st'.tasks == st.tasks[st.nextId := Newcomer(st, op)]
    ensures !Adds(st, op) ==> st'.tasks.Keys <= st.tasks.Keys
  {
    hide Inv;
    hide Yield;
    hide Reap;
    hide Wait;
    hide Inserted;
    InvFacts(st);
    match op
    case DoYield => YieldKept(st, 0);
    case DoExit(code) => YieldKept(Ended(st, code), 0);
    case DoWait => WaitKeys(st);
    case DoBlock(tick) =>
      YieldKept(WithSelf(st, Sleeper(st.tasks[st.current], tick)), 0);
    case DoReap => ReapKeys(st, Visited(st.ring));
    case _ =>
  }

  /** Tasks keep what they name; ended ones stay so. */
  ghost predicate Fewer(a: map<Tid, Task>, b: map<Tid, Task>) {
    && b.Keys <= a.Keys
    && forall t :: t in b ==> Named(a, b, t)
  }

  predicate Named(a: map<Tid, Task>, b: map<Tid, Task>, t: Tid)
    requires t in a && t in b
  {
    && b[t].pd == a[t].pd && b[t].cell == a[t].cell && b[t].parent == a[t].parent && b[t].isUser == a[t].isUser
    && (a[t].state == Terminated ==> b[t].state == Terminated)
  }

  lemma FewerLiving(a: map<Tid, Task>, b: map<Tid, Task>, t: Tid)
    requires Fewer(a, b)
    ensures Living(b, t) ==> Living(a, t)
    ensures t in b && Orphan(a, t) ==> Orphan(b, t)
  {
    if t in b {
      assert Named(a, b, t);
      if b[t].parent.Some? && b[t].parent.value in b { assert Named(a, b, b[t].parent.value); }
    }
  }

  lemma FewerSpaces(a: map<Tid, Task>, b: map<Tid, Task>)
    requires Fewer(a, b) && SpacesOk(a)
    ensures SpacesOk(b)
  {
    hide Orphan;
    hide Living;
    forall s, t | s in b && t in b && Clash(b, s, t)
      ensures Orphan(b, t) || (!Living(b, s) && (b[s].cell.None? || Orphan(b, s)))
    {
      assert Named(a, b, s) && Named(a, b, t);
      assert Clash(a, s, t);
      FewerLiving(a, b, s);
      FewerLiving(a, b, t);
    }
  }

  lemma FewerForks(a: map<Tid, Task>, b: map<Tid, Task>)
    requires Fewer(a, b) && ForksOk(a) && BOOT in b
    ensures ForksOk(b)
  {
    forall t | t in b
      ensures Named(a, b, t)
    {
    }
  }

  lemma StepFewer(st: State, op: Op, st': State)
    requires Inv(st) && Next(st, op, st') && !Adds(st, op)
    ensures Fewer(st.tasks, st'.tasks)
  {
    hide Inv;
    hide Next;
    StepKeys(st, op, st');
    forall t | t in st'.tasks
      ensures Named(st.tasks, st'.tasks, t)
    {
      StepKept(st, op, st', t);
    }
  }

  // ---------------------------------------------------------------- newcomers

  /** Adding a task that no living task shares a directory or a count with, or that shares both with a living one. */
  lemma AddedOrphan(a: map<Tid, Task>, n: Tid, x: Task, t: Tid)
    requires n !in a && t in a && (a[t].parent.Some? ==> a[t].parent.value != n)
    ensures Orphan(a[n := x], t) <==> Orphan(a, t)
  {
  }

  lemma AddedSpaces(a: map<Tid, Task>, n: Tid, x: Task)
    requires SpacesOk(a) && n !in a && forall t :: t in a && a[t].parent.Some? ==> a[t].parent.value != n
    requires x.state != Terminated
    requires forall t :: t in a && a[t].pd == x.pd && a[t].cell.Some? && a[t].cell != x.cell ==> Orphan(a, t)
    requires forall t :: t in a && a[t].pd == x.pd && a[t].cell != x.cell && Living(a, t) ==> x.cell.None?
    ensures SpacesOk(a[n := x])
  {
    hide Orphan;
    var b := a[n := x];
    forall s, t | s in b && t in b && Clash(b, s, t)
      ensures Orphan(b, t) || (!Living(b, s) && (b[s].cell.None? || Orphan(b, s)))
    {
      if s in a { AddedOrphan(a, n, x, s); }
      if t in a { AddedOrphan(a, n, x, t); }
      if s in a && t in a { assert Clash(a, s, t); }
    }
  }

  lemma ArrivalSpaces(st: State, op: Op)
    requires Inv(st) && SpacesOk(st.tasks) && Enabled(st, op) && Clean(st, op) && Adds(st, op)
    ensures SpacesOk(st.tasks[st.nextId := Newcomer(st, op)])
  {
    hide CountsOk;
    hide HistoryOk;
    hide Distinct;
    var x := Newcomer(st, op);
    if op.DoSpawn? {
      var self := st.current;
      assert forall t :: t in st.tasks && Clash(st.tasks, self, t) ==> Orphan(st.tasks, t);
      assert forall t :: t in st.tasks && Clash(st.tasks, t, self) && Living(st.tasks, t) ==> false;
    } else {
      assert HandsOut(st, op, x.pd, x.cell);
      forall t | t in st.tasks && st.tasks[t].pd == x.pd && st.tasks[t].cell.Some? && st.tasks[t].cell != x.cell
        ensures Orphan(st.tasks, t)
      {
        assert !Living(st.tasks, t);
        assert !StaleBy(st.tasks, x.pd, x.cell, t);
      }
    }
    hide Orphan;
    hide SpacesOk;
    AddedSpaces(st.tasks, st.nextId, x);
  }

  lemma ArrivalForks(st: State, op: Op)
    requires Inv(st) && ForksOk(st.tasks) && Enabled(st, op) && Adds(st, op)
    ensures ForksOk(st.tasks[st.nextId := Newcomer(st, op)])
  {
    hide CountsOk;
    hide HistoryOk;
    hide Distinct;
  }

  /** Every enabled step keeps who forks whom; every clean one keeps one count to a directory. */
  lemma StepSpaces(st: State, op: Op, st': State)
    requires Inv(st) && Next(st, op, st') && ForksOk(st.tasks)
    ensures ForksOk(st'.tasks)
    ensures SpacesOk(st.tasks) && Clean(st, op) ==> SpacesOk(st'.tasks)
  {
    hide Inv;
    hide SpacesOk;
    hide ForksOk;
    hide Clean;
    hide Step;
    hide Fewer;
    StepKeys(st, op, st');
    if Adds(st, op) {
      ArrivalForks(st, op);
      if SpacesOk(st.tasks) && Clean(st, op) { ArrivalSpaces(st, op); }
    } else {
      StepFewer(st, op, st');
      BootListed(st, op, st');
      FewerForks(st.tasks, st'.tasks);
      if SpacesOk(st.tasks) { FewerSpaces(st.tasks, st'.tasks); }
    }
  }

  lemma BootListed(st: State, op: Op, st': State)
    requires Inv(st) && Next(st, op, st')
    ensures BOOT in st'.tasks
  {
    hide Inv;
    hide Next;
    NextKeeps(st, op, st');
    BootIn(st');
  }

  lemma BootIn(st: State)
    requires Inv(st)
    ensures BOOT in st.tasks
  {
    hide Distinct;
  }

  // ---------------------------------------------------------------- what unlinking destroys

  /** The count of an ended task's space stands at zero. */
  predicate AtZero(st: State, t: Tid) {
    && t in st.tasks && st.tasks[t].cell.Some? && st.tasks[t].cell.value in st.cells
    && st.cells[st.tasks[t].cell.value] == 0
  }

  /** Between two states the directory has been destroyed. */
  predicate Destroys(a: State, b: State, pd: Directory) {
    |a.destroyed| <= |b.destroyed| && pd in b.destroyed[|a.destroyed|..]
  }

  lemma DropDestroys(st: State, t: Tid, pd: Directory)
    requires t in st.tasks
    ensures Destroys(st, Drop(st, t), pd) <==> AtZero(st, t) && st.tasks[t].pd == pd
    ensures st.destroyed <= Drop(st, t).destroyed && Drop(st, t).cells == st.cells
  {
  }

  /** A task that the step can unlink, with its count at zero. */
  ghost predicate UnlinkedAtZero(st: State, pd: Directory) {
    exists x :: x in st.tasks && Unlinkable(st, pd, x)
  }

  predicate Unlinkable(st: State, pd: Directory, x: Tid)
    requires x in st.tasks
  {
    st.tasks[x].state == Terminated && st.tasks[x].pd == pd && AtZero(st, x) && !Orphan(st.tasks, x)
  }

  lemma DestroysTwo(a: State, b: State, c: State, pd: Directory)
    requires a.destroyed <= b.destroyed <= c.destroyed
    ensures Destroys(a, c, pd) <==> Destroys(a, b, pd) || Destroys(b, c, pd)
  {
    assert c.destroyed[|a.destroyed|..] == c.destroyed[|a.destroyed|..|b.destroyed|] + c.destroyed[|b.destroyed|..];
    assert c.destroyed[|a.destroyed|..|b.destroyed|] == b.destroyed[|a.destroyed|..];
  }

  lemma {:induction false} ReapGrows(st: State, todo: seq<Tid>)
    ensures st.destroyed <= Reap(st, todo).destroyed
    decreases |todo|
  {
    if todo != [] {
      ReapGrows(if Reapable(st, todo[0]) then Drop(st, todo[0]) else st, todo[1..]);
    }
  }

  /** Reaping destroys a directory only through a listed task it can unlink at zero. */
  lemma {:induction false} ReapDestroysOnly(st: State, todo: seq<Tid>, pd: Directory)
    requires Destroys(st, Reap(st, todo), pd)
    ensures UnlinkedAtZero(st, pd)
    decreases |todo|
  {
    NothingDestroyed(st, pd);
    if todo != [] && Reapable(st, todo[0]) {
      var mid := Drop(st, todo[0]);
      DropDestroys(st, todo[0], pd);
      ReapGrows(mid, todo[1..]);
      DestroysTwo(st, mid, Reap(mid, todo[1..]), pd);
      if Destroys(st, mid, pd) {
        assert Unlinkable(st, pd, todo[0]);
      } else {
        ReapDestroysOnly(mid, todo[1..], pd);
        var x :| x in mid.tasks && Unlinkable(mid, pd, x);
        assert x in st.tasks && mid.tasks[x] == st.tasks[x];
        assert Unlinkable(st, pd, x) by {
          if st.tasks[x].parent.Some? && Living(mid.tasks, st.tasks[x].parent.value) {
            assert Living(st.tasks, st.tasks[x].parent.value);
          }
        }
      }
    } else if todo != [] {
      ReapDestroysOnly(st, todo[1..], pd);
    }
  }

  /** The same for every step. */
  lemma StepDestroysOnly(st: State, op: Op, st': State, pd: Directory)
    requires Inv(st) && Next(st, op, st') && Destroys(st, st', pd)
    ensures UnlinkedAtZero(st, pd)
  {
    hide Inv;
    hide Yield;
    hide Reap;
    hide Wait;
    hide UnlinkedAtZero;
    InvFacts(st);
    NothingDestroyed(st, pd);
    match op
    case DoReap => ReapDestroysOnly(st, Visited(st.ring), pd);
    case DoWait => WaitDestroysOnly(st, pd);
    case DoYield => YieldLog(st);
    case DoExit(code) => YieldLog(Ended(st, code));
    case DoBlock(tick) =>
      YieldLog(WithSelf(st, Sleeper(st.tasks[st.current], tick)));
    case _ =>
  }

  lemma NothingDestroyed(st: State, pd: Directory)
    ensures forall st': State :: st'.destroyed == st.destroyed ==> !Destroys(st, st', pd)
  {
  }

  lemma YieldLog(st: State)
    requires st.current in st.ring && st.current in st.tasks
    ensures Yield(st).destroyed == st.destroyed
  {
  }

  lemma WaitDestroysOnly(st: State, pd: Directory)
    requires RunningOk(st) && st.current in st.ring && st.current in st.tasks && Destroys(st, Wait(st), pd)
    ensures UnlinkedAtZero(st, pd)
  {
    hide Wait;
    hide Yield;
    hide Drop;
    WaitCases(st);
    var done := FirstChild(st.tasks, st.ring, st.current, true);
    NothingDestroyed(st, pd);
    if FirstChild(st.tasks, st.ring, st.current, false).None? {
    } else if done.Some? {
      var mid := Reported(st, done.value);
      DropDestroys(mid, done.value, pd);
      assert Unlinkable(st, pd, done.value);
    } else {
      YieldLog(Asleep(st));
    }
  }

  /** A task that can be unlinked at zero shares its directory with no living task. */
  lemma ZeroMeansDead(st: State, x: Tid, s: Tid)
    requires CountsOk(st) && SpacesOk(st.tasks) && x in st.tasks && AtZero(st, x) && !Orphan(st.tasks, x)
    requires Living(st.tasks, s)
    ensures st.tasks[s].pd != st.tasks[x].pd
  {
    var clash := Clash(st.tasks, s, x);
    var holds := s in Holders(st.tasks, st.tasks[x].cell.value);
  }

  /** No step destroys an address space that a living task uses, as long as a directory has one count. */
  lemma DestroysOnlyDead(st: State, op: Op, st': State, s: Tid)
    requires Inv(st) && SpacesOk(st.tasks) && Next(st, op, st') && Living(st.tasks, s)
    ensures !Destroys(st, st', st.tasks[s].pd)
  {
    hide Inv;
    hide Next;
    hide SpacesOk;
    InvFacts(st);
    hide CountsOk;
    if Destroys(st, st', st.tasks[s].pd) {
      StepDestroysOnly(st, op, st', st.tasks[s].pd);
      var x :| x in st.tasks && Unlinkable(st, st.tasks[s].pd, x);
      ZeroMeansDead(st, x, s);
    }
  }

  // ---------------------------------------------------------------- clean runs

  /** All invariants of a clean run. */
  ghost predicate Tidy(st: State) { Inv(st) && ForksOk(st.tasks) && SpacesOk(st.tasks) }

  lemma TidyStep(st: State, op: Op, st': State)
    requires Tidy(st) && Next(st, op, st') && Clean(st, op)
    ensures Tidy(st')
  {
    hide Inv;
    hide ForksOk;
    hide SpacesOk;
    hide Next;
    hide Clean;
    NextKeeps(st, op, st');
    StepSpaces(st, op, st');
  }

  lemma BootedTidy(pd: Directory)
    ensures Tidy(Booted(pd))
  {
    BootedInv(pd);
  }

  lemma {:induction false} EveryCleanRun(trace: seq<State>, ops: seq<Op>, pd: Directory, i: nat)
    requires IsRun(trace, ops) && trace[0] == Booted(pd) && i < |trace|
    requires forall j :: 0 <= j < i ==> Clean(trace[j], ops[j])
    ensures Tidy(trace[i])
  {
    hide Booted;
    hide Tidy;
    hide Clean;
    if i == 0 {
      BootedTidy(pd);
    } else {
      EveryCleanRun(trace, ops, pd, i - 1);
      assert Next(trace[i - 1], ops[i - 1], trace[i - 1 + 1]);
      hide Next;
      TidyStep(trace[i - 1], ops[i - 1], trace[i]);
    }
  }

  /** Over every run in which no stale directory is handed out, no step destroys a space that a living task uses. */
  lemma RunDestroysOnlyDead(trace: seq<State>, ops: seq<Op>, pd: Directory, i: nat, s: Tid)
    requires IsRun(trace, ops) && trace[0] == Booted(pd) && i < |ops|
    requires forall j :: 0 <= j < i ==> Clean(trace[j], ops[j])
    requires Living(trace[i].tasks, s)
    ensures !Destroys(trace[i], trace[i + 1], trace[i].tasks[s].pd)
  {
    EveryCleanRun(trace, ops, pd, i);
    assert Next(trace[i], ops[i], trace[i + 1]);
    hide Inv;
    hide Next;
    hide Destroys;
    DestroysOnlyDead(trace[i], ops[i], trace[i + 1], s);
  }

  // ---------------------------------------------------------------- continuations

  /** Clean steps, one after the other. */
  ghost predicate Leads(st: State, ops: seq<Op>, st': State)
    decreases |ops|
  {
    if ops == [] then st' == st
    else Steppable(st) && Enabled(st, ops[0]) && Clean(st, ops[0]) && Leads(Step(st, ops[0]), ops[1..], st')
  }

  lemma {:induction false} LeadsOn(a: State, m: seq<Op>, b: State, n: seq<Op>, c: State)
    requires Leads(a, m, b) && Leads(b, n, c)
    ensures Leads(a, m + n, c)
    decreases |m|
  {
    hide Step;
    hide Enabled;
    hide Clean;
    if m == [] {
      assert m + n == n;
    } else {
      assert (m + n)[0] == m[0] && (m + n)[1..] == m[1..] + n;
      LeadsOn(Step(a, m[0]), m[1..], b, n, c);
    }
  }

  lemma LeadsOne(a: State, op: Op)
    requires Steppable(a) && Enabled(a, op) && Clean(a, op)
    ensures Leads(a, [op], Step(a, op))
  {
    hide Step;
    assert [op][1..] == [];
  }

  /** Only scheduling has happened: nobody has ended, come or left. */
  ghost predicate Quiet(st: State, st': State) {
    && st' == st.(tasks := st'.tasks, current := st'.current) && st'.tasks.Keys == st.tasks.Keys
    && forall t :: t in st.tasks ==> Resting(st.tasks[t], st'.tasks[t])
  }

  predicate Resting(a: Task, b: Task) {
    && b == a.(state := b.state, wakeTick := b.wakeTick, inWait := b.inWait)
    && (b.state == Terminated <==> a.state == Terminated)
  }

  lemma QuietTwice(a: State, b: State, c: State)
    requires Quiet(a, b) && Quiet(b, c)
    ensures Quiet(a, c)
  {
  }

  /** The tasks, other than h and the boot task, that run or are ready. */
  ghost function Active(st: State, h: Tid): set<Tid> {
    set x | x in st.tasks && x != h && x != BOOT && (st.tasks[x].state == Running || st.tasks[x].state == Ready)
  }

  /** h runs, or is ready. */
  predicate Waiting(st: State, h: Tid) {
    h in st.tasks && (st.tasks[h].state == Ready || (st.tasks[h].state == Running && st.current == h))
  }

  lemma YieldQuiet(st: State)
    requires BeforeYield(st)
    ensures st.current in st.ring && st.current in st.tasks
    ensures Quiet(st, Yield(st))
    ensures forall h :: Waiting(st, h) ==> Waiting(Yield(st), h)
  {
    hide Pick;
    hide Distinct;
    PickFacts(st);
    assert Yield(st).tasks.Keys == st.tasks.Keys;
  }

  lemma YieldActive(st: State, h: Tid)
    requires BeforeYield(st)
    ensures Active(Yield(st), h) == Active(st, h)
  {
    hide Pick;
    hide Distinct;
    PickFacts(st);
    var st' := Yield(st);
    assert st'.tasks.Keys == st.tasks.Keys;
    forall x | x in st.tasks
      ensures (st'.tasks[x].state == Running || st'.tasks[x].state == Ready)
         <==> (st.tasks[x].state == Running || st.tasks[x].state == Ready)
    {
    }
  }

  lemma InvBeforeYield(st: State)
    requires Inv(st)
    ensures BeforeYield(st) && Steppable(st) && Pick(st) != Some(st.current)
  {
    hide FamilyOk;
    hide HistoryOk;
    hide Distinct;
    PickFacts(st);
  }

  lemma YieldMoves(st: State, h: Tid)
    requires st.current in st.ring && st.current in st.tasks && h in st.ring && IsReady(st.tasks, h)
    requires st.tasks[st.current].state != Ready
    ensures Yield(st).current != st.current
  {
    hide Pick;
    PickFacts(st);
  }

  /** The boot task yields: another task runs. */
  lemma FocusYield(st: State, h: Tid)
    requires Inv(st) && Waiting(st, h) && st.current == BOOT && h != BOOT
    ensures Steppable(st) && Enabled(st, DoYield) && Clean(st, DoYield)
    ensures var st' := Step(st, DoYield);
            Inv(st') && Quiet(st, st') && Waiting(st', h) && Active(st', h) == Active(st, h) && st'.current != BOOT
  {
    hide Yield;
    hide Quiet;
    hide Active;
    InvBeforeYield(st);
    hide BeforeYield;
    YieldNow(st);
    YieldQuiet(st);
    YieldActive(st, h);
    HeadReady(st, h);
    hide Inv;
    YieldMoves(st, h);
  }

  lemma HeadReady(st: State, h: Tid)
    requires Inv(st) && Waiting(st, h) && st.current != h
    ensures h in st.ring && IsReady(st.tasks, h) && st.tasks[st.current].state == Running
  {
    hide FamilyOk;
    hide CountsOk;
    hide HistoryOk;
    hide Distinct;
  }

  /** A task in the way blocks: there is one active task less. */
  lemma FocusBlock(st: State, h: Tid)
    requires Inv(st) && Waiting(st, h) && st.current != BOOT && st.current != h
    ensures Steppable(st) && Enabled(st, DoBlock(None)) && Clean(st, DoBlock(None))
    ensures var st' := Step(st, DoBlock(None));
            && Inv(st') && Quiet(st, st') && Waiting(st', h)
            && st.current in Active(st, h) && Active(st', h) == Active(st, h) - {st.current}
  {
    hide Yield;
    hide Inv;
    hide RingOk;
    hide RunningOk;
    hide FamilyOk;
    hide CountsOk;
    hide HistoryOk;
    hide Quiet;
    hide Active;
    hide BeforeYield;
    hide Waiting;
    InvFacts(st);
    CurrentRuns(st);
    var x := Sleeper(st.tasks[st.current], None);
    var mid := WithSelf(st, x);
    BlockKeeps(st, None);
    BlockedSelf(st, h, x);
    SelfRing(st, x);
    YieldQuiet(mid);
    YieldActive(mid, h);
    QuietTwice(st, mid, Yield(mid));
  }

  lemma BlockedSelf(st: State, h: Tid, x: Task)
    requires RunningOk(st) && st.current in st.tasks && Waiting(st, h) && st.current != BOOT && st.current != h
    requires x == Sleeper(st.tasks[st.current], None)
    ensures var mid := WithSelf(st, x);
            && Quiet(st, mid) && Waiting(mid, h)
            && st.current in Active(st, h) && Active(mid, h) == Active(st, h) - {st.current}
  {
    var mid := WithSelf(st, x);
    assert mid.tasks.Keys == st.tasks.Keys;
  }

  /** Whatever else is ready, some steps lead to h running. */
  lemma {:induction false} Focus(st: State, h: Tid) returns (ops: seq<Op>, st': State)
    requires Inv(st) && Waiting(st, h)
    ensures Leads(st, ops, st') && Inv(st') && Quiet(st, st') && st'.current == h
    ensures forall i :: 0 <= i < |ops| ==> !Arrival(ops[i])
    decreases |Active(st, h)|, if st.current == BOOT then 1 else 0
  {
    hide Inv;
    hide Quiet;
    hide Active;
    hide Waiting;
    hide Step;
    hide Enabled;
    hide Clean;
    if st.current == h {
      QuietSelf(st);
      return [], st;
    }
    var op := if st.current == BOOT then DoYield else DoBlock(None);
    if st.current == BOOT { FocusYield(st, h); } else { FocusBlock(st, h); }
    var mid := Step(st, op);
    var rest, last := Focus(mid, h);
    LeadsOne(st, op);
    LeadsOn(st, [op], mid, rest, last);
    QuietTwice(st, mid, last);
    return [op] + rest, last;
  }

  lemma QuietSelf(st: State)
    ensures Quiet(st, st)
  {
  }

  lemma WakeQuiet(st: State, h: Tid)
    requires RunningOk(st) && Living(st.tasks, h)
    ensures Quiet(st, Wake(st, h)) && Waiting(Wake(st, h), h)
  {
    assert Wake(st, h).tasks.Keys == st.tasks.Keys;
  }

  lemma WakeStep(st: State, h: Tid)
    requires Steppable(st)
    ensures Step(st, DoWake(h)) == Wake(st, h) && Enabled(st, DoWake(h)) && Clean(st, DoWake(h))
  {
  }

  /** Every living task can be made to run, by scheduling alone. */
  lemma CanRun(st: State, h: Tid) returns (ops: seq<Op>, st': State)
    requires Inv(st) && Living(st.tasks, h)
    ensures Leads(st, ops, st') && Inv(st') && Quiet(st, st') && st'.current == h
    ensures forall i :: 0 <= i < |ops| ==> !Arrival(ops[i])
  {
    hide Inv;
    hide RingOk;
    hide RunningOk;
    hide FamilyOk;
    hide CountsOk;
    hide HistoryOk;
    hide Wake;
    hide Quiet;
    hide Waiting;
    hide Leads;
    hide Step;
    hide Enabled;
    hide Clean;
    InvFacts(st);
    WakeKeeps(st, h);
    WakeQuiet(st, h);
    WakeStep(st, h);
    LeadsOne(st, DoWake(h));
    var mid := Wake(st, h);
    var rest, last := Focus(mid, h);
    LeadsOn(st, [DoWake(h)], mid, rest, last);
    QuietTwice(st, mid, last);
    return [DoWake(h)] + rest, last;
  }

  // ---------------------------------------------------------------- ending the holders of a count

  /** Nothing has happened but scheduling and the end of tasks that hold c. */
  ghost predicate OnlyEnds(st: State, st': State, c: Cell) {
    && st'.ring == st.ring && st'.destroyed == st.destroyed && st'.tasks.Keys == st.tasks.Keys
    && forall x :: x in st.tasks ==> Ends(st.tasks[x], st'.tasks[x], c)
  }

  predicate Ends(a: Task, b: Task, c: Cell) {
    && b.pd == a.pd && b.cell == a.cell && b.parent == a.parent
    && (a.state == Terminated ==> b.state == Terminated)
    && (a.state != Terminated && a.cell != Some(c) ==> b.state != Terminated)
  }

  lemma OnlyEndsTwice(st: State, st1: State, st2: State, c: Cell)
    requires OnlyEnds(st, st1, c) && OnlyEnds(st1, st2, c)
    ensures OnlyEnds(st, st2, c)
  {
    forall x | x in st.tasks
      ensures Ends(st.tasks[x], st2.tasks[x], c)
    {
      assert Ends(st.tasks[x], st1.tasks[x], c) && Ends(st1.tasks[x], st2.tasks[x], c);
    }
  }

  lemma QuietEnds(st: State, st': State, c: Cell)
    requires Quiet(st, st')
    ensures OnlyEnds(st, st', c) && Holders(st'.tasks, c) == Holders(st.tasks, c)
  {
    forall x | x in st.tasks
      ensures Ends(st.tasks[x], st'.tasks[x], c) && st'.tasks[x].cell == st.tasks[x].cell
      ensures st'.tasks[x].state == Terminated <==> st.tasks[x].state == Terminated
    {
      assert Resting(st.tasks[x], st'.tasks[x]);
    }
    SameHolders(st.tasks, st'.tasks, c);
  }

  lemma EndedEnds(st: State, c: Cell)
    requires RunningOk(st) && CountsOk(st) && st.current in st.tasks && st.tasks[st.current].cell == Some(c)
    ensures OnlyEnds(st, Ended(st, 0), c) && Holders(Ended(st, 0).tasks, c) == Holders(st.tasks, c) - {st.current}
  {
    hide Ended;
    CurrentRuns(st);
    EndedParts(st);
    var mid := Ended(st, 0);
    forall x
      ensures x in mid.tasks <==> x in st.tasks
      ensures x in st.tasks ==> Ends(st.tasks[x], mid.tasks[x], c)
      ensures x in Holders(mid.tasks, c) <==> x in Holders(st.tasks, c) && x != st.current
    {
      EndedTask(st, 0, x);
    }
  }

  lemma EndedParts(st: State)
    requires CountsOk(st) && st.current in st.tasks
    ensures Ended(st, 0).ring == st.ring && Ended(st, 0).destroyed == st.destroyed
  {
  }

  /** A holder of c, once it runs, ends. */
  lemma EndOne(st: State, c: Cell)
    requires Inv(st) && st.current in st.tasks && st.tasks[st.current].cell == Some(c)
    ensures Steppable(st) && Enabled(st, DoExit(0)) && Clean(st, DoExit(0))
    ensures var st' := Step(st, DoExit(0));
            Inv(st') && OnlyEnds(st, st', c) && Holders(st'.tasks, c) == Holders(st.tasks, c) - {st.current}
  {
    hide Inv;
    hide RingOk;
    hide RunningOk;
    hide FamilyOk;
    hide CountsOk;
    hide HistoryOk;
    hide Yield;
    hide BeforeYield;
    hide Quiet;
    hide OnlyEnds;
    hide Holders;
    hide Ended;
    hide Step;
    hide Exit;
    hide Clean;
    NotBoot(st);
    InvFacts(st);
    ExitIs(st);
    ExitKeeps(st, 0);
    EndedEnds(st, c);
    EndedRuns(st, 0);
    YieldQuiet(Ended(st, 0));
    QuietEnds(Ended(st, 0), Yield(Ended(st, 0)), c);
    OnlyEndsTwice(st, Ended(st, 0), Yield(Ended(st, 0)), c);
  }

  lemma NotBoot(st: State)
    requires Inv(st) && st.current in st.tasks && st.tasks[st.current].cell.Some?
    ensures st.current != BOOT
  {
    hide Distinct;
  }

  lemma ExitIs(st: State)
    requires Steppable(st)
    ensures Ended(st, 0).current == st.current && st.current in Ended(st, 0).tasks && Ended(st, 0).ring == st.ring
    ensures Step(st, DoExit(0)) == Exit(st, 0) == Yield(Ended(st, 0)) && Clean(st, DoExit(0))
  {
    hide Yield;
  }

  lemma {:induction false} EndHolders(st: State, c: Cell) returns (ops: seq<Op>, st': State)
    requires Inv(st)
    ensures Leads(st, ops, st') && Inv(st') && OnlyEnds(st, st', c) && Holders(st'.tasks, c) == {}
    ensures forall i :: 0 <= i < |ops| ==> !Arrival(ops[i])
    decreases |Holders(st.tasks, c)|
  {
    hide Inv;
    hide OnlyEnds;
    hide Quiet;
    hide Leads;
    hide Step;
    hide Enabled;
    hide Clean;
    if Holders(st.tasks, c) == {} {
      QuietSelf(st);
      QuietEnds(st, st, c);
      LeadsNone(st);
      return [], st;
    }
    var h :| h in Holders(st.tasks, c);
    var toH, at := CanRun(st, h);
    QuietEnds(st, at, c);
    assert h in Holders(at.tasks, c);
    hide Holders;
    HolderCell(at.tasks, c, h);
    EndOne(at, c);
    var next := Step(at, DoExit(0));
    var rest, last := EndHolders(next, c);
    LeadsOne(at, DoExit(0));
    LeadsOn(st, toH, at, [DoExit(0)], next);
    LeadsOn(st, toH + [DoExit(0)], next, rest, last);
    OnlyEndsTwice(st, at, next, c);
    OnlyEndsTwice(st, next, last, c);
    return toH + [DoExit(0)] + rest, last;
  }

  lemma LeadsNone(st: State)
    ensures Leads(st, [], st)
  {
  }

  lemma HolderCell(tasks: map<Tid, Task>, c: Cell, h: Tid)
    requires h in Holders(tasks, c)
    ensures h in tasks && tasks[h].cell == Some(c)
  {
  }

  // ---------------------------------------------------------------- unlinking at zero

  /** Some clean steps without arrivals lead to a step that destroys the directory, and everyone lives that long. */
  ghost predicate CanDestroy(st: State, pd: Directory) {
    exists ops: seq<Op>, mid: State, op: Op :: DestroysAfter(st, ops, mid, op, pd)
  }

  ghost predicate DestroysAfter(st: State, ops: seq<Op>, mid: State, op: Op, pd: Directory) {
    && Leads(st, ops, mid) && (forall i :: 0 <= i < |ops| ==> !Arrival(ops[i])) && !Arrival(op)
    && Steppable(mid) && Enabled(mid, op) && Destroys(mid, Step(mid, op), pd)
  }

  /** The living tasks of st live in st', where they were. */
  ghost predicate StillLiving(st: State, st': State) {
    forall s :: Living(st.tasks, s) ==> Living(st'.tasks, s) && st'.tasks[s].pd == st.tasks[s].pd
  }

  lemma {:induction false} ReapDestroysIt(st: State, todo: seq<Tid>, t: Tid)
    requires t in todo && Reapable(st, t) && AtZero(st, t)
    ensures Destroys(st, Reap(st, todo), st.tasks[t].pd)
    decreases |todo|
  {
    var pd := st.tasks[t].pd;
    if todo[0] == t {
      DropDestroys(st, t, pd);
      ReapGrows(Drop(st, t), todo[1..]);
      DestroysTwo(st, Drop(st, t), Reap(st, todo), pd);
    } else if Reapable(st, todo[0]) {
      var mid := Drop(st, todo[0]);
      DropDestroys(st, todo[0], pd);
      ReapGrows(mid, todo[1..]);
      ReapDestroysIt(mid, todo[1..], t);
      DestroysTwo(st, mid, Reap(st, todo), pd);
    } else {
      ReapDestroysIt(st, todo[1..], t);
    }
  }

  /** A parentless ended task on a list the reaper can walk is unlinked by it. */
  lemma ReapNow(st: State, t: Tid)
    requires Inv(st) && t in st.tasks && st.tasks[t].state == Terminated && st.tasks[t].parent.None? && AtZero(st, t)
    requires |st.ring| <= 1025
    ensures DestroysAfter(st, [], st, DoReap, st.tasks[t].pd)
  {
    hide CountsOk;
    hide HistoryOk;
    hide Reap;
    hide Distinct;
    InvFacts(st);
    assert t in Visited(st.ring) by {
      var i := IndexOf(st.ring, t);
      assert st.ring[1..][i - 1] == t;
    }
    ReapDestroysIt(st, Visited(st.ring), t);
  }

  /** The parent of an ended task, once it runs, waits for its children one after the other until it comes to t. */
  lemma {:induction false} WaitNow(st: State, t: Tid) returns (ops: seq<Op>, mid: State)
    requires Inv(st) && t in st.tasks && st.tasks[t].state == Terminated && AtZero(st, t)
    requires st.tasks[t].parent == Some(st.current) && st.current != BOOT
    ensures DestroysAfter(st, ops, mid, DoWait, st.tasks[t].pd) && StillLiving(st, mid)
    decreases |st.tasks|
  {
    hide Inv;
    hide Step;
    hide Enabled;
    hide Clean;
    hide Destroys;
    hide Leads;
    hide StillLiving;
    hide FirstChild;
    hide AtZero;
    var done := FirstChild(st.tasks, st.ring, st.current, true);
    WaitFinds(st, t);
    if done == Some(t) {
      LeadsNone(st);
      LivingSelf(st);
      return [], st;
    }
    var next := Step(st, DoWait);
    WaitOther(st, t);
    var rest;
    rest, mid := WaitNow(next, t);
    LeadsOne(st, DoWait);
    LeadsOn(st, [DoWait], next, rest, mid);
    LivingTwice(st, next, mid);
    ops := [DoWait] + rest;
  }

  lemma LivingSelf(st: State)
    ensures StillLiving(st, st)
  {
  }

  lemma LivingTwice(a: State, b: State, c: State)
    requires StillLiving(a, b) && StillLiving(b, c)
    ensures StillLiving(a, c)
  {
  }

  /** task_wait by the parent of t finds an ended child; if it is t, its space is destroyed. */
  lemma WaitFinds(st: State, t: Tid)
    requires Inv(st) && t in st.tasks && st.tasks[t].state == Terminated && AtZero(st, t)
    requires st.tasks[t].parent == Some(st.current) && st.current != BOOT
    ensures Steppable(st) && Enabled(st, DoWait) && Clean(st, DoWait)
    ensures var done := FirstChild(st.tasks, st.ring, st.current, true);
            done.Some? && (done == Some(t) ==> Destroys(st, Step(st, DoWait), st.tasks[t].pd))
  {
    hide CountsOk;
    hide HistoryOk;
    hide Distinct;
    hide Wait;
    hide Drop;
    InvFacts(st);
    CurrentRuns(st);
    WaitCases(st);
    var done := FirstChild(st.tasks, st.ring, st.current, true);
    assert t in st.ring;
    if done == Some(t) { DropDestroys(Reported(st, t), t, st.tasks[t].pd); }
  }

  /** If it is another, that one leaves, and t is as it was. */
  lemma WaitOther(st: State, t: Tid)
    requires Inv(st) && t in st.tasks && st.tasks[t].state == Terminated && AtZero(st, t)
    requires st.tasks[t].parent == Some(st.current) && st.current != BOOT
    requires var done := FirstChild(st.tasks, st.ring, st.current, true); done.Some? && done != Some(t)
    ensures Steppable(st)
    ensures var st' := Step(st, DoWait);
            && Inv(st') && |st'.tasks| < |st.tasks| && StillLiving(st, st') && st'.current == st.current
            && t in st'.tasks && st'.tasks[t] == st.tasks[t] && AtZero(st', t)
  {
    hide Inv;
    hide RingOk;
    hide RunningOk;
    hide CountsOk;
    hide HistoryOk;
    hide FamilyOk;
    hide Wait;
    hide Drop;
    hide AtZero;
    hide StillLiving;
    hide Yield;
    InvFacts(st);
    CurrentRuns(st);
    WaitCases(st);
    WaitKeeps(st);
    FirstOfAll(st.tasks, st.ring, st.current);
    ReportOther(st, FirstChild(st.tasks, st.ring, st.current, true).value, t);
  }

  lemma ReportOther(st: State, child: Tid, t: Tid)
    requires st.current in st.tasks && child in st.tasks && t in st.tasks && st.tasks[child].state == Terminated
    requires st.tasks[st.current].state == Running && st.tasks[t].state == Terminated && AtZero(st, t) && child != t
    ensures var st' := Drop(Reported(st, child), child);
            && |st'.tasks| < |st.tasks| && StillLiving(st, st') && st'.current == st.current
            && t in st'.tasks && st'.tasks[t] == st.tasks[t] && AtZero(st', t)
  {
    hide Without;
    var mid := Reported(st, child);
    assert mid.tasks.Keys == st.tasks.Keys;
    FewerTasks(mid.tasks, st.tasks, child);
  }

  lemma FirstOfAll(tasks: map<Tid, Task>, s: seq<Tid>, p: Tid)
    requires FirstChild(tasks, s, p, true).Some?
    ensures FirstChild(tasks, s, p, false).Some?
  {
  }

  lemma FewerTasks(a: map<Tid, Task>, b: map<Tid, Task>, x: Tid)
    requires a.Keys == b.Keys && x in a
    ensures |a - {x}| < |b|
  {
    assert (a - {x}).Keys == a.Keys - {x};
    assert |a.Keys - {x}| < |a.Keys|;
    assert |a - {x}| == |(a - {x}).Keys| && |b| == |b.Keys|;
  }

  /** An ended task with its count at zero that is no orphan can be unlinked, and its space is destroyed then. */
  lemma CanUnlink(st: State, t: Tid) returns (ops: seq<Op>, mid: State, op: Op)
    requires Inv(st) && t in st.tasks && st.tasks[t].state == Terminated && AtZero(st, t) && !Orphan(st.tasks, t)
    requires st.tasks[t].parent != Some(BOOT) && |st.ring| <= 1025
    ensures DestroysAfter(st, ops, mid, op, st.tasks[t].pd) && StillLiving(st, mid)
    ensures op == DoReap || op == DoWait
  {
    hide Inv;
    hide StillLiving;
    hide DestroysAfter;
    if st.tasks[t].parent.None? {
      ReapNow(st, t);
      LivingSelf(st);
      return [], st, DoReap;
    }
    var p := st.tasks[t].parent.value;
    var toP, at := CanRun(st, p);
    QuietAt(st, at, t);
    hide Quiet;
    hide AtZero;
    ops, mid := WaitNow(at, t);
    AfterLeads(st, toP, at, ops, mid, DoWait, st.tasks[t].pd);
    LivingTwice(st, at, mid);
    ops, op := toP + ops, DoWait;
  }

  lemma QuietAt(st: State, st': State, t: Tid)
    requires Quiet(st, st') && t in st.tasks && st.tasks[t].state == Terminated && AtZero(st, t)
    ensures t in st'.tasks && st'.tasks[t].state == Terminated && AtZero(st', t) && StillLiving(st, st')
    ensures st'.tasks[t].parent == st.tasks[t].parent && st'.tasks[t].pd == st.tasks[t].pd
  {
    assert Resting(st.tasks[t], st'.tasks[t]);
  }

  lemma AfterLeads(st: State, m: seq<Op>, at: State, ops: seq<Op>, mid: State, op: Op, pd: Directory)
    requires Leads(st, m, at) && (forall i :: 0 <= i < |m| ==> !Arrival(m[i])) && DestroysAfter(at, ops, mid, op, pd)
    ensures DestroysAfter(st, m + ops, mid, op, pd)
  {
    hide Leads;
    hide Step;
    hide Enabled;
    hide Destroys;
    LeadsOn(st, m, at, ops, mid);
  }

  // ---------------------------------------------------------------- handing out a directory

  /** On some clean continuation the space of n is destroyed while n lives. */
  ghost predicate Doomed(st: State, n: Tid) {
    exists ops: seq<Op>, mid: State, op: Op :: DoomedBy(st, n, ops, mid, op)
  }

  ghost predicate DoomedBy(st: State, n: Tid, ops: seq<Op>, mid: State, op: Op) {
    && Leads(st, ops, mid) && Steppable(mid) && Enabled(mid, op) && Clean(mid, op)
    && Living(mid.tasks, n) && Destroys(mid, Step(mid, op), mid.tasks[n].pd)
  }

  lemma {:induction false} LeadsTidy(st: State, ops: seq<Op>, st': State)
    requires Tidy(st) && Leads(st, ops, st')
    ensures Tidy(st')
    decreases |ops|
  {
    hide Tidy;
    hide Step;
    hide Enabled;
    hide Clean;
    if ops != [] {
      assert Next(st, ops[0], Step(st, ops[0]));
      TidyStep(st, ops[0], Step(st, ops[0]));
      LeadsTidy(Step(st, ops[0]), ops[1..], st');
    }
  }

  /** In a tidy state nobody is doomed. */
  lemma TidyIsSafe(st: State, n: Tid)
    requires Tidy(st)
    ensures !Doomed(st, n)
  {
    hide Tidy;
    hide Step;
    hide Enabled;
    hide Clean;
    hide Leads;
    forall ops, mid, op
      ensures !DoomedBy(st, n, ops, mid, op)
    {
      if DoomedBy(st, n, ops, mid, op) {
        LeadsTidy(st, ops, mid);
        TidyParts(mid);
        assert Next(mid, op, Step(mid, op));
        DestroysOnlyDead(mid, op, Step(mid, op), n);
      }
    }
  }

  lemma TidyParts(st: State)
    requires Tidy(st)
    ensures Inv(st) && ForksOk(st.tasks) && SpacesOk(st.tasks)
  {
    hide Inv;
    hide ForksOk;
    hide SpacesOk;
  }

  /** A living task whose directory an ended one, no orphan, names with another count is doomed. */
  lemma ClashDooms(st: State, n: Tid, t: Tid)
    requires Inv(st) && ForksOk(st.tasks) && |st.ring| <= 1025 && Living(st.tasks, n)
    requires t in st.tasks && StaleBy(st.tasks, st.tasks[n].pd, st.tasks[n].cell, t)
    ensures Doomed(st, n)
  {
    hide Inv;
    hide Leads;
    hide Step;
    hide Enabled;
    var c := st.tasks[t].cell.value;
    var toZero, at := EndHolders(st, c);
    ZeroAt(st, at, c, n, t);
    hide ForksOk;
    hide OnlyEnds;
    hide Orphan;
    hide AtZero;
    hide Destroys;
    var ops, mid, op := CanUnlink(at, t);
    LeadsOn(st, toZero, at, ops, mid);
    QuietClean(mid, op);
    assert DoomedBy(st, n, toZero + ops, mid, op);
  }

  lemma QuietClean(st: State, op: Op)
    requires op == DoReap || op == DoWait
    ensures Clean(st, op)
  {
  }

  lemma ZeroAt(st: State, at: State, c: Cell, n: Tid, t: Tid)
    requires ForksOk(st.tasks) && Living(st.tasks, n) && t in st.tasks
    requires StaleBy(st.tasks, st.tasks[n].pd, st.tasks[n].cell, t) && st.tasks[t].cell == Some(c)
    requires Inv(at) && OnlyEnds(st, at, c) && Holders(at.tasks, c) == {}
    ensures Living(at.tasks, n) && at.tasks[n].pd == st.tasks[n].pd && at.ring == st.ring
    ensures t in at.tasks && at.tasks[t].state == Terminated && at.tasks[t].pd == st.tasks[t].pd
    ensures AtZero(at, t) && !Orphan(at.tasks, t) && at.tasks[t].parent == st.tasks[t].parent != Some(BOOT)
  {
    hide RingOk;
    hide RunningOk;
    hide FamilyOk;
    hide HistoryOk;
    assert Ends(st.tasks[n], at.tasks[n], c) && Ends(st.tasks[t], at.tasks[t], c);
    if st.tasks[t].parent.Some? {
      var p := st.tasks[t].parent.value;
      assert Ends(st.tasks[p], at.tasks[p], c);
    }
  }

  /** A directory handed out is safe for the new task exactly when it is not stale: otherwise some continuation of clean
      steps destroys the space of the new task while it lives.  (The reaper must be able to walk the list.) */
  lemma HandOutExact(st: State, op: Op, pd: Directory, cell: Option<Cell>)
    requires Tidy(st) && Steppable(st) && Enabled(st, op) && HandsOut(st, op, pd, cell)
    ensures Doomed(Step(st, op), st.nextId) ==> Stale(st, pd, cell)
    ensures |st.ring| <= 1024 ==> (Stale(st, pd, cell) ==> Doomed(Step(st, op), st.nextId))
  {
    var st' := Step(st, op);
    TidyParts(st);
    hide Tidy;
    hide Inv;
    hide ForksOk;
    hide SpacesOk;
    hide Doomed;
    assert Next(st, op, st');
    if !Stale(st, pd, cell) {
      OneHandOut(st, op, pd, cell);
      hide Step;
      hide Enabled;
      TidyStep(st, op, st');
      TidyIsSafe(st', st.nextId);
    } else if |st.ring| <= 1024 {
      NextKeeps(st, op, st');
      StepSpaces(st, op, st');
      StepKeys(st, op, st');
      LongerRing(st, op, pd, cell);
      hide Step;
      hide Enabled;
      var t :| t in st.tasks && StaleBy(st.tasks, pd, cell, t);
      StillStale(st, op, pd, cell, t);
      ClashDooms(st', st.nextId, t);
    }
  }

  lemma OneHandOut(st: State, op: Op, pd: Directory, cell: Option<Cell>)
    requires HandsOut(st, op, pd, cell) && !Stale(st, pd, cell)
    ensures Clean(st, op)
  {
  }

  lemma LongerRing(st: State, op: Op, pd: Directory, cell: Option<Cell>)
    requires Inv(st) && Steppable(st) && HandsOut(st, op, pd, cell)
    ensures |Step(st, op).ring| == |st.ring| + 1
  {
    hide Inv;
  }

  lemma StillStale(st: State, op: Op, pd: Directory, cell: Option<Cell>, t: Tid)
    requires Inv(st) && Steppable(st) && HandsOut(st, op, pd, cell) && Adds(st, op)
    requires t in st.tasks && StaleBy(st.tasks, pd, cell, t)
    ensures var b := st.tasks[st.nextId := Newcomer(st, op)];
            Living(b, st.nextId) && b[st.nextId].pd == pd && b[st.nextId].cell == cell && StaleBy(b, pd, cell, t)
  {
    hide CountsOk;
    hide HistoryOk;
    hide Distinct;
    AddedOrphan(st.tasks, st.nextId, Newcomer(st, op), t);
  }

  // ---------------------------------------------------------------- destroyed again

  /** On some clean continuation that does not hand the directory out again, it is destroyed. */
  ghost predicate DestroyedLater(st: State, pd: Directory) {
    exists ops: seq<Op>, mid: State, op: Op :: LaterBy(st, pd, ops, mid, op)
  }

  predicate NotHanded(op: Op, pd: Directory) { (op.DoFork? ==> op.pd != pd) && (op.DoCreate? ==> op.pd != pd) }

  ghost predicate LaterBy(st: State, pd: Directory, ops: seq<Op>, mid: State, op: Op) {
    && Leads(st, ops, mid) && (forall i :: 0 <= i < |ops| ==> NotHanded(ops[i], pd))
    && Steppable(mid) && Enabled(mid, op) && Clean(mid, op) && Destroys(mid, Step(mid, op), pd)
  }

  /** Of the tasks that name the directory with a count, all are orphans. */
  ghost predicate OnlyOrphans(tasks: map<Tid, Task>, pd: Directory) {
    forall x :: x in tasks && tasks[x].pd == pd && tasks[x].cell.Some? ==> Orphan(tasks, x)
  }

  lemma OrphansStay(st: State, op: Op, st': State, pd: Directory)
    requires Inv(st) && Next(st, op, st') && OnlyOrphans(st.tasks, pd) && NotHanded(op, pd)
    ensures OnlyOrphans(st'.tasks, pd)
  {
    hide Next;
    StepKeys(st, op, st');
    if Adds(st, op) {
      InvFacts(st);
      CurrentRuns(st);
      hide CountsOk;
      hide HistoryOk;
      hide Distinct;
      forall x | x in st.tasks
        ensures Orphan(st'.tasks, x) <==> Orphan(st.tasks, x)
      {
        AddedOrphan(st.tasks, st.nextId, Newcomer(st, op), x);
      }
    } else {
      hide Inv;
      StepFewer(st, op, st');
      forall x | x in st'.tasks && st'.tasks[x].pd == pd && st'.tasks[x].cell.Some?
        ensures Orphan(st'.tasks, x)
      {
        assert Named(st.tasks, st'.tasks, x);
        FewerLiving(st.tasks, st'.tasks, x);
      }
    }
  }

  lemma {:induction false} OrphansSafe(st: State, pd: Directory, ops: seq<Op>, mid: State, op: Op)
    requires Inv(st) && OnlyOrphans(st.tasks, pd)
    ensures !LaterBy(st, pd, ops, mid, op)
    decreases |ops|
  {
    hide Inv;
    hide Step;
    hide Enabled;
    hide OnlyOrphans;
    if LaterBy(st, pd, ops, mid, op) {
      if ops == [] {
        assert Next(st, op, Step(st, op));
        StepDestroysOnly(st, op, Step(st, op), pd);
        OrphansUnlinked(st, pd);
      } else {
        var next := Step(st, ops[0]);
        assert Next(st, ops[0], next);
        NextKeeps(st, ops[0], next);
        OrphansStay(st, ops[0], next, pd);
        assert LaterBy(next, pd, ops[1..], mid, op) by {
          assert forall i :: 0 <= i < |ops[1..]| ==> ops[1..][i] == ops[i + 1];
        }
        OrphansSafe(next, pd, ops[1..], mid, op);
      }
    }
  }

  lemma OrphansUnlinked(st: State, pd: Directory)
    requires OnlyOrphans(st.tasks, pd)
    ensures !UnlinkedAtZero(st, pd)
  {
  }

  /** Another listed task, no orphan, that names the directory of t with the count of t. */
  ghost predicate AnotherHolder(st: State, t: Tid)
    requires t in st.tasks
  {
    exists x :: x in st.tasks && x != t && HoldsSame(st.tasks, t, x)
  }

  predicate HoldsSame(tasks: map<Tid, Task>, t: Tid, x: Tid)
    requires t in tasks && x in tasks
  {
    tasks[x].pd == tasks[t].pd && tasks[x].cell == tasks[t].cell && !Orphan(tasks, x)
  }

  /** Unlinking an ended task at zero destroys its space; until the directory is handed out again, that space can be
      destroyed once more exactly when another listed task holds it, so once for all exactly when t was the last. */
  lemma DestroyedOnceExactly(st: State, t: Tid)
    requires Tidy(st) && t in st.tasks && st.tasks[t].state == Terminated && t != st.current
    requires AtZero(st, t) && !Orphan(st.tasks, t)
    ensures Destroys(st, Drop(st, t), st.tasks[t].pd)
    ensures DestroyedLater(Drop(st, t), st.tasks[t].pd) ==> AnotherHolder(st, t)
    ensures |st.ring| <= 1026 ==> (AnotherHolder(st, t) ==> DestroyedLater(Drop(st, t), st.tasks[t].pd))
  {
    var pd, st' := st.tasks[t].pd, Drop(st, t);
    TidyParts(st);
    hide Tidy;
    DropDestroys(st, t, pd);
    DroppedInv(st, t);
    if !AnotherHolder(st, t) {
      NoOtherOrphans(st, t);
      hide Drop;
      hide Inv;
      hide OnlyOrphans;
      forall ops, mid, op
        ensures !LaterBy(st', pd, ops, mid, op)
      {
        OrphansSafe(st', pd, ops, mid, op);
      }
    } else if |st.ring| <= 1026 {
      var x :| x in st.tasks && x != t && HoldsSame(st.tasks, t, x);
      HolderAfter(st, t, x);
      hide Drop;
      hide Inv;
      hide Destroys;
      var ops, mid, op := CanUnlink(st', x);
      QuietClean(mid, op);
      NotHandedAll(ops, pd);
      hide Leads;
      hide Step;
      hide Enabled;
      assert LaterBy(st', pd, ops, mid, op);
    }
  }

  lemma NotHandedAll(ops: seq<Op>, pd: Directory)
    requires forall i :: 0 <= i < |ops| ==> !Arrival(ops[i])
    ensures forall i :: 0 <= i < |ops| ==> NotHanded(ops[i], pd)
  {
  }

  lemma DroppedInv(st: State, t: Tid)
    requires Inv(st) && t in st.tasks && st.tasks[t].state == Terminated && t != st.current
    ensures Inv(Drop(st, t)) && |Drop(st, t).ring| + 1 == |st.ring|
  {
    hide FamilyOk;
    hide CountsOk;
    hide HistoryOk;
    hide Drop;
    InvFacts(st);
    assert Droppable(st, t);
    DropKeeps(st, t);
    DropHistory(st, t);
    ShorterRing(st, t);
  }

  lemma ShorterRing(st: State, t: Tid)
    requires RingOk(st) && t in st.tasks
    ensures |Drop(st, t).ring| + 1 == |st.ring|
  {
    WithoutCuts(st.ring, IndexOf(st.ring, t));
  }

  lemma NoOtherOrphans(st: State, t: Tid)
    requires CountsOk(st) && SpacesOk(st.tasks) && t in st.tasks && st.tasks[t].state == Terminated
    requires AtZero(st, t) && !Orphan(st.tasks, t) && !AnotherHolder(st, t)
    ensures OnlyOrphans(Drop(st, t).tasks, st.tasks[t].pd)
  {
    var b := Drop(st, t).tasks;
    hide Without;
    forall x | x in b && b[x].pd == st.tasks[t].pd && b[x].cell.Some?
      ensures Orphan(b, x)
    {
      var clash := Clash(st.tasks, t, x);
      assert !HoldsSame(st.tasks, t, x);
      assert Orphan(st.tasks, x);
    }
  }

  lemma HolderAfter(st: State, t: Tid, x: Tid)
    requires Inv(st) && ForksOk(st.tasks) && t in st.tasks && st.tasks[t].state == Terminated && AtZero(st, t)
    requires x in st.tasks && x != t && HoldsSame(st.tasks, t, x)
    ensures var st' := Drop(st, t);
            && x in st'.tasks && st'.tasks[x].state == Terminated && AtZero(st', x) && !Orphan(st'.tasks, x)
            && st'.tasks[x].parent != Some(BOOT) && st'.tasks[x].pd == st.tasks[t].pd
  {
    hide RingOk;
    hide RunningOk;
    hide FamilyOk;
    hide HistoryOk;
    hide Without;
    InvFacts(st);
    var held := x in Holders(st.tasks, st.tasks[t].cell.value);
  }
}
