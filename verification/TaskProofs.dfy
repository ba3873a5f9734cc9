/** Every enabled step of the task machine keeps its invariant. */
module TaskProofs {
  import opened TaskSpec
  import opened Wrappers

  /** Two task tables that differ at most in which of the living tasks run, are ready or have been woken. */
  ghost predicate Similar(a: map<Tid, Task>, b: map<Tid, Task>) {
    && a.Keys == b.Keys
    && forall t :: t in a ==>
         && b[t].pd == a[t].pd && b[t].cell == a[t].cell && b[t].parent == a[t].parent
         && b[t].exitCode == a[t].exitCode && b[t].inWait == a[t].inWait
         && (b[t].state == Terminated <==> a[t].state == Terminated)
         && (b[t].state == Blocked ==> a[t].state == Blocked)
  }

  lemma SimilarKeeps(st: State, st': State)
    requires FamilyOk(st) && CountsOk(st) && HistoryOk(st) && Similar(st.tasks, st'.tasks)
    requires st'.cells == st.cells && st'.nextId == st.nextId && st'.exits == st.exits && st'.forks == st.forks
    requires st'.reports == st.reports
    ensures FamilyOk(st') && CountsOk(st') && HistoryOk(st')
  {
    forall c: nat
      ensures Holders(st'.tasks, c) == Holders(st.tasks, c)
    {
    }
    assert forall t :: t in st'.tasks <==> t in st.tasks;
  }

  /** Before a yield the current task may have blocked or ended; then the boot task is ready. */
  ghost predicate BeforeYield(st: State) {
    && RingOk(st)
    && (forall t :: t in st.tasks && t != st.current ==> st.tasks[t].state != Running)
    && st.tasks[st.current].state != Ready
    && (st.tasks[st.current].state != Running ==> st.current != BOOT)
    && BOOT in st.tasks && (st.current != BOOT ==> st.tasks[BOOT].state == Ready)
    && st.tasks[BOOT].parent == None && st.tasks[BOOT].cell == None
  }

  lemma AroundMembers(st: State, t: Tid)
    requires st.current in st.ring
    ensures t in Around(st) <==> t in st.ring
  {
    var i := IndexOf(st.ring, st.current);
    assert st.ring == st.ring[..i + 1] + st.ring[i + 1..];
  }

  lemma PickFacts(st: State)
    requires st.current in st.ring
    ensures Pick(st).Some? ==> Pick(st).value in st.ring && IsReady(st.tasks, Pick(st).value)
    ensures Pick(st).None? ==> forall t :: t in st.ring ==> !IsReady(st.tasks, t)
  {
    var c := Around(st);
    BestIsFirstHighest(st.tasks, c, |c|);
    if Pick(st).Some? { AroundMembers(st, Pick(st).value); }
    forall t | t in st.ring
      ensures t in c
    {
      AroundMembers(st, t);
    }
  }

  lemma YieldKeeps(st: State)
    requires BeforeYield(st) && FamilyOk(st) && CountsOk(st) && HistoryOk(st)
    ensures Inv(Yield(st))
  {
    hide FamilyOk;
    hide CountsOk;
    hide HistoryOk;
    hide RunningOk;
    hide Yield;
    YieldRuns(st);
    SimilarKeeps(st, Yield(st));
  }

  lemma YieldRuns(st: State)
    requires BeforeYield(st)
    ensures RingOk(Yield(st)) && RunningOk(Yield(st)) && Similar(st.tasks, Yield(st).tasks)
    ensures var st' := Yield(st);
            && st'.cells == st.cells && st'.nextId == st.nextId && st'.exits == st.exits && st'.forks == st.forks
            && st'.reports == st.reports && st'.ring == st.ring && st'.destroyed == st.destroyed
  {
    hide Pick;
    hide Distinct;
    PickFacts(st);
    if Pick(st).None? || Pick(st).value == st.current {
      assert st.tasks[st.current].state == Running;
    } else {
      SwitchRuns(st, Pick(st).value);
    }
  }

  /** The tasks after a switch to n. */
  function Switched(st: State, n: Tid): map<Tid, Task>
    requires st.current in st.tasks && n in st.tasks
  {
    SetState(if st.tasks[st.current].state == Running then SetState(st.tasks, st.current, Ready) else st.tasks,
             n, Running)
  }

  lemma SwitchRuns(st: State, n: Tid)
    requires BeforeYield(st) && n in st.ring && n != st.current && IsReady(st.tasks, n)
    ensures var tasks := Switched(st, n);
            && Similar(st.tasks, tasks)
            && (forall t :: t in tasks ==> (tasks[t].state == Running <==> t == n))
            && BOOT in tasks && (tasks[BOOT].state == Running || tasks[BOOT].state == Ready)
            && tasks[BOOT].parent == None && tasks[BOOT].cell == None
  {
    hide Distinct;
    var tasks := Switched(st, n);
    assert tasks.Keys == st.tasks.Keys;
  }

  // ---------------------------------------------------------------- new tasks

  lemma InsertedFacts(s: seq<Tid>, i: nat, t: Tid)
    requires Distinct(s) && i < |s| && t !in s
    ensures Distinct(Inserted(s, i, t))
    ensures forall x :: x in Inserted(s, i, t) <==> x == t || x in s
    ensures Inserted(s, i, t)[0] == s[0]
  {
    assert s == s[..i + 1] + s[i + 1..];
  }

  lemma AddRuns(st: State, task: Task)
    requires RingOk(st) && RunningOk(st) && task.state == Ready
    ensures RingOk(Add(st, task)) && RunningOk(Add(st, task))
  {
    hide Distinct;
    hide Inserted;
    InsertedFacts(st.ring, IndexOf(st.ring, st.current), st.nextId);
  }

  lemma AddFamily(st: State, st': State, task: Task)
    requires RingOk(st) && FamilyOk(st) && HistoryOk(st) && task.state == Ready
    requires task.parent.Some? ==> task.parent.value < st.nextId
    requires st'.tasks == st.tasks[st.nextId := task] && st'.nextId == st.nextId + 1
    requires st'.exits == st.exits && st'.reports == st.reports
    requires st'.forks == if task.parent.Some? then st.forks[st.nextId := task.parent.value] else st.forks
    ensures FamilyOk(st') && HistoryOk(st')
  {
    assert st.nextId !in st.tasks;
  }

  /** A new task with a count of its own, a shared one, or none. */
  lemma AddCounts(st: State, st': State, task: Task)
    requires RingOk(st) && CountsOk(st) && task.state == Ready && st'.tasks == st.tasks[st.nextId := task]
    requires
      || (task.cell.None? && st'.cells == st.cells)
      || (task.cell.Some? && st'.cells == st.cells[task.cell.value := 1] && Unused(st, task.pd, task.cell))
      || (task.cell.Some? && st.current in st.tasks && st.tasks[st.current].cell == task.cell
          && st'.cells == st.cells[task.cell.value := st.cells[task.cell.value] + 1])
    ensures CountsOk(st')
  {
    hide Holders;
    hide Distinct;
    var n := st.nextId;
    assert n !in st.tasks;
    forall c: nat
      ensures |Holders(st'.tasks, c)| ==
        if task.cell == Some(c) then |Holders(st.tasks, c)| + 1 else |Holders(st.tasks, c)|
    {
      AddHolders(st.tasks, n, task, c);
    }
    if task.cell.Some? && Unused(st, task.pd, task.cell) { NoHolders(st.tasks, task.cell.value); }
  }

  lemma AddHolders(tasks: map<Tid, Task>, n: Tid, task: Task, c: Cell)
    requires n !in tasks && task.state != Terminated
    ensures |Holders(tasks[n := task], c)| ==
      if task.cell == Some(c) then |Holders(tasks, c)| + 1 else |Holders(tasks, c)|
  {
    var s := Holders(tasks, c);
    assert n !in s;
    assert Holders(tasks[n := task], c) == if task.cell == Some(c) then s + {n} else s;
  }

  lemma NoHolders(tasks: map<Tid, Task>, c: Cell)
    requires forall t :: Living(tasks, t) ==> tasks[t].cell != Some(c)
    ensures Holders(tasks, c) == {}
  {
  }

  lemma ForkKeeps(st: State, pd: Directory, cell: Option<Cell>)
    requires Inv(st) && Unused(st, pd, cell)
    ensures Inv(Fork(st, pd, cell))
  {
    hide RunningOk;
    hide FamilyOk;
    hide CountsOk;
    hide HistoryOk;
    hide Inserted;
    var self := st.tasks[st.current];
    if self.isUser {
      var child := Task(Ready, self.priority, true, pd, cell, Some(st.current), 0, 0, false);
      AddAll(st, Fork(st, pd, cell), child);
    }
  }

  /** The three parts of the invariant for a task added in front of the current one's successor. */
  lemma AddAll(st: State, st': State, task: Task)
    requires Inv(st) && task.state == Ready && (task.parent.Some? ==> task.parent.value < st.nextId)
    requires st' == Add(st, task).(cells := st'.cells, forks := st'.forks)
    requires st'.forks == if task.parent.Some? then st.forks[st.nextId := task.parent.value] else st.forks
    requires
      || (task.cell.None? && st'.cells == st.cells)
      || (task.cell.Some? && st'.cells == st.cells[task.cell.value := 1] && Unused(st, task.pd, task.cell))
      || (task.cell.Some? && st.current in st.tasks && st.tasks[st.current].cell == task.cell
          && task.cell.value in st.cells && st'.cells == st.cells[task.cell.value := st.cells[task.cell.value] + 1])
    ensures Inv(st')
  {
    hide FamilyOk;
    hide CountsOk;
    hide HistoryOk;
    AddRuns(st, task);
    AddFamily(st, st', task);
    AddCounts(st, st', task);
  }

  lemma SpawnKeeps(st: State)
    requires Inv(st)
    ensures Inv(Spawn(st))
  {
    hide RunningOk;
    hide FamilyOk;
    hide HistoryOk;
    hide Inserted;
    hide Distinct;
    var self := st.tasks[st.current];
    AddAll(st, Spawn(st), Task(Ready, self.priority, true, self.pd, self.cell, None, 0, 0, false));
  }

  lemma CreateKeeps(st: State, isUser: bool, priority: nat, pd: Directory, cell: Option<Cell>)
    requires Inv(st) && Unused(st, pd, cell)
    ensures Inv(Create(st, isUser, priority, pd, cell))
  {
    hide RunningOk;
    hide FamilyOk;
    hide CountsOk;
    hide HistoryOk;
    hide Inserted;
    AddAll(st, Create(st, isUser, priority, pd, cell), Task(Ready, priority, isUser, pd, cell, None, 0, 0, false));
  }

  // ---------------------------------------------------------------- exit

  /** task_exit up to its yield. */
  function Ended(st: State, code: int): State
    requires st.current in st.tasks
    requires st.tasks[st.current].cell.Some? ==> st.tasks[st.current].cell.value in st.cells
  {
    var self := st.tasks[st.current];
    var tasks := st.tasks[st.current := self.(exitCode := code, state := Terminated)];
    var cells := if self.cell.Some? then st.cells[self.cell.value := st.cells[self.cell.value] - 1] else st.cells;
    var tasks' := if self.parent.Some? && self.parent.value in tasks && tasks[self.parent.value].state == Blocked
                  then SetState(tasks, self.parent.value, Ready) else tasks;
    st.(tasks := tasks', cells := cells, exits := st.exits[st.current := code])
  }

  lemma ExitKeeps(st: State, code: int)
    requires Inv(st) && st.current != BOOT
    ensures Inv(Exit(st, code))
  {
    hide Inv;
    hide BeforeYield;
    hide FamilyOk;
    hide CountsOk;
    hide HistoryOk;
    hide Yield;
    InvFacts(st);
    EndedRuns(st, code);
    EndedFamily(st, code);
    EndedCounts(st, code);
    YieldKeeps(Ended(st, code));
  }

  lemma InvFacts(st: State)
    requires Inv(st)
    ensures RingOk(st) && RunningOk(st) && FamilyOk(st) && CountsOk(st) && HistoryOk(st)
    ensures st.current in st.tasks && st.current in st.ring && st.ring != []
    ensures st.tasks[st.current].cell.Some? ==> st.tasks[st.current].cell.value in st.cells
  {
  }

  lemma EndedRuns(st: State, code: int)
    requires Inv(st) && st.current != BOOT
    ensures BeforeYield(Ended(st, code))
  {
    hide Distinct;
    hide CountsOk;
    hide HistoryOk;
    InvFacts(st);
    assert Ended(st, code).tasks.Keys == st.tasks.Keys;
  }

  lemma EndedTask(st: State, code: int, t: Tid)
    requires st.current in st.tasks && st.tasks[st.current].state == Running
    requires st.tasks[st.current].cell.Some? ==> st.tasks[st.current].cell.value in st.cells
    ensures t in Ended(st, code).tasks <==> t in st.tasks
    ensures t in st.tasks ==>
      var a, b := st.tasks[t], Ended(st, code).tasks[t];
      && b.parent == a.parent && b.cell == a.cell && b.pd == a.pd && b.inWait == a.inWait && b.isUser == a.isUser
      && (t == st.current ==> b.state == Terminated && b.exitCode == code)
      && (t != st.current ==> b.exitCode == a.exitCode && (b.state == Terminated <==> a.state == Terminated))
      && (b.state == Blocked ==> a.state == Blocked && st.tasks[st.current].parent != Some(t))
  {
  }

  lemma EndedFamily(st: State, code: int)
    requires Inv(st) && st.current != BOOT
    ensures FamilyOk(Ended(st, code)) && HistoryOk(Ended(st, code))
  {
    hide Distinct;
    hide CountsOk;
    InvFacts(st);
    forall t
      ensures t in Ended(st, code).tasks <==> t in st.tasks
    {
      EndedTask(st, code, t);
    }
    EndedFamilyPart(st, code);
    EndedHistoryPart(st, code);
  }

  lemma EndedFamilyPart(st: State, code: int)
    requires FamilyOk(st) && st.current in st.tasks && st.tasks[st.current].state == Running
    requires st.tasks[st.current].cell.Some? ==> st.tasks[st.current].cell.value in st.cells
    ensures FamilyOk(Ended(st, code))
  {
    var st' := Ended(st, code);
    forall t | t in st'.tasks && st'.tasks[t].parent.Some?
      ensures st'.tasks[t].parent.value < st'.nextId
      ensures AsleepInWait(st'.tasks, st'.tasks[t].parent.value) ==> st'.tasks[t].state != Terminated
    {
      EndedTask(st, code, t);
      EndedTask(st, code, st.tasks[t].parent.value);
    }
  }

  lemma EndedHistoryPart(st: State, code: int)
    requires HistoryOk(st) && st.current in st.tasks && st.tasks[st.current].state == Running
    requires st.tasks[st.current].cell.Some? ==> st.tasks[st.current].cell.value in st.cells
    ensures HistoryOk(Ended(st, code))
  {
    var st' := Ended(st, code);
    forall t
      ensures t in st'.tasks <==> t in st.tasks
      ensures t in st.tasks ==> st'.tasks[t].parent == st.tasks[t].parent
      ensures t in st.tasks && st'.tasks[t].state == Terminated ==>
        t in st'.exits && st'.exits[t] == st'.tasks[t].exitCode
    {
      EndedTask(st, code, t);
    }
    hide Ended;
  }

  lemma EndedCounts(st: State, code: int)
    requires Inv(st)
    ensures CountsOk(Ended(st, code))
  {
    hide Distinct;
    hide Holders;
    hide HistoryOk;
    hide FamilyOk;
    InvFacts(st);
    EndedCountsPart(st, code);
  }

  lemma EndedCountsPart(st: State, code: int)
    requires CountsOk(st) && st.current in st.tasks && st.tasks[st.current].state == Running
    ensures CountsOk(Ended(st, code))
  {
    hide Holders;
    var st' := Ended(st, code);
    forall t
      ensures t in st'.tasks <==> t in st.tasks
      ensures t in st.tasks ==> st'.tasks[t].cell == st.tasks[t].cell && st'.tasks[t].pd == st.tasks[t].pd
      ensures t in st.tasks ==>
        (st'.tasks[t].state == Terminated <==> t == st.current || st.tasks[t].state == Terminated)
    {
      EndedTask(st, code, t);
    }
    assert st'.tasks.Keys == st.tasks.Keys;
    forall c: nat
      ensures |Holders(st'.tasks, c)| ==
        |Holders(st.tasks, c)| - (if st.tasks[st.current].cell == Some(c) then 1 else 0)
    {
      EndedHolders(st.tasks, st'.tasks, st.current, c);
    }
  }

  lemma EndedHolders(a: map<Tid, Task>, b: map<Tid, Task>, x: Tid, c: Cell)
    requires a.Keys == b.Keys && x in a && a[x].state != Terminated && b[x].state == Terminated
    requires b[x].cell == a[x].cell
    requires forall t :: t in a && t != x ==>
      b[t].cell == a[t].cell && (b[t].state == Terminated <==> a[t].state == Terminated)
    ensures |Holders(b, c)| == |Holders(a, c)| - (if a[x].cell == Some(c) then 1 else 0)
  {
    if a[x].cell == Some(c) {
      assert Holders(a, c) == Holders(b, c) + {x};
    } else {
      assert Holders(a, c) == Holders(b, c);
    }
  }

  // ---------------------------------------------------------------- unlinking

  lemma {:induction false} WithoutFacts(s: seq<Tid>, t: Tid)
    requires Distinct(s)
    ensures Distinct(Without(s, t))
    ensures forall x :: x in Without(s, t) <==> x in s && x != t
    ensures s != [] && s[0] != t ==> Without(s, t) != [] && Without(s, t)[0] == s[0]
    ensures t !in s ==> Without(s, t) == s
  {
    if s != [] {
      WithoutFacts(s[1..], t);
      assert s == [s[0]] + s[1..];
      var r := Without(s[1..], t);
      assert s[0] !in r;
      assert Distinct([s[0]] + r);
    }
  }

  /** The unlinked list is the old one cut at t: all other tasks stay, in order. */
  lemma {:induction false} WithoutCuts(s: seq<Tid>, i: nat)
    requires Distinct(s) && i < |s|
    ensures Without(s, s[i]) == s[..i] + s[i + 1..]
  {
    WithoutFacts(s[1..], s[i]);
    if i == 0 {
      assert s[0] !in s[1..];
    } else {
      WithoutCuts(s[1..], i - 1);
      assert s[..i] == [s[0]] + s[1..][..i - 1];
      assert s[i + 1..] == s[1..][i..];
    }
  }

  /** A terminated task that is neither current nor the boot task. */
  ghost predicate Droppable(st: State, t: Tid) {
    t in st.tasks && st.tasks[t].state == Terminated && t != st.current && t != BOOT
  }

  lemma DropKeeps(st: State, t: Tid)
    requires RingOk(st) && RunningOk(st) && FamilyOk(st) && CountsOk(st) && Droppable(st, t)
    ensures RingOk(Drop(st, t)) && RunningOk(Drop(st, t)) && FamilyOk(Drop(st, t)) && CountsOk(Drop(st, t))
  {
    hide Distinct;
    hide Holders;
    WithoutFacts(st.ring, t);
    var st' := Drop(st, t);
    forall c: nat
      ensures Holders(st'.tasks, c) == Holders(st.tasks, c)
    {
      DropHolders(st.tasks, t, c);
    }
  }

  lemma DropHolders(tasks: map<Tid, Task>, t: Tid, c: Cell)
    requires t in tasks && tasks[t].state == Terminated
    ensures Holders(tasks - {t}, c) == Holders(tasks, c)
  {
  }

  lemma DropHistory(st: State, t: Tid)
    requires HistoryOk(st) && t in st.tasks
    ensures HistoryOk(Drop(st, t))
  {
  }

  // ---------------------------------------------------------------- wait, block, wake

  lemma WaitKeeps(st: State)
    requires Inv(st) && Enabled(st, DoWait)
    ensures Inv(Wait(st))
  {
    hide FamilyOk;
    hide CountsOk;
    hide HistoryOk;
    hide Yield;
    hide Drop;
    hide Distinct;
    InvFacts(st);
    var self := st.current;
    var done := FirstChild(st.tasks, st.ring, self, true);
    if FirstChild(st.tasks, st.ring, self, false).None? {
      NotWaiting(st);
    } else if done.Some? {
      NotWaiting(st);
      ReportKeeps(st, done.value);
    } else {
      AsleepKeeps(st);
      YieldKeeps(Asleep(st));
    }
  }

  function NoLongerWaiting(st: State): State
    requires st.current in st.tasks
  {
    st.(tasks := st.tasks[st.current := st.tasks[st.current].(inWait := false)])
  }

  /** The current task changes only its state, tick and mark. */
  function WithSelf(st: State, x: Task): State
    requires st.current in st.tasks
  {
    st.(tasks := st.tasks[st.current := x])
  }

  ghost predicate SelfChange(st: State, x: Task) {
    && st.current in st.tasks && st.tasks[st.current].state == Running && x.state != Terminated
    && x.pd == st.tasks[st.current].pd && x.cell == st.tasks[st.current].cell && x.parent == st.tasks[st.current].parent
  }

  lemma SelfCounts(st: State, x: Task)
    requires CountsOk(st) && SelfChange(st, x)
    ensures CountsOk(WithSelf(st, x))
  {
    hide Holders;
    var st' := WithSelf(st, x);
    assert st'.tasks.Keys == st.tasks.Keys;
    forall c: nat
      ensures Holders(st'.tasks, c) == Holders(st.tasks, c)
    {
      SameHolders(st.tasks, st'.tasks, c);
    }
  }

  lemma SelfHistory(st: State, x: Task)
    requires HistoryOk(st) && SelfChange(st, x)
    ensures HistoryOk(WithSelf(st, x))
  {
  }

  lemma SelfFamily(st: State, x: Task)
    requires FamilyOk(st) && SelfChange(st, x)
    requires x.state == Blocked && x.inWait ==>
      forall t :: t in st.tasks && st.tasks[t].parent == Some(st.current) ==> st.tasks[t].state != Terminated
    ensures FamilyOk(WithSelf(st, x))
  {
  }

  lemma SelfRing(st: State, x: Task)
    requires RingOk(st) && RunningOk(st) && SelfChange(st, x) && x.state != Ready
    requires x.state != Running ==> st.current != BOOT
    ensures BeforeYield(WithSelf(st, x))
    ensures x.state == Running ==> RingOk(WithSelf(st, x)) && RunningOk(WithSelf(st, x))
  {
    hide Distinct;
  }

  lemma NotWaiting(st: State)
    requires Inv(st)
    ensures Inv(NoLongerWaiting(st))
  {
    hide RingOk;
    hide FamilyOk;
    hide CountsOk;
    hide HistoryOk;
    InvFacts(st);
    var x := st.tasks[st.current].(inWait := false);
    SelfCounts(st, x);
    SelfHistory(st, x);
    SelfFamily(st, x);
    SelfRing(st, x);
  }

  lemma SameHolders(a: map<Tid, Task>, b: map<Tid, Task>, c: Cell)
    requires a.Keys == b.Keys
    requires forall t :: t in a ==> b[t].cell == a[t].cell && (b[t].state == Terminated <==> a[t].state == Terminated)
    ensures Holders(b, c) == Holders(a, c)
  {
  }

  function Reported(st: State, child: Tid): State
    requires st.current in st.tasks && child in st.tasks
  {
    NoLongerWaiting(st).(reports := st.reports + [Report(st.current, child, st.tasks[child].exitCode)])
  }

  lemma ReportKeeps(st: State, child: Tid)
    requires Inv(st) && Inv(NoLongerWaiting(st)) && child in st.tasks && st.tasks[child].parent == Some(st.current)
    requires st.tasks[child].state == Terminated
    ensures Inv(Drop(Reported(st, child), child))
  {
    hide Distinct;
    hide Holders;
    hide HistoryOk;
    hide Drop;
    InvFacts(NoLongerWaiting(st));
    var mid := Reported(st, child);
    assert mid.tasks == NoLongerWaiting(st).tasks;
    ReportHistory(st, child);
    ReportDroppable(st, child);
    SameButReports(NoLongerWaiting(st), mid);
    DropKeeps(mid, child);
  }

  lemma SameButReports(st: State, st': State)
    requires RingOk(st) && RunningOk(st) && FamilyOk(st) && CountsOk(st) && st' == st.(reports := st'.reports)
    ensures RingOk(st') && RunningOk(st') && FamilyOk(st') && CountsOk(st')
  {
    hide Distinct;
    hide Holders;
  }

  lemma ReportDroppable(st: State, child: Tid)
    requires Inv(st) && child in st.tasks && st.tasks[child].state == Terminated
    ensures Droppable(Reported(st, child), child)
  {
    hide Distinct;
    hide CountsOk;
    hide HistoryOk;
    hide FamilyOk;
    InvFacts(st);
  }

  lemma ReportHistory(st: State, child: Tid)
    requires Inv(st) && child in st.tasks && st.tasks[child].parent == Some(st.current)
    requires st.tasks[child].state == Terminated
    ensures HistoryOk(Drop(Reported(st, child), child))
  {
    hide Distinct;
    hide CountsOk;
    hide FamilyOk;
    hide Without;
    InvFacts(st);
  }

  function Asleep(st: State): State
    requires st.current in st.tasks
  {
    st.(tasks := st.tasks[st.current := st.tasks[st.current].(state := Blocked, inWait := true)])
  }

  /** The three ways a pass of task_wait goes, and what it adds to the reports. */
  lemma WaitCases(st: State)
    requires st.current in st.ring && st.current in st.tasks
    ensures var ended := FirstChild(st.tasks, st.ring, st.current, true);
            && (FirstChild(st.tasks, st.ring, st.current, false).None? ==>
                  Wait(st) == NoLongerWaiting(st) && Wait(st).reports == st.reports)
            && (FirstChild(st.tasks, st.ring, st.current, false).Some? && ended.Some? ==>
                  && Wait(st) == Drop(Reported(st, ended.value), ended.value)
                  && Wait(st).reports == st.reports + [Report(st.current, ended.value, st.tasks[ended.value].exitCode)])
            && (FirstChild(st.tasks, st.ring, st.current, false).Some? && ended.None? ==>
                  Wait(st) == Yield(Asleep(st)) && Wait(st).reports == st.reports)
  {
    hide Pick;
    hide Without;
    PickFacts(Asleep(st));
  }

  lemma AsleepKeeps(st: State)
    requires Inv(st) && st.current != BOOT && FirstChild(st.tasks, st.ring, st.current, true).None?
    ensures BeforeYield(Asleep(st)) && FamilyOk(Asleep(st)) && CountsOk(Asleep(st)) && HistoryOk(Asleep(st))
  {
    hide RingOk;
    hide RunningOk;
    hide FamilyOk;
    hide CountsOk;
    hide HistoryOk;
    hide BeforeYield;
    InvFacts(st);
    ChildrenInRing(st);
    var x := st.tasks[st.current].(state := Blocked, inWait := true);
    CurrentRuns(st);
    SelfCounts(st, x);
    SelfHistory(st, x);
    SelfFamily(st, x);
    SelfRing(st, x);
  }

  lemma CurrentRuns(st: State)
    requires RunningOk(st) && st.current in st.tasks
    ensures st.tasks[st.current].state == Running
  {
  }

  lemma ChildrenInRing(st: State)
    requires RingOk(st) && FirstChild(st.tasks, st.ring, st.current, true).None?
    ensures forall t :: t in st.tasks && st.tasks[t].parent == Some(st.current) ==> st.tasks[t].state != Terminated
  {
    hide Distinct;
  }

  lemma BlockKeeps(st: State, tick: Option<nat>)
    requires Inv(st) && st.current != BOOT
    ensures Inv(Block(st, tick))
  {
    hide Inv;
    hide RingOk;
    hide RunningOk;
    hide FamilyOk;
    hide CountsOk;
    hide HistoryOk;
    hide BeforeYield;
    hide Yield;
    InvFacts(st);
    CurrentRuns(st);
    var x := Sleeper(st.tasks[st.current], tick);
    SelfCounts(st, x);
    SelfHistory(st, x);
    SelfFamily(st, x);
    SelfRing(st, x);
    YieldKeeps(WithSelf(st, x));
  }

  /** Blocked tasks become ready; nothing else about any task changes but its tick. */
  ghost predicate Woken(st: State, st': State) {
    && st' == st.(tasks := st'.tasks) && st'.tasks.Keys == st.tasks.Keys
    && forall t :: t in st.tasks ==>
         || st'.tasks[t] == st.tasks[t]
         || (st.tasks[t].state == Blocked
             && st'.tasks[t] == st.tasks[t].(state := Ready, wakeTick := st'.tasks[t].wakeTick))
  }

  lemma WokenRuns(st: State, st': State)
    requires RingOk(st) && RunningOk(st) && Woken(st, st')
    ensures RingOk(st') && RunningOk(st')
  {
    hide Distinct;
    assert forall t :: t in st'.tasks <==> t in st.tasks;
  }

  lemma WokenSimilar(st: State, st': State)
    requires Woken(st, st')
    ensures Similar(st.tasks, st'.tasks)
  {
  }

  lemma WokenKeeps(st: State, st': State)
    requires Inv(st) && Woken(st, st')
    ensures Inv(st')
  {
    hide Distinct;
    hide RingOk;
    hide RunningOk;
    hide FamilyOk;
    hide CountsOk;
    hide HistoryOk;
    hide Similar;
    WokenRuns(st, st');
    WokenSimilar(st, st');
    SimilarKeeps(st, st');
  }

  lemma WakeWoken(st: State, t: Tid)
    ensures Woken(st, Wake(st, t))
  {
    assert Wake(st, t).tasks.Keys == st.tasks.Keys;
  }

  lemma SleepersWoken(st: State, now: nat)
    ensures Woken(st, WakeSleepers(st, now))
  {
    assert WakeSleepers(st, now).tasks.Keys == st.tasks.Keys;
  }

  lemma WakeKeeps(st: State, t: Tid)
    requires Inv(st)
    ensures Inv(Wake(st, t))
  {
    hide Inv;
    hide Woken;
    WakeWoken(st, t);
    WokenKeeps(st, Wake(st, t));
  }

  lemma WakeSleepersKeeps(st: State, now: nat)
    requires Inv(st)
    ensures Inv(WakeSleepers(st, now))
  {
    hide Inv;
    hide Woken;
    SleepersWoken(st, now);
    WokenKeeps(st, WakeSleepers(st, now));
  }

  // ---------------------------------------------------------------- reaping

  lemma ReapOne(st: State, t: Tid)
    requires Inv(st) && Reapable(st, t)
    ensures Inv(Drop(st, t))
  {
    hide RingOk;
    hide FamilyOk;
    hide CountsOk;
    hide HistoryOk;
    hide Without;
    InvFacts(st);
    assert Droppable(st, t);
    DropKeeps(st, t);
    DropHistory(st, t);
  }

  lemma {:induction false} ReapKeeps(st: State, todo: seq<Tid>)
    requires Inv(st)
    ensures Inv(Reap(st, todo))
    decreases |todo|
  {
    hide Inv;
    hide Reapable;
    hide Drop;
    if todo != [] {
      if Reapable(st, todo[0]) {
        ReapTodo(st, todo[0]);
        ReapOne(st, todo[0]);
        ReapKeeps(Drop(st, todo[0]), todo[1..]);
      } else {
        ReapKeeps(st, todo[1..]);
      }
    }
  }

  lemma ReapTodo(st: State, t: Tid)
    requires Reapable(st, t)
    ensures t in st.tasks
  {
  }

  // ---------------------------------------------------------------- every step, every run

  lemma StepKeeps(st: State, op: Op)
    requires Inv(st) && Enabled(st, op)
    ensures st.current in st.ring && st.current in st.tasks && st.ring != []
    ensures st.tasks[st.current].cell.Some? ==> st.tasks[st.current].cell.value in st.cells
    ensures Inv(Step(st, op))
  {
    hide Inv;
    hide RingOk;
    hide RunningOk;
    hide FamilyOk;
    hide CountsOk;
    hide HistoryOk;
    hide Yield;
    InvFacts(st);
    match op
    case DoYield => YieldNow(st);
    case DoFork(pd, cell) => ForkKeeps(st, pd, cell);
    case DoSpawn => SpawnKeeps(st);
    case DoCreate(isUser, priority, pd, cell) => CreateKeeps(st, isUser, priority, pd, cell);
    case DoExit(code) => ExitKeeps(st, code);
    case DoWait => WaitKeeps(st);
    case DoBlock(tick) => BlockKeeps(st, tick);
    case DoWake(t) => WakeKeeps(st, t);
    case DoWakeSleepers(now) => WakeSleepersKeeps(st, now);
    case DoReap => ReapKeeps(st, Visited(st.ring));
  }

  lemma YieldNow(st: State)
    requires Inv(st)
    ensures st.current in st.ring && st.current in st.tasks && Inv(Yield(st))
  {
    hide FamilyOk;
    hide CountsOk;
    hide HistoryOk;
    hide Yield;
    hide Distinct;
    InvFacts(st);
    assert BeforeYield(st);
    YieldKeeps(st);
  }
}
