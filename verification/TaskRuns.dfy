/**
 Runs of the task machine from scheduler_init: the invariant in every reachable state, and what follows from it for
 termination, waiting and reporting.
 */
module TaskRuns {
  import opened TaskSpec
  import opened TaskProofs
  import opened Wrappers

  predicate Steppable(st: State) {
    && st.current in st.ring && st.current in st.tasks && st.ring != []
    && (st.tasks[st.current].cell.Some? ==> st.tasks[st.current].cell.value in st.cells)
  }

  ghost predicate Next(st: State, op: Op, st': State) {
    Steppable(st) && Enabled(st, op) && st' == Step(st, op)
  }

  /** Any sequence of enabled steps from any state. */
  ghost predicate IsRun(trace: seq<State>, ops: seq<Op>) {
    |trace| == |ops| + 1 && forall i :: 0 <= i < |ops| ==> Next(trace[i], ops[i], trace[i + 1])
  }

  /** In every state of every run from boot the invariant holds. */
  lemma {:induction false} EveryRun(trace: seq<State>, ops: seq<Op>, pd: Directory, i: nat)
    requires IsRun(trace, ops) && trace[0] == Booted(pd) && i < |trace|
    ensures Inv(trace[i])
  {
    hide Booted;
    if i == 0 {
      BootedInv(pd);
    } else {
      EveryRun(trace, ops, pd, i - 1);
      assert Next(trace[i - 1], ops[i - 1], trace[i - 1 + 1]);
      hide Inv;
      hide Enabled;
      hide Step;
      StepKeeps(trace[i - 1], ops[i - 1]);
    }
  }

  lemma BootedInv(pd: Directory)
    ensures Inv(Booted(pd))
  {
  }

  // ---------------------------------------------------------------- what one step keeps of a task

  /** The fate of task t over a step: it stays with its identity, or a terminated task leaves for good. */
  ghost predicate Kept(st: State, st': State, t: Tid) {
    && st'.nextId >= st.nextId
    && (t < st.nextId && t in st'.tasks ==> t in st.tasks)
    && (t in st.tasks && t in st'.tasks ==>
          && st'.tasks[t].pd == st.tasks[t].pd && st'.tasks[t].cell == st.tasks[t].cell
          && st'.tasks[t].parent == st.tasks[t].parent && st'.tasks[t].priority == st.tasks[t].priority
          && st'.tasks[t].isUser == st.tasks[t].isUser
          && (st.tasks[t].state == Terminated ==>
              st'.tasks[t].state == Terminated && st'.tasks[t].exitCode == st.tasks[t].exitCode)
          && (st.tasks[t].state != Terminated && st'.tasks[t].state == Terminated ==> t == st.current))
    && (t in st.tasks && t !in st'.tasks ==> st.tasks[t].state == Terminated)
  }

  lemma YieldKept(st: State, t: Tid)
    requires st.current in st.ring && st.current in st.tasks
    ensures Kept(st, Yield(st), t)
    ensures Yield(st).tasks.Keys == st.tasks.Keys
  {
    hide Pick;
    PickFacts(st);
    if Pick(st).Some? { PickReady(st); }
  }

  lemma PickReady(st: State)
    requires st.current in st.ring && Pick(st).Some?
    ensures IsReady(st.tasks, Pick(st).value)
  {
    PickFacts(st);
  }

  lemma KeptTwice(a: State, b: State, c: State, t: Tid)
    requires Kept(a, b, t) && Kept(b, c, t) && b.current == a.current && (t in a.tasks ==> t < a.nextId)
    requires t in a.tasks && t in b.tasks && t !in c.tasks ==> a.tasks[t].state == Terminated
    ensures Kept(a, c, t)
  {
  }

  lemma {:induction false} ReapKept(st: State, todo: seq<Tid>, t: Tid)
    requires t in st.tasks ==> t < st.nextId
    ensures Kept(st, Reap(st, todo), t) && Reap(st, todo).current == st.current
    decreases |todo|
  {
    if todo != [] {
      if Reapable(st, todo[0]) {
        var mid := Drop(st, todo[0]);
        ReapKept(mid, todo[1..], t);
        DropKept(st, todo[0], t);
        KeptTwice(st, mid, Reap(mid, todo[1..]), t);
      } else {
        ReapKept(st, todo[1..], t);
      }
    }
  }

  lemma DropKept(st: State, x: Tid, t: Tid)
    requires x in st.tasks && st.tasks[x].state == Terminated
    ensures Kept(st, Drop(st, x), t) && Drop(st, x).current == st.current
  {
  }

  lemma ExitKept(st: State, code: int, t: Tid)
    requires Inv(st)
    ensures Steppable(st) && Kept(st, Exit(st, code), t)
  {
    hide Inv;
    hide Distinct;
    hide CountsOk;
    hide HistoryOk;
    hide FamilyOk;
    InvFacts(st);
    CurrentRuns(st);
    hide RunningOk;
    var mid := Ended(st, code);
    EndedTask(st, code, t);
    EndedTask(st, code, st.current);
    assert Kept(st, mid, t);
    YieldKept(mid, t);
    hide Yield;
    hide Kept;
    KeptTwice(st, mid, Exit(st, code), t);
  }

  /** A current task that changes only its state, tick and mark. */
  lemma SelfKept(st: State, x: Task, t: Tid)
    requires SelfChange(st, x) && x.priority == st.tasks[st.current].priority && x.isUser == st.tasks[st.current].isUser
    ensures Kept(st, WithSelf(st, x), t) && WithSelf(st, x).tasks.Keys == st.tasks.Keys
  {
  }

  lemma SelfThenYield(st: State, x: Task, t: Tid)
    requires SelfChange(st, x) && x.priority == st.tasks[st.current].priority && x.isUser == st.tasks[st.current].isUser
    requires st.current in st.ring && (t in st.tasks ==> t < st.nextId)
    ensures Kept(st, Yield(WithSelf(st, x)), t)
  {
    hide Yield;
    hide SelfChange;
    hide Kept;
    SelfKept(st, x, t);
    YieldKept(WithSelf(st, x), t);
    KeptTwice(st, WithSelf(st, x), Yield(WithSelf(st, x)), t);
  }

  lemma ReportKept(st: State, child: Tid, t: Tid)
    requires st.current in st.tasks && st.tasks[st.current].state == Running && (t in st.tasks ==> t < st.nextId)
    requires child in st.tasks && st.tasks[child].state == Terminated
    ensures Kept(st, Drop(Reported(st, child), child), t)
  {
    hide Drop;
    var mid := Reported(st, child);
    assert Kept(st, mid, t);
    DropKept(mid, child, t);
    DropLoses(mid, child, t);
    hide Kept;
    KeptTwice(st, mid, Drop(mid, child), t);
  }

  lemma DropLoses(st: State, x: Tid, t: Tid)
    requires x in st.tasks
    ensures t in st.tasks && t !in Drop(st, x).tasks ==> t == x
  {
  }

  lemma WaitKept(st: State, t: Tid)
    requires Inv(st)
    ensures Steppable(st) && Kept(st, Wait(st), t)
  {
    hide Inv;
    hide Wait;
    hide Distinct;
    hide CountsOk;
    hide HistoryOk;
    hide FamilyOk;
    hide Yield;
    hide Drop;
    hide Kept;
    InvFacts(st);
    CurrentRuns(st);
    hide RunningOk;
    WaitCases(st);
    var done := FirstChild(st.tasks, st.ring, st.current, true);
    if FirstChild(st.tasks, st.ring, st.current, false).None? {
      SelfKept(st, st.tasks[st.current].(inWait := false), t);
    } else if done.Some? {
      ReportKept(st, done.value, t);
    } else {
      SelfThenYield(st, st.tasks[st.current].(state := Blocked, inWait := true), t);
    }
  }

  lemma StepKept(st: State, op: Op, st': State, t: Tid)
    requires Inv(st) && Next(st, op, st')
    ensures Kept(st, st', t)
  {
    hide Yield;
    hide Drop;
    hide Reap;
    hide Wait;
    hide Exit;
    hide FamilyOk;
    hide CountsOk;
    hide HistoryOk;
    hide Distinct;
    hide Kept;
    hide Woken;
    hide Wake;
    hide WakeSleepers;
    hide Inserted;
    match op
    case DoYield => YieldKept(st, t);
    case DoExit(code) => ExitKept(st, code, t);
    case DoWait => WaitKept(st, t);
    case DoBlock(tick) =>
      SelfThenYield(st, Sleeper(st.tasks[st.current], tick), t);
    case DoReap => ReapKept(st, Visited(st.ring), t);
    case DoWake(w) =>
      WakeWoken(st, w);
      WokenKept(st, st', t);
    case DoWakeSleepers(now) =>
      SleepersWoken(st, now);
      WokenKept(st, st', t);
    case _ => AddKept(st, st', t);
  }

  lemma WokenKept(st: State, st': State, t: Tid)
    requires Woken(st, st')
    ensures Kept(st, st', t)
  {
  }

  lemma AddKept(st: State, st': State, t: Tid)
    requires st.nextId !in st.tasks && st'.nextId >= st.nextId
    requires st'.tasks == st.tasks
      || (st.nextId in st'.tasks && st'.tasks == st.tasks[st.nextId := st'.tasks[st.nextId]])
    ensures Kept(st, st', t)
  {
  }

  /** TERMINATED is never left, the exit code stays, and a task that has left the list never returns to it. */
  lemma {:induction false} TerminatedForever(trace: seq<State>, ops: seq<Op>, pd: Directory, i: nat, j: nat, t: Tid)
    requires IsRun(trace, ops) && trace[0] == Booted(pd) && i <= j < |trace|
    requires t in trace[i].tasks && trace[i].tasks[t].state == Terminated
    ensures t < trace[j].nextId
    ensures t in trace[j].tasks ==>
      trace[j].tasks[t].state == Terminated && trace[j].tasks[t].exitCode == trace[i].tasks[t].exitCode
    decreases j
  {
    hide Booted;
    if i == j {
      EveryRun(trace, ops, pd, i);
    } else {
      TerminatedForever(trace, ops, pd, i, j - 1, t);
      EveryRun(trace, ops, pd, j - 1);
      assert Next(trace[j - 1], ops[j - 1], trace[j - 1 + 1]);
      hide Inv;
      hide Next;
      StepKept(trace[j - 1], ops[j - 1], trace[j], t);
    }
  }

  lemma {:induction false} GoneForever(trace: seq<State>, ops: seq<Op>, pd: Directory, i: nat, j: nat, t: Tid)
    requires IsRun(trace, ops) && trace[0] == Booted(pd) && i <= j < |trace|
    requires t !in trace[i].tasks && t < trace[i].nextId
    ensures t !in trace[j].tasks && t < trace[j].nextId
    decreases j
  {
    hide Booted;
    if i < j {
      GoneForever(trace, ops, pd, i, j - 1, t);
      EveryRun(trace, ops, pd, j - 1);
      assert Next(trace[j - 1], ops[j - 1], trace[j - 1 + 1]);
      hide Inv;
      hide Next;
      StepKept(trace[j - 1], ops[j - 1], trace[j], t);
    }
  }

  // ---------------------------------------------------------------- wait and exit

  /** No lost wakeup: while a task sleeps in task_wait, none of its children has ended. */
  lemma NoLostWakeup(trace: seq<State>, ops: seq<Op>, pd: Directory, i: nat, p: Tid, c: Tid)
    requires IsRun(trace, ops) && trace[0] == Booted(pd) && i < |trace|
    requires AsleepInWait(trace[i].tasks, p) && c in trace[i].tasks && trace[i].tasks[c].parent == Some(p)
    ensures trace[i].tasks[c].state != Terminated
  {
    EveryRun(trace, ops, pd, i);
  }

  /** The waits of a whole run never report a child twice, and report to its parent the code it ended with. */
  lemma ReportedOnce(trace: seq<State>, ops: seq<Op>, pd: Directory, i: nat, k: nat, m: nat)
    requires IsRun(trace, ops) && trace[0] == Booted(pd) && i < |trace|
    requires k < |trace[i].reports| && m < |trace[i].reports|
    ensures trace[i].reports[k].child == trace[i].reports[m].child ==> k == m
    ensures var r := trace[i].reports[k];
            && r.child in trace[i].forks && trace[i].forks[r.child] == r.parent
            && r.child in trace[i].exits && trace[i].exits[r.child] == r.code
            && r.child !in trace[i].tasks
  {
    EveryRun(trace, ops, pd, i);
    var r := trace[i].reports[k];
    if k < m {
      assert trace[i].reports[k].child != trace[i].reports[m].child;
    } else if m < k {
      assert trace[i].reports[m].child != trace[i].reports[k].child;
    }
  }
}
