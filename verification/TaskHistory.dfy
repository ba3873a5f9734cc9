/**
 Where things come from, over every run: each task on the list from the step that created it, each exit code from the
 task_exit of that task, each report from a task_wait of the parent.
 */
module TaskHistory {
  import opened TaskSpec
  import opened TaskProofs
  import opened TaskRuns
  import opened TaskSchedule
  import opened TaskSpaces
  import opened TaskSleep
  import opened Wrappers

  // ---------------------------------------------------------------- births

  /** The step creates task t, and this is what a creation gives: a fork the parent's priority and a space of its own, a
      thread the priority and the space of its creator, a program what was asked for. */
  predicate Creates(st: State, op: Op, t: Tid, task: Task) {
    && t == st.nextId && st.current in st.tasks
    && var self := st.tasks[st.current];
       match op
       case DoFork(pd, cell) =>
         && self.isUser && task.isUser && task.priority == self.priority
         && task.pd == pd && task.cell == cell && task.parent == Some(st.current)
       case DoSpawn =>
         && task.isUser && task.priority == self.priority
         && task.pd == self.pd && task.cell == self.cell && task.parent == None
       case DoCreate(isUser, priority, pd, cell) =>
         && task.isUser == isUser && task.priority == priority
         && task.pd == pd && task.cell == cell && task.parent == None
       case _ => false
  }

  /** A task that was not there before a step was created by it, is ready, and stands right behind the current one. */
  lemma StepCreates(st: State, op: Op, st': State, t: Tid)
    requires Inv(st) && Next(st, op, st') && t !in st.tasks && t in st'.tasks
    ensures Creates(st, op, t, st'.tasks[t]) && st'.tasks[t].state == Ready
    ensures st'.ring == Inserted(st.ring, IndexOf(st.ring, st.current), t) && st'.current == st.current
  {
    hide Inv;
    hide Inserted;
    hide Yield;
    hide Exit;
    hide Wait;
    hide Reap;
    StepKeys(st, op, st');
  }

  /** Over every run: every task but the first was created by some step, and still has the identity it was given. */
  lemma {:induction false} EveryTaskCreated(trace: seq<State>, ops: seq<Op>, pd: Directory, j: nat, t: Tid)
    requires IsRun(trace, ops) && trace[0] == Booted(pd) && j < |trace| && t in trace[j].tasks && t != BOOT
    ensures exists i :: 0 <= i < j && Creates(trace[i], ops[i], t, trace[j].tasks[t])
    decreases j
  {
    hide Inv;
    hide Next;
    if j > 0 {
      hide Booted;
      StepOfRun(trace, ops, pd, j - 1);
      if t in trace[j - 1].tasks {
        EveryTaskCreated(trace, ops, pd, j - 1, t);
        var i :| 0 <= i < j - 1 && Creates(trace[i], ops[i], t, trace[j - 1].tasks[t]);
        StepKept(trace[j - 1], ops[j - 1], trace[j], t);
        assert Creates(trace[i], ops[i], t, trace[j].tasks[t]);
      } else {
        StepCreates(trace[j - 1], ops[j - 1], trace[j], t);
      }
    }
  }

  // ---------------------------------------------------------------- ends

  lemma YieldHistory(st: State)
    requires st.current in st.ring && st.current in st.tasks
    ensures Yield(st).exits == st.exits && Yield(st).reports == st.reports
  {
  }

  lemma {:induction false} ReapHistory(st: State, todo: seq<Tid>)
    ensures Reap(st, todo).exits == st.exits && Reap(st, todo).reports == st.reports
    decreases |todo|
  {
    if todo != [] { ReapHistory(if Reapable(st, todo[0]) then Drop(st, todo[0]) else st, todo[1..]); }
  }

  lemma WaitHistory(st: State)
    requires st.current in st.ring && st.current in st.tasks
    ensures Wait(st).exits == st.exits
  {
    hide FirstChild;
    hide Without;
    hide Yield;
    YieldHistory(st.(tasks := st.tasks[st.current := st.tasks[st.current].(state := Blocked, inWait := true)]));
  }

  /** Exit codes are recorded by task_exit alone, for the task that calls it. */
  lemma StepExits(st: State, op: Op, st': State)
    requires Next(st, op, st')
    ensures st'.exits == if op.DoExit? then st.exits[st.current := op.code] else st.exits
  {
    hide Yield;
    hide Reap;
    hide Wait;
    hide Inserted;
    match op
    case DoYield => YieldHistory(st);
    case DoExit(code) => YieldHistory(Ended(st, code));
    case DoWait => WaitHistory(st);
    case DoBlock(tick) => YieldHistory(WithSelf(st, Sleeper(st.tasks[st.current], tick)));
    case DoReap => ReapHistory(st, Visited(st.ring));
    case _ =>
  }

  /** The step is the task_exit of t. */
  predicate ExitsWith(st: State, op: Op, t: Tid, code: int) { st.current == t && op == DoExit(code) }

  lemma {:induction false} CodeFromExit(trace: seq<State>, ops: seq<Op>, pd: Directory, j: nat, t: Tid)
    requires IsRun(trace, ops) && trace[0] == Booted(pd) && j < |trace| && t in trace[j].exits
    ensures exists i :: 0 <= i < j && ExitsWith(trace[i], ops[i], t, trace[j].exits[t])
    decreases j
  {
    hide Inv;
    hide Next;
    if j > 0 {
      hide Booted;
      StepOfRun(trace, ops, pd, j - 1);
      StepExits(trace[j - 1], ops[j - 1], trace[j]);
      if ops[j - 1].DoExit? && t == trace[j - 1].current {
        assert ExitsWith(trace[j - 1], ops[j - 1], t, trace[j].exits[t]);
      } else {
        CodeFromExit(trace, ops, pd, j - 1, t);
      }
    }
  }

  /** Over every run: a task is terminated exactly by its own task_exit, and keeps the code it gave. */
  lemma EndedByExit(trace: seq<State>, ops: seq<Op>, pd: Directory, j: nat, t: Tid)
    requires IsRun(trace, ops) && trace[0] == Booted(pd) && j < |trace| && t in trace[j].tasks
    requires trace[j].tasks[t].state == Terminated
    ensures exists i :: 0 <= i < j && ExitsWith(trace[i], ops[i], t, trace[j].tasks[t].exitCode)
  {
    hide Booted;
    EveryRun(trace, ops, pd, j);
    CodeFromExit(trace, ops, pd, j, t);
  }

  /** The caller of task_exit is terminated by it, with that code. */
  lemma ExitEnds(st: State, code: int, st': State)
    requires Inv(st) && Next(st, DoExit(code), st')
    ensures st.current in st'.tasks && st'.tasks[st.current].state == Terminated
    ensures st'.tasks[st.current].exitCode == code
  {
    hide Pick;
    hide Yield;
    hide Distinct;
    hide HistoryOk;
    hide CountsOk;
    InvFacts(st);
    CurrentRuns(st);
    YieldKept(Ended(st, code), st.current);
  }

  /** Over every run no task exits twice. */
  lemma ExitsOnce(trace: seq<State>, ops: seq<Op>, pd: Directory, i: nat, j: nat)
    requires IsRun(trace, ops) && trace[0] == Booted(pd) && i < j < |ops| && ops[i].DoExit? && ops[j].DoExit?
    ensures trace[i].current != trace[j].current
  {
    hide Booted;
    hide Next;
    hide Inv;
    StepOfRun(trace, ops, pd, i);
    StepOfRun(trace, ops, pd, j);
    ExitEnds(trace[i], ops[i].code, trace[i + 1]);
    TerminatedForever(trace, ops, pd, i + 1, j, trace[i].current);
    InvFacts(trace[j]);
    CurrentRuns(trace[j]);
  }

  // ---------------------------------------------------------------- reports

  /** The step is a task_wait of the parent, which has the ended child on its list and takes it off. */
  predicate ReportsTo(st: State, op: Op, st': State, r: Report) {
    && op == DoWait && st.current == r.parent && r.child in st.tasks && r.child !in st'.tasks
    && st.tasks[r.child].state == Terminated && st.tasks[r.child].parent == Some(r.parent)
    && st.tasks[r.child].exitCode == r.code
  }

  lemma StepReports(st: State, op: Op, st': State)
    requires Inv(st) && Next(st, op, st')
    ensures st'.reports == st.reports
      || (|st'.reports| == |st.reports| + 1 && st.reports <= st'.reports
          && ReportsTo(st, op, st', st'.reports[|st.reports|]))
  {
    hide Inv;
    hide Yield;
    hide Reap;
    hide Wait;
    hide Inserted;
    hide FirstChild;
    InvFacts(st);
    CurrentRuns(st);
    match op
    case DoYield => YieldHistory(st);
    case DoExit(code) => YieldHistory(Ended(st, code));
    case DoWait =>
      WaitCases(st);
      var ended := FirstChild(st.tasks, st.ring, st.current, true);
    case DoBlock(tick) => YieldHistory(WithSelf(st, Sleeper(st.tasks[st.current], tick)));
    case DoReap => ReapHistory(st, Visited(st.ring));
    case _ =>
  }

  lemma {:induction false} ReportFromWait(trace: seq<State>, ops: seq<Op>, pd: Directory, j: nat, k: nat)
    requires IsRun(trace, ops) && trace[0] == Booted(pd) && j < |trace| && k < |trace[j].reports|
    ensures exists i :: 0 <= i < j && ReportsTo(trace[i], ops[i], trace[i + 1], trace[j].reports[k])
    decreases j
  {
    hide Inv;
    hide Next;
    hide ReportsTo;
    if j > 0 {
      hide Booted;
      StepOfRun(trace, ops, pd, j - 1);
      StepReports(trace[j - 1], ops[j - 1], trace[j]);
      if k < |trace[j - 1].reports| {
        ReportFromWait(trace, ops, pd, j - 1, k);
      } else {
        assert ReportsTo(trace[j - 1], ops[j - 1], trace[j - 1 + 1], trace[j].reports[k]);
      }
    }
  }

  /** The steps at which a child was forked, ended and was reported. */
  ghost predicate Life(trace: seq<State>, ops: seq<Op>, r: Report, f: nat, e: nat, w: nat)
    requires |trace| == |ops| + 1
  {
    && f < e < w < |ops|
    && ops[f].DoFork? && trace[f].current == r.parent && trace[f].nextId == r.child
    && ExitsWith(trace[e], ops[e], r.child, r.code)
    && ReportsTo(trace[w], ops[w], trace[w + 1], r)
  }

  /** Over every run, behind each report is a child's whole life: a fork by the parent the report went to, the child's
      task_exit with the code reported, and then that parent's task_wait. */
  lemma ReportedLife(trace: seq<State>, ops: seq<Op>, pd: Directory, j: nat, k: nat)
    requires IsRun(trace, ops) && trace[0] == Booted(pd) && j < |trace| && k < |trace[j].reports|
    ensures exists f: nat, e: nat, w: nat :: w < j && Life(trace, ops, trace[j].reports[k], f, e, w)
  {
    hide Inv;
    hide Next;
    var r := trace[j].reports[k];
    ReportFromWait(trace, ops, pd, j, k);
    var w: nat :| w < j && ReportsTo(trace[w], ops[w], trace[w + 1], r);
    EndedByExit(trace, ops, pd, w, r.child);
    var e: nat :| e < w && ExitsWith(trace[e], ops[e], r.child, r.code);
    ForkedBefore(trace, ops, pd, e, w, r.child, r.parent);
    var f: nat :| f < e && Forks(trace[f], ops[f], r.child, r.parent);
    assert Life(trace, ops, r, f, e, w);
  }

  predicate Forks(st: State, op: Op, t: Tid, p: Tid) { op.DoFork? && st.current == p && st.nextId == t }

  /** A task that runs and is later on the list with a parent was forked by it before. */
  lemma ForkedBefore(trace: seq<State>, ops: seq<Op>, pd: Directory, e: nat, w: nat, t: Tid, p: Tid)
    requires IsRun(trace, ops) && trace[0] == Booted(pd) && e < w < |trace| && trace[e].current == t
    requires t in trace[w].tasks && trace[w].tasks[t].parent == Some(p)
    ensures exists f: nat :: f < e && Forks(trace[f], ops[f], t, p)
  {
    hide Inv;
    hide Next;
    hide Creates;
    EveryRun(trace, ops, pd, e);
    EveryRun(trace, ops, pd, w);
    InvFacts(trace[e]);
    NotBoot(trace[w], t);
    EveryTaskCreated(trace, ops, pd, e, t);
    var f :| 0 <= f < e && Creates(trace[f], ops[f], t, trace[e].tasks[t]);
    ParentKept(trace, ops, pd, e, w, t);
    ForkOnly(trace[f], ops[f], t, trace[e].tasks[t]);
    assert Forks(trace[f], ops[f], t, p);
  }

  lemma NotBoot(st: State, t: Tid)
    requires Inv(st) && t in st.tasks && st.tasks[t].parent.Some?
    ensures t != BOOT
  {
  }

  lemma ForkOnly(st: State, op: Op, t: Tid, task: Task)
    requires Creates(st, op, t, task) && task.parent.Some?
    ensures Forks(st, op, t, task.parent.value)
  {
  }

  lemma {:induction false} ParentKept(trace: seq<State>, ops: seq<Op>, pd: Directory, i: nat, j: nat, t: Tid)
    requires IsRun(trace, ops) && trace[0] == Booted(pd) && i <= j < |trace|
    requires t in trace[i].tasks && t in trace[j].tasks
    ensures trace[j].tasks[t].parent == trace[i].tasks[t].parent
    decreases j
  {
    hide Inv;
    hide Next;
    hide Booted;
    if i < j {
      StepOfRun(trace, ops, pd, j - 1);
      StepKept(trace[j - 1], ops[j - 1], trace[j], t);
      EveryRun(trace, ops, pd, i);
      OnList(trace[i], t);
      if t !in trace[j - 1].tasks {
        Leaves(trace, ops, pd, i, j - 1, t);
      }
      ParentKept(trace, ops, pd, i, j - 1, t);
    }
  }

  lemma OnList(st: State, t: Tid)
    requires Inv(st) && t in st.tasks
    ensures t < st.nextId
  {
  }

  /** A task off the list again has a number that is given away for good. */
  lemma {:induction false} Leaves(trace: seq<State>, ops: seq<Op>, pd: Directory, i: nat, j: nat, t: Tid)
    requires IsRun(trace, ops) && trace[0] == Booted(pd) && i <= j < |trace| && t < trace[i].nextId
    ensures t < trace[j].nextId
    decreases j
  {
    hide Inv;
    hide Next;
    hide Booted;
    if i < j {
      Leaves(trace, ops, pd, i, j - 1, t);
      StepOfRun(trace, ops, pd, j - 1);
      StepKept(trace[j - 1], ops[j - 1], trace[j], t);
    }
  }

  // ---------------------------------------------------------------- reaping

  lemma {:induction false} ReapTakes(st: State, todo: seq<Tid>, t: Tid)
    ensures t in Reap(st, todo).tasks <==> t in st.tasks && !(t in todo && Reapable(st, t))
    decreases |todo|
  {
    if todo != [] {
      var x := todo[0];
      var mid := if Reapable(st, x) then Drop(st, x) else st;
      ReapTakes(mid, todo[1..], t);
      assert t in todo <==> t == x || t in todo[1..];
    }
  }

  /** task_reap_terminated takes off exactly the ended tasks without a parent among the first 1024 behind the head. */
  lemma ReapExact(st: State, st': State, t: Tid)
    requires Inv(st) && Next(st, DoReap, st') && t in st.tasks
    ensures t in st.ring
    ensures t in st'.tasks <==> !(Reapable(st, t) && 1 <= IndexOf(st.ring, t) <= 1024)
  {
    hide Reap;
    hide Reapable;
    ReapTakes(st, Visited(st.ring), t);
    VisitedIs(st.ring, t);
  }

  lemma VisitedIs(s: seq<Tid>, t: Tid)
    requires s != [] && Distinct(s) && t in s
    ensures t in Visited(s) <==> 1 <= IndexOf(s, t) <= 1024
  {
    var i := IndexOf(s, t);
    var v := Visited(s);
    forall j | 0 <= j < |v| && v[j] == t
      ensures j + 1 == i
    {
      assert s[j + 1] == t;
    }
    if 1 <= i <= 1024 { assert v[i - 1] == t; }
  }
}
