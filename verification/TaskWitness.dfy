/** Two runs of the task machine that show what its guarantees leave open. */
module TaskWitness {
  import opened TaskSpec
  import opened TaskRuns
  import opened TaskProofs
  import opened TaskSpaces
  import opened Wrappers

  function UserTask(s: RunState, pd: Directory, cell: Cell, parent: Option<Tid>): Task {
    Task(s, 5, true, pd, Some(cell), parent, 0, 0, false)
  }

  function BootTask(s: RunState): Task { Task(s, 5, false, 0, None, None, 0, 0, false) }

  /** The first ready task wins when all priorities are equal. */
  lemma {:induction false} BestEqual(tasks: map<Tid, Task>, c: seq<Tid>, k: nat, j: nat)
    requires j < k <= |c| && IsReady(tasks, c[j]) && forall i :: 0 <= i < j ==> !IsReady(tasks, c[i])
    requires forall t :: t in tasks ==> tasks[t].priority == 5
    ensures Best(tasks, c, k) == Some(c[j])
  {
    if k == j + 1 {
      BestNone(tasks, c, j);
    } else {
      BestEqual(tasks, c, k - 1, j);
    }
  }

  lemma {:induction false} BestNone(tasks: map<Tid, Task>, c: seq<Tid>, k: nat)
    requires k <= |c| && forall i :: 0 <= i < k ==> !IsReady(tasks, c[i])
    ensures Best(tasks, c, k) == None
  {
    if k > 0 { BestNone(tasks, c, k - 1); }
  }

  /** A yield among equal priorities goes to the next ready task around the ring. */
  lemma YieldTo(st: State, at: nat, j: nat, next: Tid)
    requires Distinct(st.ring) && at < |st.ring| && st.ring[at] == st.current && st.current in st.tasks
    requires forall t :: t in st.tasks ==> st.tasks[t].priority == 5
    requires j < |st.ring| && Rotated(st.ring, at)[j] == next && IsReady(st.tasks, next) && next != st.current
    requires forall i :: 0 <= i < j ==> !IsReady(st.tasks, Rotated(st.ring, at)[i])
    ensures Yield(st) ==
      st.(current := next,
          tasks := (if st.tasks[st.current].state == Running then SetState(st.tasks, st.current, Ready) else st.tasks)
                   [next := st.tasks[next].(state := Running)])
  {
    IndexUnique(st.ring, at);
    BestEqual(st.tasks, Rotated(st.ring, at), |st.ring|, j);
  }

  function ProgramCreated(): State {
    State(map[1 := BootTask(Running), 2 := UserTask(Ready, 10, 1, None)],
          [1, 2], 1, map[1 := 1], 3, map[], map[], [], [])
  }

  function ProgramRuns(): State {
    State(map[1 := BootTask(Ready), 2 := UserTask(Running, 10, 1, None)],
          [1, 2], 2, map[1 := 1], 3, map[], map[], [], [])
  }

  function ThreadStarted(): State {
    State(map[1 := BootTask(Ready), 2 := UserTask(Running, 10, 1, None), 3 := UserTask(Ready, 10, 1, None)],
          [1, 2, 3], 2, map[1 := 2], 4, map[], map[], [], [])
  }

  function ProgramEnded(): State {
    State(map[1 := BootTask(Ready), 2 := UserTask(Terminated, 10, 1, None), 3 := UserTask(Running, 10, 1, None)],
          [1, 2, 3], 3, map[1 := 1], 4, map[2 := 0], map[], [], [])
  }

  function BothEnded(): State {
    State(map[1 := BootTask(Running), 2 := UserTask(Terminated, 10, 1, None), 3 := UserTask(Terminated, 10, 1, None)],
          [1, 2, 3], 1, map[1 := 0], 4, map[2 := 0, 3 := 0], map[], [], [])
  }

  function BothReaped(): State {
    State(map[1 := BootTask(Running)],
          [1], 1, map[1 := 0], 4, map[2 := 0, 3 := 0], map[], [], [10, 10])
  }

  lemma CreateProgram()
    ensures Next(Booted(0), DoCreate(true, 5, 10, Some(1)), ProgramCreated())
  {
    assert IndexOf([BOOT], BOOT) == 0;
    assert Inserted([BOOT], 0, 2) == [1, 2];
  }

  lemma RunProgram()
    ensures Next(ProgramCreated(), DoYield, ProgramRuns())
  {
    YieldTo(ProgramCreated(), 0, 0, 2);
  }

  lemma StartThread()
    ensures Next(ProgramRuns(), DoSpawn, ThreadStarted())
  {
    IndexUnique([1, 2], 1);
    assert Inserted([1, 2], 1, 3) == [1, 2, 3];
  }

  function ProgramEnding(): State {
    State(map[1 := BootTask(Ready), 2 := UserTask(Terminated, 10, 1, None), 3 := UserTask(Ready, 10, 1, None)],
          [1, 2, 3], 2, map[1 := 1], 4, map[2 := 0], map[], [], [])
  }

  function ThreadEnding(): State {
    State(map[1 := BootTask(Ready), 2 := UserTask(Terminated, 10, 1, None), 3 := UserTask(Terminated, 10, 1, None)],
          [1, 2, 3], 3, map[1 := 0], 4, map[2 := 0, 3 := 0], map[], [], [])
  }

  lemma EndProgram()
    ensures Ended(ThreadStarted(), 0) == ProgramEnding()
  {
    assert Ended(ThreadStarted(), 0).tasks == ProgramEnding().tasks;
    assert Ended(ThreadStarted(), 0).cells == ProgramEnding().cells;
    assert Ended(ThreadStarted(), 0).exits == ProgramEnding().exits;
  }

  lemma LeaveProgram()
    ensures Yield(ProgramEnding()) == ProgramEnded()
  {
    hide Yield;
    hide IndexOf;
    YieldTo(ProgramEnding(), 1, 0, 3);
    assert ProgramEnding().tasks[3 := UserTask(Running, 10, 1, None)] == ProgramEnded().tasks;
  }

  lemma ExitProgram()
    ensures Next(ThreadStarted(), DoExit(0), ProgramEnded())
  {
    hide Ended;
    hide Next;
    hide Yield;
    hide Distinct;
    EndProgram();
    LeaveProgram();
    ExitTo(ThreadStarted(), ProgramEnding(), ProgramEnded());
  }

  lemma EndThread()
    ensures Ended(ProgramEnded(), 0) == ThreadEnding()
  {
    assert Ended(ProgramEnded(), 0).tasks == ThreadEnding().tasks;
    assert Ended(ProgramEnded(), 0).cells == ThreadEnding().cells;
    assert Ended(ProgramEnded(), 0).exits == ThreadEnding().exits;
  }

  lemma LeaveThread()
    ensures Yield(ThreadEnding()) == BothEnded()
  {
    hide Yield;
    hide IndexOf;
    YieldTo(ThreadEnding(), 2, 0, 1);
    assert ThreadEnding().tasks[1 := BootTask(Running)] == BothEnded().tasks;
  }

  lemma ExitThread()
    ensures Next(ProgramEnded(), DoExit(0), BothEnded())
  {
    hide Ended;
    hide Next;
    hide Yield;
    hide Distinct;
    EndThread();
    LeaveThread();
    ExitTo(ProgramEnded(), ThreadEnding(), BothEnded());
  }

  lemma ReapBoth()
    ensures Next(BothEnded(), DoReap, BothReaped())
  {
    var mid := Drop(BothEnded(), 2);
    assert Without([1, 2, 3], 2) == [1, 3] by {
      assert Without([3], 2) == [3];
      assert Without([2, 3], 2) == [3];
    }
    assert Without([1, 3], 3) == [1] by {
      assert Without([3], 3) == [];
    }
    assert mid.tasks == map[1 := BootTask(Running), 3 := UserTask(Terminated, 10, 1, None)];
    assert Drop(mid, 3) == BothReaped();
    assert Visited([1, 2, 3]) == [2, 3];
    assert Reap(mid, [3]) == BothReaped();
    assert Reap(BothEnded(), [2, 3]) == Reap(mid, [3]);
  }

  /** Two threads of one space that end before anyone reaps them: the space is destroyed twice. */
  lemma DestroyedTwice()
    ensures exists trace: seq<State>, ops: seq<Op> ::
      IsRun(trace, ops) && trace[0] == Booted(0) && trace[|trace| - 1].destroyed == [10, 10]
  {
    CreateProgram();
    RunProgram();
    StartThread();
    ExitProgram();
    ExitThread();
    ReapBoth();
    hide Next;
    var trace := [Booted(0), ProgramCreated(), ProgramRuns(), ThreadStarted(), ProgramEnded(), BothEnded(),
                  BothReaped()];
    var ops := [DoCreate(true, 5, 10, Some(1)), DoYield, DoSpawn, DoExit(0), DoExit(0), DoReap];
    assert IsRun(trace, ops);
    assert trace[|trace| - 1].destroyed == [10, 10];
  }

  // ---------------------------------------------------------------- a directory handed out again

  /** The run of a parent that forks, whose child starts a thread; both end, the thread is reaped, and the freed
      directory 11 is handed out to the next fork while the first child is still listed. */
  function ChildForked(): State {
    State(map[1 := BootTask(Ready), 2 := UserTask(Running, 10, 1, None), 3 := UserTask(Ready, 11, 2, Some(2))],
          [1, 2, 3], 2, map[1 := 1, 2 := 1], 4, map[], map[3 := 2], [], [])
  }

  function ChildRuns(): State {
    State(map[1 := BootTask(Ready), 2 := UserTask(Ready, 10, 1, None), 3 := UserTask(Running, 11, 2, Some(2))],
          [1, 2, 3], 3, map[1 := 1, 2 := 1], 4, map[], map[3 := 2], [], [])
  }

  function ChildThreaded(): State {
    State(map[1 := BootTask(Ready), 2 := UserTask(Ready, 10, 1, None), 3 := UserTask(Running, 11, 2, Some(2)),
              4 := UserTask(Ready, 11, 2, None)],
          [1, 2, 3, 4], 3, map[1 := 1, 2 := 2], 5, map[], map[3 := 2], [], [])
  }

  function ChildEnded(): State {
    State(map[1 := BootTask(Ready), 2 := UserTask(Ready, 10, 1, None), 3 := UserTask(Terminated, 11, 2, Some(2)),
              4 := UserTask(Running, 11, 2, None)],
          [1, 2, 3, 4], 4, map[1 := 1, 2 := 1], 5, map[3 := 0], map[3 := 2], [], [])
  }

  function ChildAndThreadEnded(): State {
    State(map[1 := BootTask(Running), 2 := UserTask(Ready, 10, 1, None), 3 := UserTask(Terminated, 11, 2, Some(2)),
              4 := UserTask(Terminated, 11, 2, None)],
          [1, 2, 3, 4], 1, map[1 := 1, 2 := 0], 5, map[3 := 0, 4 := 0], map[3 := 2], [], [])
  }

  function ThreadReaped(): State {
    State(map[1 := BootTask(Running), 2 := UserTask(Ready, 10, 1, None), 3 := UserTask(Terminated, 11, 2, Some(2))],
          [1, 2, 3], 1, map[1 := 1, 2 := 0], 5, map[3 := 0, 4 := 0], map[3 := 2], [], [11])
  }

  function ParentRuns(): State {
    State(map[1 := BootTask(Ready), 2 := UserTask(Running, 10, 1, None), 3 := UserTask(Terminated, 11, 2, Some(2))],
          [1, 2, 3], 2, map[1 := 1, 2 := 0], 5, map[3 := 0, 4 := 0], map[3 := 2], [], [11])
  }

  function DirectoryReused(): State {
    State(map[1 := BootTask(Ready), 2 := UserTask(Running, 10, 1, None), 3 := UserTask(Terminated, 11, 2, Some(2)),
              5 := UserTask(Ready, 11, 7, Some(2))],
          [1, 2, 5, 3], 2, map[1 := 1, 2 := 0, 7 := 1], 6, map[3 := 0, 4 := 0], map[3 := 2, 5 := 2], [], [11])
  }

  lemma ForkChild()
    ensures Next(ProgramRuns(), DoFork(11, Some(2)), ChildForked())
  {
    IndexUnique([1, 2], 1);
    assert Inserted([1, 2], 1, 3) == [1, 2, 3];
  }

  lemma RunChild()
    ensures Next(ChildForked(), DoYield, ChildRuns())
  {
    YieldTo(ChildForked(), 1, 0, 3);
  }

  lemma StartChildThread()
    ensures Next(ChildRuns(), DoSpawn, ChildThreaded())
  {
    IndexUnique([1, 2, 3], 2);
    assert Inserted([1, 2, 3], 2, 4) == [1, 2, 3, 4];
  }

  lemma ExitTo(st: State, mid: State, st': State)
    requires Steppable(st) && st.current != BOOT && mid == Ended(st, 0) && Yield(mid) == st'
    ensures Next(st, DoExit(0), st')
  {
  }

  lemma EndChild()
    ensures Ended(ChildThreaded(), 0) ==
      ChildEnded().(current := 3, tasks := ChildEnded().tasks[4 := UserTask(Ready, 11, 2, None)])
  {
    var mid := ChildEnded().(current := 3, tasks := ChildEnded().tasks[4 := UserTask(Ready, 11, 2, None)]);
    assert Ended(ChildThreaded(), 0).tasks == mid.tasks;
    assert Ended(ChildThreaded(), 0).cells == mid.cells;
    assert Ended(ChildThreaded(), 0).exits == mid.exits;
  }

  lemma LeaveChild()
    ensures Yield(ChildEnded().(current := 3, tasks := ChildEnded().tasks[4 := UserTask(Ready, 11, 2, None)])) ==
      ChildEnded()
  {
    hide Yield;
    hide IndexOf;
    var mid := ChildEnded().(current := 3, tasks := ChildEnded().tasks[4 := UserTask(Ready, 11, 2, None)]);
    YieldTo(mid, 2, 0, 4);
    assert mid.tasks[4 := UserTask(Running, 11, 2, None)] == ChildEnded().tasks;
  }

  lemma ExitChild()
    ensures Next(ChildThreaded(), DoExit(0), ChildEnded())
  {
    hide Ended;
    hide Next;
    hide Yield;
    hide Distinct;
    EndChild();
    LeaveChild();
    ExitTo(ChildThreaded(),
           ChildEnded().(current := 3, tasks := ChildEnded().tasks[4 := UserTask(Ready, 11, 2, None)]),
           ChildEnded());
  }

  lemma EndChildThread()
    ensures Ended(ChildEnded(), 0) ==
      ChildAndThreadEnded().(current := 4, tasks := ChildAndThreadEnded().tasks[1 := BootTask(Ready)])
  {
    var mid := ChildAndThreadEnded().(current := 4, tasks := ChildAndThreadEnded().tasks[1 := BootTask(Ready)]);
    assert Ended(ChildEnded(), 0).tasks == mid.tasks;
    assert Ended(ChildEnded(), 0).cells == mid.cells;
    assert Ended(ChildEnded(), 0).exits == mid.exits;
  }

  lemma LeaveChildThread()
    ensures Yield(ChildAndThreadEnded().(current := 4, tasks := ChildAndThreadEnded().tasks[1 := BootTask(Ready)])) ==
      ChildAndThreadEnded()
  {
    hide Yield;
    hide IndexOf;
    var mid := ChildAndThreadEnded().(current := 4, tasks := ChildAndThreadEnded().tasks[1 := BootTask(Ready)]);
    YieldTo(mid, 3, 0, 1);
    assert mid.tasks[1 := BootTask(Running)] == ChildAndThreadEnded().tasks;
  }

  lemma ExitChildThread()
    ensures Next(ChildEnded(), DoExit(0), ChildAndThreadEnded())
  {
    hide Ended;
    hide Next;
    hide Yield;
    hide Distinct;
    EndChildThread();
    LeaveChildThread();
    ExitTo(ChildEnded(),
           ChildAndThreadEnded().(current := 4, tasks := ChildAndThreadEnded().tasks[1 := BootTask(Ready)]),
           ChildAndThreadEnded());
  }

  lemma DropThread()
    ensures Drop(ChildAndThreadEnded(), 4) == ThreadReaped()
  {
    assert Without([1, 2, 3, 4], 4) == [1, 2, 3] by {
      assert Without([4], 4) == [];
      assert Without([3, 4], 4) == [3];
      assert Without([2, 3, 4], 4) == [2, 3];
    }
    assert ChildAndThreadEnded().tasks - {4} == ThreadReaped().tasks;
  }

  lemma ReapThread()
    ensures Reap(ChildAndThreadEnded(), Visited(ChildAndThreadEnded().ring)) == ThreadReaped()
  {
    hide Drop;
    DropThread();
    assert Visited([1, 2, 3, 4]) == [2, 3, 4];
    assert Reap(ChildAndThreadEnded(), [4]) == Reap(ThreadReaped(), []);
    assert Reap(ChildAndThreadEnded(), [3, 4]) == Reap(ChildAndThreadEnded(), [4]);
    assert Reap(ChildAndThreadEnded(), [2, 3, 4]) == Reap(ChildAndThreadEnded(), [3, 4]);
  }

  lemma ReapStep()
    ensures Next(ChildAndThreadEnded(), DoReap, ThreadReaped())
  {
    hide Reap;
    hide Visited;
    ReapThread();
  }

  lemma LeaveBoot()
    ensures Yield(ThreadReaped()) == ParentRuns()
  {
    hide Yield;
    hide IndexOf;
    YieldTo(ThreadReaped(), 0, 0, 2);
    assert ThreadReaped().tasks[1 := BootTask(Ready)][2 := UserTask(Running, 10, 1, None)] == ParentRuns().tasks;
  }

  lemma RunParent()
    ensures Next(ThreadReaped(), DoYield, ParentRuns())
  {
    hide Yield;
    LeaveBoot();
  }

  lemma ForkStale()
    ensures Next(ParentRuns(), DoFork(11, Some(7)), DirectoryReused())
    ensures Stale(ParentRuns(), 11, Some(7))
  {
    assert StaleBy(ParentRuns().tasks, 11, Some(7), 3);
    IndexUnique([1, 2, 3], 1);
    assert Inserted([1, 2, 3], 1, 5) == [1, 2, 5, 3];
  }

  lemma ParentHasEndedChild()
    ensures FirstChild(DirectoryReused().tasks, DirectoryReused().ring, 2, true) == Some(3)
      && FirstChild(DirectoryReused().tasks, DirectoryReused().ring, 2, false).Some?
  {
    var tasks := DirectoryReused().tasks;
    assert FirstChild(tasks, [5, 3], 2, true) == FirstChild(tasks, [3], 2, true) == Some(3);
    assert FirstChild(tasks, [2, 5, 3], 2, true) == Some(3);
    assert FirstChild(tasks, [2, 5, 3], 2, false) == FirstChild(tasks, [5, 3], 2, false) == Some(5);
  }

  lemma DropFirstChild()
    ensures Steppable(DirectoryReused()) && 5 in Drop(Reported(DirectoryReused(), 3), 3).tasks
    ensures Drop(Reported(DirectoryReused(), 3), 3).tasks[5] == UserTask(Ready, 11, 7, Some(2))
      && Drop(Reported(DirectoryReused(), 3), 3).destroyed == [11, 11]
  {
    hide Without;
  }

  lemma WaitDestroys()
    ensures Steppable(DirectoryReused()) && Enabled(DirectoryReused(), DoWait)
    ensures 5 in Wait(DirectoryReused()).tasks && Wait(DirectoryReused()).tasks[5] == UserTask(Ready, 11, 7, Some(2))
      && Wait(DirectoryReused()).destroyed == [11, 11]
  {
    hide Drop;
    hide FirstChild;
    hide Yield;
    ParentHasEndedChild();
    DropFirstChild();
    assert Wait(DirectoryReused()) == Drop(Reported(DirectoryReused(), 3), 3);
  }

  lemma Extend(trace: seq<State>, ops: seq<Op>, op: Op, st': State)
    requires IsRun(trace, ops) && Next(trace[|trace| - 1], op, st')
    ensures IsRun(trace + [st'], ops + [op])
  {
    hide Next;
  }

  /** The run up to the point where the freed directory 11 can be handed out again. */
  lemma UpToParent() returns (trace: seq<State>, ops: seq<Op>)
    ensures IsRun(trace, ops) && |trace| == 10 && trace[0] == Booted(0) && trace[9] == ParentRuns()
  {
    hide Next;
    hide Booted;
    hide ProgramCreated;
    hide ProgramRuns;
    hide ChildForked;
    hide ChildRuns;
    hide ChildThreaded;
    hide ChildEnded;
    hide ChildAndThreadEnded;
    hide ThreadReaped;
    hide ParentRuns;
    CreateProgram();
    RunProgram();
    ForkChild();
    RunChild();
    StartChildThread();
    ExitChild();
    ExitChildThread();
    ReapStep();
    RunParent();
    trace := [Booted(0), ProgramCreated(), ProgramRuns(), ChildForked(), ChildRuns(), ChildThreaded(), ChildEnded(),
              ChildAndThreadEnded(), ThreadReaped(), ParentRuns()];
    ops := [DoCreate(true, 5, 10, Some(1)), DoYield, DoFork(11, Some(2)), DoYield, DoSpawn, DoExit(0), DoExit(0),
            DoReap, DoYield];
  }

  /** A run whose last fork is given the stale directory 11: the wait after it destroys the address space of task 5,
      which lives. */
  lemma StaleReuseDestroysLiving()
    ensures exists trace: seq<State>, ops: seq<Op> :: EndsBadly(trace, ops, 5)
  {
    hide IsRun;
    hide Stale;
    hide Wait;
    hide Next;
    hide Booted;
    hide ParentRuns;
    hide DirectoryReused;
    hide DestroysSpaceOf;
    ForkStale();
    WaitStep();
    var first, ops := UpToParent();
    Extend(first, ops, DoFork(11, Some(7)), DirectoryReused());
    var second := first + [DirectoryReused()];
    Extend(second, ops + [DoFork(11, Some(7))], DoWait, Wait(DirectoryReused()));
    assert EndsBadly(second + [Wait(DirectoryReused())], ops + [DoFork(11, Some(7))] + [DoWait], 5);
  }

  /** A run from boot whose last step destroys the space of task s, which lives. */
  ghost predicate EndsBadly(trace: seq<State>, ops: seq<Op>, s: Tid) {
    && |trace| >= 2 && trace[0] == Booted(0) && DestroysSpaceOf(trace[|trace| - 2], trace[|trace| - 1], s)
    && IsRun(trace, ops)
  }

  predicate DestroysSpaceOf(a: State, b: State, s: Tid) { Living(a.tasks, s) && Destroys(a, b, a.tasks[s].pd) }

  lemma WaitStep()
    ensures Steppable(DirectoryReused())
    ensures Next(DirectoryReused(), DoWait, Wait(DirectoryReused()))
    ensures DestroysSpaceOf(DirectoryReused(), Wait(DirectoryReused()), 5)
  {
    hide Wait;
    WaitDestroys();
  }
}
