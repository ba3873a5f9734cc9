/**
 The task lifecycle and the scheduler (kernel/kernel/task.c) as a step machine.  Code between two yields runs
 with interrupts off, so it is one step; reaping is one step as well.
 */
module TaskSpec {
  import opened Wrappers

  type Tid = nat
  type Cell = nat
  type Directory = nat

  datatype RunState = Running | Ready | Blocked | Terminated

  /** `inWait` says that a blocked task sleeps inside task_wait. */
  datatype Task = Task(state: RunState, priority: nat, isUser: bool, pd: Directory, cell: Option<Cell>,
                       parent: Option<Tid>, exitCode: int, wakeTick: nat, inWait: bool)

  /** What task_wait reported: the waiting task, the child's id and its exit code. */
  datatype Report = Report(parent: Tid, child: Tid, code: int)

  /** `ring` lists the tasks in link order from task_list on; `cells` are the reference counts in memory.  The
      last four fields record history: exit codes, who forked whom, what waits returned, destroyed spaces. */
  datatype State = State(tasks: map<Tid, Task>, ring: seq<Tid>, current: Tid, cells: map<Cell, int>, nextId: Tid,
                         exits: map<Tid, int>, forks: map<Tid, Tid>, reports: seq<Report>, destroyed: seq<Directory>)

  // ---------------------------------------------------------------- the ring

  predicate Distinct(s: seq<Tid>) { forall i, j :: 0 <= i < j < |s| ==> s[i] != s[j] }

  function IndexOf(s: seq<Tid>, t: Tid): (i: nat)
    requires t in s
    ensures i < |s| && s[i] == t
  {
    if s[0] == t then 0 else 1 + IndexOf(s[1..], t)
  }

  lemma IndexUnique(s: seq<Tid>, i: nat)
    requires Distinct(s) && i < |s|
    ensures IndexOf(s, s[i]) == i
  {
    var j := IndexOf(s, s[i]);
    assert s[j] == s[i];
  }

  /** The ring from the successor of position i around to position i itself. */
  function Rotated(s: seq<Tid>, i: nat): (r: seq<Tid>)
    requires i < |s|
    ensures |r| == |s|
  {
    s[i + 1..] + s[..i + 1]
  }

  function Around(st: State): seq<Tid>
    requires st.current in st.ring
  {
    Rotated(st.ring, IndexOf(st.ring, st.current))
  }

  /** A new task is linked in right behind the current one. */
  function Inserted(s: seq<Tid>, i: nat, t: Tid): seq<Tid>
    requires i < |s|
  {
    s[..i + 1] + [t] + s[i + 1..]
  }

  function Without(s: seq<Tid>, t: Tid): (r: seq<Tid>)
  {
    if s == [] then [] else if s[0] == t then Without(s[1..], t) else [s[0]] + Without(s[1..], t)
  }

  // ---------------------------------------------------------------- choosing the next task

  predicate IsReady(tasks: map<Tid, Task>, t: Tid) { t in tasks && tasks[t].state == Ready }

  /** The choice of pick_next_task after the first k candidates: a later one wins only by higher priority. */
  function Best(tasks: map<Tid, Task>, c: seq<Tid>, k: nat): (b: Option<Tid>)
    requires k <= |c|
    ensures b.Some? ==> IsReady(tasks, b.value)
  {
    if k == 0 then None else
    var b := Best(tasks, c, k - 1);
    var t := c[k - 1];
    if IsReady(tasks, t) && (b.None? || tasks[t].priority > tasks[b.value].priority) then Some(t) else b
  }

  /** It is the first of the ready tasks of highest priority. */
  lemma {:induction false} BestIsFirstHighest(tasks: map<Tid, Task>, c: seq<Tid>, k: nat)
    requires k <= |c|
    ensures Best(tasks, c, k).None? <==> forall j :: 0 <= j < k ==> !IsReady(tasks, c[j])
    ensures Best(tasks, c, k).Some? ==>
      exists i :: && 0 <= i < k && c[i] == Best(tasks, c, k).value
                  && (forall j :: 0 <= j < k && IsReady(tasks, c[j]) ==> tasks[c[j]].priority <= tasks[c[i]].priority)
                  && (forall j :: 0 <= j < i && IsReady(tasks, c[j]) ==> tasks[c[j]].priority < tasks[c[i]].priority)
  {
    if k > 0 {
      BestIsFirstHighest(tasks, c, k - 1);
      var b := Best(tasks, c, k - 1);
      if IsReady(tasks, c[k - 1]) && (b.None? || tasks[c[k - 1]].priority > tasks[b.value].priority) {
        assert Best(tasks, c, k) == Some(c[k - 1]);
      }
    }
  }

  function Pick(st: State): Option<Tid>
    requires st.current in st.ring
  {
    Best(st.tasks, Around(st), |st.ring|)
  }

  // ---------------------------------------------------------------- steps

  function SetState(tasks: map<Tid, Task>, t: Tid, s: RunState): map<Tid, Task>
    requires t in tasks
  {
    tasks[t := tasks[t].(state := s)]
  }

  /** task_yield, and scheduler_tick at the end of a quantum. */
  function Yield(st: State): State
    requires st.current in st.ring && st.current in st.tasks
  {
    var next := Pick(st);
    if next.None? || next.value == st.current then st else
    var tasks := if st.tasks[st.current].state == Running then SetState(st.tasks, st.current, Ready) else st.tasks;
    st.(tasks := SetState(tasks, next.value, Running), current := next.value)
  }

  /** Link a task built by one of the creators behind the current one. */
  function Add(st: State, task: Task): State
    requires st.current in st.ring
  {
    st.(tasks := st.tasks[st.nextId := task],
        ring := Inserted(st.ring, IndexOf(st.ring, st.current), st.nextId),
        nextId := st.nextId + 1)
  }

  /** task_fork of a user task; `cell` is None when kmalloc had no memory for the count. */
  function Fork(st: State, pd: Directory, cell: Option<Cell>): State
    requires st.current in st.ring && st.current in st.tasks
  {
    var self := st.tasks[st.current];
    if !self.isUser then st else
    var child := Task(Ready, self.priority, true, pd, cell, Some(st.current), 0, 0, false);
    var st' := Add(st, child);
    st'.(cells := if cell.Some? then st.cells[cell.value := 1] else st.cells,
         forks := st.forks[st.nextId := st.current])
  }

  /** task_create_user_thread: shares the directory and the count of the current task. */
  function Spawn(st: State): State
    requires st.current in st.ring && st.current in st.tasks
    requires st.tasks[st.current].cell.Some? ==> st.tasks[st.current].cell.value in st.cells
  {
    var self := st.tasks[st.current];
    var st' := Add(st, Task(Ready, self.priority, true, self.pd, self.cell, None, 0, 0, false));
    if self.cell.None? then st' else st'.(cells := st.cells[self.cell.value := st.cells[self.cell.value] + 1])
  }

  /** task_create_user_elf (with a count) and task_create (kernel task, no count). */
  function Create(st: State, isUser: bool, priority: nat, pd: Directory, cell: Option<Cell>): State
    requires st.current in st.ring
  {
    var st' := Add(st, Task(Ready, priority, isUser, pd, cell, None, 0, 0, false));
    st'.(cells := if cell.Some? then st.cells[cell.value := 1] else st.cells)
  }

  /** task_exit, up to and including its yield. */
  function Exit(st: State, code: int): State
    requires st.current in st.ring && st.current in st.tasks
    requires st.tasks[st.current].cell.Some? ==> st.tasks[st.current].cell.value in st.cells
  {
    var self := st.tasks[st.current];
    var tasks := st.tasks[st.current := self.(exitCode := code, state := Terminated)];
    var cells := if self.cell.Some? then st.cells[self.cell.value := st.cells[self.cell.value] - 1] else st.cells;
    var tasks' := if self.parent.Some? && self.parent.value in tasks && tasks[self.parent.value].state == Blocked
                  then SetState(tasks, self.parent.value, Ready) else tasks;
    Yield(st.(tasks := tasks', cells := cells, exits := st.exits[st.current := code]))
  }

  /** The first child of p in the list, terminated ones only if asked. */
  function FirstChild(tasks: map<Tid, Task>, s: seq<Tid>, p: Tid, terminated: bool): (r: Option<Tid>)
    ensures r.Some? ==> r.value in s && r.value in tasks && tasks[r.value].parent == Some(p)
    ensures r.Some? && terminated ==> tasks[r.value].state == Terminated
    ensures r.None? ==>
      forall t :: t in s && t in tasks && tasks[t].parent == Some(p) ==> terminated && tasks[t].state != Terminated
  {
    if s == [] then None
    else if s[0] in tasks && tasks[s[0]].parent == Some(p)
            && (terminated ==> tasks[s[0]].state == Terminated) then Some(s[0])
    else FirstChild(tasks, s[1..], p, terminated)
  }

  /** Unlink and free a terminated task; its address space goes when the count stands at zero. */
  function Drop(st: State, t: Tid): State
    requires t in st.tasks
  {
    var task := st.tasks[t];
    var last := task.cell.Some? && task.cell.value in st.cells && st.cells[task.cell.value] == 0;
    st.(tasks := st.tasks - {t}, ring := Without(st.ring, t),
        destroyed := if last then st.destroyed + [task.pd] else st.destroyed)
  }

  /** One pass of the loop of task_wait by the current task: no children, a report, or sleep. */
  function Wait(st: State): State
    requires st.current in st.ring && st.current in st.tasks
  {
    var self := st.current;
    var done := FirstChild(st.tasks, st.ring, self, true);
    if FirstChild(st.tasks, st.ring, self, false).None? then
      st.(tasks := st.tasks[self := st.tasks[self].(inWait := false)])
    else if done.Some? then
      Drop(st.(tasks := st.tasks[self := st.tasks[self].(inWait := false)],
               reports := st.reports + [Report(self, done.value, st.tasks[done.value].exitCode)]), done.value)
    else
      Yield(st.(tasks := st.tasks[self := st.tasks[self].(state := Blocked, inWait := true)]))
  }

  /** A task that blocks, until a tick or, keeping whatever tick its record holds, until it is woken. */
  function Sleeper(task: Task, tick: Option<nat>): Task {
    task.(state := Blocked, wakeTick := if tick.Some? then tick.value else task.wakeTick, inWait := false)
  }

  /** sys_sleep, with a tick, and the wait for a key. */
  function Block(st: State, tick: Option<nat>): State
    requires st.current in st.ring && st.current in st.tasks
  {
    Yield(st.(tasks := st.tasks[st.current := Sleeper(st.tasks[st.current], tick)]))
  }

  /** task_wake. */
  function Wake(st: State, t: Tid): State {
    if t in st.tasks && st.tasks[t].state == Blocked then st.(tasks := SetState(st.tasks, t, Ready)) else st
  }

  /** task_wake_sleepers. */
  function WakeSleepers(st: State, now: nat): State {
    st.(tasks := map t | t in st.tasks ::
      var task := st.tasks[t];
      if task.state == Blocked && task.wakeTick != 0 && task.wakeTick <= now
        then task.(wakeTick := 0, state := Ready) else task)
  }

  predicate Reapable(st: State, t: Tid) {
    t in st.tasks && st.tasks[t].state == Terminated && st.tasks[t].parent.None? && t != st.current
  }

  /** task_reap_terminated: the list behind the head, one task after the other. */
  function Reap(st: State, todo: seq<Tid>): State
    decreases |todo|
  {
    if todo == [] then st
    else Reap(if Reapable(st, todo[0]) then Drop(st, todo[0]) else st, todo[1..])
  }

  /** The guard of the loop in task_reap_terminated lets it visit 1024 tasks. */
  function Visited(s: seq<Tid>): seq<Tid>
    requires s != []
  {
    if |s| <= 1025 then s[1..] else s[1..1025]
  }

  datatype Op =
    | DoYield | DoFork(pd: Directory, cell: Option<Cell>) | DoSpawn
    | DoCreate(isUser: bool, priority: nat, pd: Directory, cell: Option<Cell>)
    | DoExit(code: int) | DoWait | DoBlock(tick: Option<nat>) | DoWake(t: Tid) | DoWakeSleepers(now: nat) | DoReap

  // ---------------------------------------------------------------- the invariant

  const BOOT: Tid := 1
  const PRIORITY_NORMAL: nat := 5

  /** scheduler_init. */
  function Booted(pd: Directory): State {
    State(map[BOOT := Task(Running, PRIORITY_NORMAL, false, pd, None, None, 0, 0, false)], [BOOT], BOOT, map[],
          BOOT + 1, map[], map[], [], [])
  }

  /** The ring holds every task once, the boot task at its head, and the current task. */
  ghost predicate RingOk(st: State) {
    && st.ring != [] && st.ring[0] == BOOT && Distinct(st.ring)
    && (forall t :: t in st.ring <==> t in st.tasks)
    && st.current in st.ring
    && (forall t :: t in st.tasks ==> t < st.nextId)
  }

  /** Exactly the current task is running; the boot task never blocks or ends, and shares its space by no count. */
  ghost predicate RunningOk(st: State) {
    && (forall t :: t in st.tasks ==> (st.tasks[t].state == Running <==> t == st.current))
    && BOOT in st.tasks && (st.tasks[BOOT].state == Running || st.tasks[BOOT].state == Ready)
    && st.tasks[BOOT].parent == None && st.tasks[BOOT].cell == None
  }

  predicate AsleepInWait(tasks: map<Tid, Task>, p: Tid) { p in tasks && tasks[p].state == Blocked && tasks[p].inWait }

  /** A task asleep in task_wait has no terminated child.  A parent may leave the list before its children do. */
  ghost predicate FamilyOk(st: State) {
    && (forall t :: t in st.tasks && st.tasks[t].parent.Some? ==> st.tasks[t].parent.value < st.nextId)
    && (forall t :: t in st.tasks && st.tasks[t].parent.Some? && AsleepInWait(st.tasks, st.tasks[t].parent.value) ==>
          st.tasks[t].state != Terminated)
  }

  /** The tasks a count is meant to count. */
  ghost function Holders(tasks: map<Tid, Task>, c: Cell): set<Tid> {
    set t | t in tasks && tasks[t].state != Terminated && tasks[t].cell == Some(c)
  }

  ghost predicate CountsOk(st: State) {
    && (forall t :: t in st.tasks && st.tasks[t].cell.Some? ==> st.tasks[t].cell.value in st.cells)
    && (forall t :: t in st.tasks && st.tasks[t].cell.Some? ==>
          st.cells[st.tasks[t].cell.value] == |Holders(st.tasks, st.tasks[t].cell.value)|)
  }

  /** What waits have reported: ended children, each once, with the code they ended with, to their parent. */
  ghost predicate HistoryOk(st: State) {
    && (forall t :: t in st.tasks && st.tasks[t].state == Terminated ==>
        t in st.exits && st.exits[t] == st.tasks[t].exitCode)
    && (forall t :: t in st.tasks && st.tasks[t].parent.Some? ==>
        t in st.forks && st.forks[t] == st.tasks[t].parent.value)
    && (forall i :: 0 <= i < |st.reports| ==>
          var r := st.reports[i];
          && r.child !in st.tasks && r.child < st.nextId
          && r.child in st.exits && st.exits[r.child] == r.code
          && r.child in st.forks && st.forks[r.child] == r.parent)
    && (forall i, j :: 0 <= i < j < |st.reports| ==> st.reports[i].child != st.reports[j].child)
  }

  ghost predicate Inv(st: State) { RingOk(st) && RunningOk(st) && FamilyOk(st) && CountsOk(st) && HistoryOk(st) }

  /** What a step asks of its surroundings: the boot task does not block, wait or exit, and the allocators hand out
      no directory and no count that a living task names. */
  ghost predicate Enabled(st: State, op: Op) {
    match op
    case DoFork(pd, cell) => Unused(st, pd, cell)
    case DoCreate(_, _, pd, cell) => Unused(st, pd, cell)
    case DoExit(_) => st.current != BOOT
    case DoWait => st.current != BOOT
    case DoBlock(_) => st.current != BOOT
    case _ => true
  }

  predicate Living(tasks: map<Tid, Task>, t: Tid) { t in tasks && tasks[t].state != Terminated }

  ghost predicate Unused(st: State, pd: Directory, cell: Option<Cell>) {
    forall t :: Living(st.tasks, t) ==> st.tasks[t].pd != pd && (cell.Some? ==> st.tasks[t].cell != cell)
  }

  function Step(st: State, op: Op): State
    requires st.current in st.ring && st.current in st.tasks && st.ring != []
    requires st.tasks[st.current].cell.Some? ==> st.tasks[st.current].cell.value in st.cells
  {
    match op
    case DoYield => Yield(st)
    case DoFork(pd, cell) => Fork(st, pd, cell)
    case DoSpawn => Spawn(st)
    case DoCreate(isUser, priority, pd, cell) => Create(st, isUser, priority, pd, cell)
    case DoExit(code) => Exit(st, code)
    case DoWait => Wait(st)
    case DoBlock(tick) => Block(st, tick)
    case DoWake(t) => Wake(st, t)
    case DoWakeSleepers(now) => WakeSleepers(st, now)
    case DoReap => Reap(st, Visited(st.ring))
  }
}
