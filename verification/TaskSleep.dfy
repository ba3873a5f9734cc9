/**
 Sleeping and waking over runs: sys_sleep, the wait for a key, task_wake and task_wake_sleepers.  A sleeper sleeps
 until its tick has come, unless something else wakes it, and the timer wakes nobody else.
 */
module TaskSleep {
  import opened TaskSpec
  import opened TaskProofs
  import opened TaskRuns
  import opened Wrappers

  /** t is blocked, with tick w in its record. */
  predicate Sleeping(st: State, t: Tid, w: nat) {
    t in st.tasks && st.tasks[t].state == Blocked && st.tasks[t].wakeTick == w
  }

  /** The step wakes t: by name, as its child that exits, or because the tick w has come. */
  predicate Rouses(st: State, op: Op, t: Tid, w: nat) {
    match op
    case DoWake(x) => x == t
    case DoExit(_) => st.current in st.tasks && st.tasks[st.current].parent == Some(t)
    case DoWakeSleepers(now) => 0 < w <= now
    case _ => false
  }

  /** A switch leaves the records of all tasks that are not ready or running alone. */
  lemma YieldAsleep(st: State, t: Tid, w: nat)
    requires st.current in st.ring && st.current in st.tasks
    ensures Sleeping(Yield(st), t, w) <==> Sleeping(st, t, w)
  {
    hide Pick;
    PickFacts(st);
  }

  lemma {:induction false} ReapAsleep(st: State, todo: seq<Tid>, t: Tid, w: nat)
    ensures Sleeping(Reap(st, todo), t, w) <==> Sleeping(st, t, w)
    decreases |todo|
  {
    if todo != [] {
      ReapAsleep(if Reapable(st, todo[0]) then Drop(st, todo[0]) else st, todo[1..], t, w);
    }
  }

  lemma WaitAsleep(st: State, t: Tid, w: nat)
    requires Inv(st) && Sleeping(st, t, w)
    ensures st.current in st.ring && st.current in st.tasks && Sleeping(Wait(st), t, w)
  {
    hide Yield;
    hide Pick;
    hide Inv;
    hide Distinct;
    hide HistoryOk;
    hide CountsOk;
    hide FamilyOk;
    InvFacts(st);
    CurrentRuns(st);
    YieldAsleep(st.(tasks := st.tasks[st.current := st.tasks[st.current].(state := Blocked, inWait := true)]), t, w);
  }

  lemma ExitAsleep(st: State, code: int, t: Tid, w: nat)
    requires Inv(st) && Sleeping(st, t, w)
    ensures Steppable(st) && (Sleeping(Exit(st, code), t, w) <==> st.tasks[st.current].parent != Some(t))
  {
    hide Yield;
    hide Pick;
    hide Inv;
    hide Distinct;
    hide HistoryOk;
    hide CountsOk;
    hide FamilyOk;
    InvFacts(st);
    CurrentRuns(st);
    YieldAsleep(Ended(st, code), t, w);
  }

  /** A sleeper stays asleep over a step exactly when the step does not wake it. */
  lemma StepAsleep(st: State, op: Op, st': State, t: Tid, w: nat)
    requires Inv(st) && Next(st, op, st') && Sleeping(st, t, w)
    ensures Sleeping(st', t, w) <==> !Rouses(st, op, t, w)
  {
    hide Yield;
    hide Reap;
    hide Wait;
    hide Exit;
    hide Inserted;
    hide Inv;
    hide Distinct;
    hide HistoryOk;
    hide CountsOk;
    hide FamilyOk;
    hide Wake;
    hide WakeSleepers;
    InvFacts(st);
    CurrentRuns(st);
    match op
    case DoYield => YieldAsleep(st, t, w);
    case DoExit(code) => ExitAsleep(st, code, t, w);
    case DoWait => WaitAsleep(st, t, w);
    case DoBlock(tick) =>
      YieldAsleep(st.(tasks := st.tasks[st.current := Sleeper(st.tasks[st.current], tick)]), t, w);
    case DoReap => ReapAsleep(st, Visited(st.ring), t, w);
    case DoWake(x) => WakeAsleep(st, x, t, w);
    case DoWakeSleepers(now) => TickAsleep(st, now, t, w);
    case _ =>
  }

  lemma WakeAsleep(st: State, x: Tid, t: Tid, w: nat)
    requires Sleeping(st, t, w)
    ensures Sleeping(Wake(st, x), t, w) <==> x != t
  {
  }

  lemma TickAsleep(st: State, now: nat, t: Tid, w: nat)
    requires Sleeping(st, t, w)
    ensures Sleeping(WakeSleepers(st, now), t, w) <==> !(0 < w <= now)
  {
  }

  /** Blocking puts the current task to sleep until its tick. */
  lemma BlockSleeps(st: State, tick: Option<nat>, st': State)
    requires Inv(st) && Next(st, DoBlock(tick), st')
    ensures st.current in st.tasks
    ensures Sleeping(st', st.current, if tick.Some? then tick.value else st.tasks[st.current].wakeTick)
  {
    hide Yield;
    hide Pick;
    InvFacts(st);
    CurrentRuns(st);
    hide Inv;
    var t := st.current;
    var w := if tick.Some? then tick.value else st.tasks[t].wakeTick;
    YieldAsleep(st.(tasks := st.tasks[t := Sleeper(st.tasks[t], tick)]), t, w);
  }

  /** The tick t sleeps until has come. */
  predicate TickCome(st: State, t: Tid, now: nat) {
    exists w: nat :: 0 < w <= now && Sleeping(st, t, w)
  }

  /** A tick makes exactly the blocked tasks ready whose own tick is set and has come, and changes nothing else. */
  lemma TickExact(st: State, now: nat, st': State, t: Tid)
    requires Next(st, DoWakeSleepers(now), st') && t in st.tasks
    ensures st' == st.(tasks := st'.tasks) && st'.tasks.Keys == st.tasks.Keys
    ensures TickCome(st, t, now) ==> st'.tasks[t].state == Ready && st'.tasks[t].wakeTick == 0
    ensures !TickCome(st, t, now) ==> st'.tasks[t] == st.tasks[t]
  {
    var w := st.tasks[t].wakeTick;
    assert st.tasks[t].state == Blocked ==> Sleeping(st, t, w);
  }

  lemma StepOfRun(trace: seq<State>, ops: seq<Op>, pd: Directory, k: nat)
    requires IsRun(trace, ops) && trace[0] == Booted(pd) && k < |ops|
    ensures Inv(trace[k]) && Next(trace[k], ops[k], trace[k + 1])
  {
    hide Inv;
    hide Booted;
    hide Next;
    EveryRun(trace, ops, pd, k);
  }

  /** Over every run: a task that blocks stays asleep exactly as long as no step wakes it. */
  lemma {:induction false} SleepsUntilRoused(trace: seq<State>, ops: seq<Op>, pd: Directory, i: nat, j: nat, t: Tid,
                                             w: nat)
    requires IsRun(trace, ops) && trace[0] == Booted(pd) && i <= j < |trace| && Sleeping(trace[i], t, w)
    ensures (forall m :: i <= m <= j ==> Sleeping(trace[m], t, w)) <==>
      (forall m :: i <= m < j ==> !Rouses(trace[m], ops[m], t, w))
    decreases j
  {
    hide Sleeping;
    hide Rouses;
    hide Booted;
    hide Inv;
    hide Next;
    if i < j {
      SleepsUntilRoused(trace, ops, pd, i, j - 1, t, w);
      StepOfRun(trace, ops, pd, j - 1);
      if Sleeping(trace[j - 1], t, w) {
        StepAsleep(trace[j - 1], ops[j - 1], trace[j], t, w);
      }
    }
  }

  /** Over every run: a task that sleeps until tick w > 0 and is woken neither by name nor by a child is still asleep
      after every tick before w, and the first tick from w on makes it ready. */
  lemma SleepsUntilTick(trace: seq<State>, ops: seq<Op>, pd: Directory, i: nat, j: nat, w: nat, now: nat)
    requires IsRun(trace, ops) && trace[0] == Booted(pd) && i < j < |ops|
    requires ops[i] == DoBlock(Some(w)) && ops[j] == DoWakeSleepers(now) && 0 < w
    requires forall m :: i < m < j ==> !Rouses(trace[m], ops[m], trace[i].current, w)
    ensures var t := trace[i].current;
            && Sleeping(trace[j], t, w) && t in trace[j + 1].tasks
            && (now < w ==> Sleeping(trace[j + 1], t, w))
            && (now >= w ==> trace[j + 1].tasks[t].state == Ready)
  {
    hide Rouses;
    hide Booted;
    hide Inv;
    hide Sleeping;
    hide Next;
    var t := trace[i].current;
    StepOfRun(trace, ops, pd, i);
    StepOfRun(trace, ops, pd, j);
    BlockSleeps(trace[i], Some(w), trace[i + 1]);
    SleepsUntilRoused(trace, ops, pd, i + 1, j, t, w);
    TickWakes(trace[j], trace[j + 1], now, t, w);
  }

  lemma TickWakes(st: State, st': State, now: nat, t: Tid, w: nat)
    requires Inv(st) && Next(st, DoWakeSleepers(now), st') && Sleeping(st, t, w)
    ensures t in st'.tasks
    ensures !(0 < w <= now) ==> Sleeping(st', t, w)
    ensures 0 < w <= now ==> st'.tasks[t].state == Ready
  {
    StepAsleep(st, DoWakeSleepers(now), st', t, w);
    TickExact(st, now, st', t);
  }

  /** Over every run: no tick wakes a task that sleeps with tick 0. */
  lemma NoTickWakes(trace: seq<State>, ops: seq<Op>, pd: Directory, i: nat, j: nat, t: Tid)
    requires IsRun(trace, ops) && trace[0] == Booted(pd) && i <= j < |trace| && Sleeping(trace[i], t, 0)
    requires forall m :: i <= m < j ==> !Rouses(trace[m], ops[m], t, 0) || ops[m].DoWakeSleepers?
    ensures Sleeping(trace[j], t, 0)
  {
    assert forall m :: i <= m < j ==> !Rouses(trace[m], ops[m], t, 0);
    SleepsUntilRoused(trace, ops, pd, i, j, t, 0);
  }

  // ---------------------------------------------------------------- how long sys_sleep sleeps

  const U32: nat := 0x1_0000_0000

  /** The ticks of sys_sleep(ms), a tick being ten milliseconds. */
  function DelayTicks(ms: nat): nat
    requires ms < U32
  {
    var d := ms * 100 % U32 / 1000;
    if d == 0 && ms > 0 then 1 else d
  }

  /** The delay is that of the request, cut to whole ticks but never to none, exactly as long as the product does not
      wrap, which is up to 42949672 milliseconds. */
  lemma DelayExact(ms: nat)
    requires ms < U32
    ensures ms <= 42949672 ==> DelayTicks(ms) == if 0 < ms < 10 then 1 else ms / 10
    ensures ms > 42949672 ==> DelayTicks(ms) < ms / 10
  {
  }
}
