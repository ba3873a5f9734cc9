/** The order of the ring over every step, and the turn of a ready task of highest priority. */
module TaskSchedule {
  import opened TaskSpec
  import opened TaskProofs
  import opened TaskRuns
  import opened Wrappers

  // ---------------------------------------------------------------- ring order

  /** Tasks in both rings keep their relative order. */
  ghost predicate SameOrder(r: seq<Tid>, r': seq<Tid>) {
    forall a, b :: a in r && b in r && a in r' && b in r' ==>
      (IndexOf(r, a) < IndexOf(r, b) <==> IndexOf(r', a) < IndexOf(r', b))
  }

  lemma IndexInserted(s: seq<Tid>, i: nat, t: Tid, x: Tid)
    requires Distinct(s) && i < |s| && t !in s && x in s
    ensures x in Inserted(s, i, t)
    ensures IndexOf(Inserted(s, i, t), x) == IndexOf(s, x) + (if IndexOf(s, x) > i then 1 else 0)
  {
    InsertedFacts(s, i, t);
    var k := IndexOf(s, x);
    IndexUnique(Inserted(s, i, t), if k > i then k + 1 else k);
  }

  lemma IndexWithout(s: seq<Tid>, t: Tid, x: Tid)
    requires Distinct(s) && t in s && x in s && x != t
    ensures x in Without(s, t)
    ensures IndexOf(Without(s, t), x) == IndexOf(s, x) - (if IndexOf(s, x) > IndexOf(s, t) then 1 else 0)
    ensures |Without(s, t)| == |s| - 1
  {
    hide Without;
    hide Distinct;
    hide IndexOf;
    var i := IndexOf(s, t);
    WithoutFacts(s, t);
    WithoutCuts(s, i);
    var k := IndexOf(s, x);
    IndexUnique(Without(s, t), if k > i then k - 1 else k);
  }

  lemma WithoutOrder(s: seq<Tid>, t: Tid)
    requires Distinct(s) && t in s
    ensures SameOrder(s, Without(s, t))
  {
    WithoutFacts(s, t);
    hide Distinct;
    hide Without;
    hide IndexOf;
    forall a, b | a in s && b in s && a != t && b != t
      ensures a in Without(s, t) && b in Without(s, t)
      ensures IndexOf(s, a) < IndexOf(s, b) <==> IndexOf(Without(s, t), a) < IndexOf(Without(s, t), b)
    {
      IndexWithout(s, t, a);
      IndexWithout(s, t, b);
      if a != b { DifferentIndex(s, a, b); }
      DifferentIndex(s, a, t);
      DifferentIndex(s, b, t);
    }
  }

  lemma DifferentIndex(s: seq<Tid>, a: Tid, b: Tid)
    requires a in s && b in s && a != b
    ensures IndexOf(s, a) != IndexOf(s, b)
  {
  }

  lemma InsertedOrder(s: seq<Tid>, i: nat, t: Tid)
    requires Distinct(s) && i < |s| && t !in s
    ensures SameOrder(s, Inserted(s, i, t))
  {
    hide Distinct;
    hide IndexOf;
    hide Inserted;
    forall a, b | a in s && b in s
      ensures a in Inserted(s, i, t) && b in Inserted(s, i, t)
      ensures IndexOf(s, a) < IndexOf(s, b) <==> IndexOf(Inserted(s, i, t), a) < IndexOf(Inserted(s, i, t), b)
    {
      IndexInserted(s, i, t, a);
      IndexInserted(s, i, t, b);
      if a != b { DifferentIndex(s, a, b); }
    }
  }

  lemma OrderSelf(r: seq<Tid>)
    ensures SameOrder(r, r)
  {
  }

  lemma OrderTwice(a: seq<Tid>, b: seq<Tid>, c: seq<Tid>)
    requires SameOrder(a, b) && SameOrder(b, c) && forall t :: t in c ==> t in b
    ensures SameOrder(a, c)
  {
    hide IndexOf;
  }

  lemma {:induction false} ReapOrder(st: State, todo: seq<Tid>)
    requires Inv(st)
    ensures SameOrder(st.ring, Reap(st, todo).ring)
    ensures forall t :: t in Reap(st, todo).ring ==> t in st.ring
    decreases |todo|
  {
    hide SameOrder;
    hide Inv;
    hide Without;
    if todo == [] {
      OrderSelf(st.ring);
    } else if Reapable(st, todo[0]) {
      var mid := Drop(st, todo[0]);
      InvFacts(st);
      ReapOne(st, todo[0]);
      DropOrder(st, todo[0]);
      ReapOrder(mid, todo[1..]);
      OrderTwice(st.ring, mid.ring, Reap(st, todo).ring);
    } else {
      ReapOrder(st, todo[1..]);
    }
  }

  lemma DropOrder(st: State, t: Tid)
    requires RingOk(st) && t in st.tasks
    ensures SameOrder(st.ring, Drop(st, t).ring) && forall x :: x in Drop(st, t).ring ==> x in st.ring
  {
    hide Without;
    hide SameOrder;
    WithoutFacts(st.ring, t);
    WithoutOrder(st.ring, t);
  }

  lemma YieldRing(st: State)
    requires st.current in st.ring && st.current in st.tasks
    ensures Yield(st).ring == st.ring
  {
  }

  lemma WaitOrder(st: State)
    requires RingOk(st) && st.current in st.tasks
    ensures SameOrder(st.ring, Wait(st).ring)
  {
    hide SameOrder;
    hide Yield;
    hide Drop;
    hide Wait;
    hide Distinct;
    WaitCases(st);
    OrderSelf(st.ring);
    var done := FirstChild(st.tasks, st.ring, st.current, true);
    if FirstChild(st.tasks, st.ring, st.current, false).None? {
    } else if done.Some? {
      RingFacts(st, Reported(st, done.value));
      DropOrder(Reported(st, done.value), done.value);
    } else {
      YieldRing(Asleep(st));
    }
  }

  /** Every step keeps all tasks that stay on the list in order. */
  lemma StepOrder(st: State, op: Op, st': State)
    requires Inv(st) && Next(st, op, st')
    ensures SameOrder(st.ring, st'.ring)
  {
    hide Inv;
    hide RunningOk;
    hide FamilyOk;
    hide CountsOk;
    hide HistoryOk;
    hide SameOrder;
    hide Yield;
    hide Reap;
    hide Drop;
    hide Inserted;
    hide IndexOf;
    hide Wait;
    InvFacts(st);
    OrderSelf(st.ring);
    match op
    case DoReap => ReapOrder(st, Visited(st.ring));
    case DoWait => WaitOrder(st);
    case DoYield => YieldRing(st);
    case DoExit(code) => YieldRing(Ended(st, code));
    case DoBlock(tick) =>
      YieldRing(WithSelf(st, Sleeper(st.tasks[st.current], tick)));
    case DoFork(_, _) => AddOrder(st);
    case DoSpawn => AddOrder(st);
    case DoCreate(_, _, _, _) => AddOrder(st);
    case _ =>
  }

  lemma RingFacts(st: State, st': State)
    requires RingOk(st) && st'.ring == st.ring && st'.current == st.current && st'.nextId == st.nextId
    requires st'.tasks.Keys == st.tasks.Keys
    ensures RingOk(st')
  {
    hide Distinct;
    assert forall t :: t in st'.tasks <==> t in st.tasks;
  }

  lemma AddOrder(st: State)
    requires RingOk(st)
    ensures SameOrder(st.ring, Inserted(st.ring, IndexOf(st.ring, st.current), st.nextId))
  {
    InsertedOrder(st.ring, IndexOf(st.ring, st.current), st.nextId);
  }

  // ---------------------------------------------------------------- the turn of a ready task

  /** How many links lead from the current task to t. */
  function Distance(st: State, t: Tid): (d: nat)
    requires st.current in st.ring && t in st.ring
    ensures d <= |st.ring|
  {
    var a, b := IndexOf(st.ring, st.current), IndexOf(st.ring, t);
    if b > a then b - a else b + |st.ring| - a
  }

  /** t is ready, and no listed task has a higher priority. */
  ghost predicate Due(st: State, t: Tid) {
    && IsReady(st.tasks, t) && t in st.ring && st.current in st.ring && st.current in st.tasks
    && forall s :: s in st.tasks ==> st.tasks[s].priority <= st.tasks[t].priority
  }

  lemma AroundAt(st: State, t: Tid)
    requires st.current in st.ring && t in st.ring
    ensures 1 <= Distance(st, t) && |Around(st)| == |st.ring| && Around(st)[Distance(st, t) - 1] == t
  {
  }

  lemma DistanceOf(st: State, k: nat)
    requires Distinct(st.ring) && st.current in st.ring && k < |st.ring|
    ensures Around(st)[k] in st.ring && Distance(st, Around(st)[k]) == k + 1
  {
    var a := IndexOf(st.ring, st.current);
    IndexUnique(st.ring, if a + 1 + k < |st.ring| then a + 1 + k else a + 1 + k - |st.ring|);
  }

  /** A yield goes to t or strictly nearer to it. */
  lemma YieldProgress(st: State, t: Tid)
    requires Distinct(st.ring) && Due(st, t)
    ensures Yield(st).ring == st.ring && Yield(st).current in st.ring
    ensures t != st.current && Yield(st).current != t ==> Distance(Yield(st), t) < Distance(st, t)
  {
    PickNear(st, t);
    hide Pick;
    hide Distinct;
    hide IndexOf;
    var p := Pick(st).value;
    if p != t {
      NearerBy(st, Yield(st), p, t);
    }
  }

  lemma PickNear(st: State, t: Tid)
    requires Distinct(st.ring) && Due(st, t)
    ensures Pick(st).Some? && Pick(st).value in st.ring && Distance(st, Pick(st).value) <= Distance(st, t)
  {
    var c := Around(st);
    AroundAt(st, t);
    BestIsFirstHighest(st.tasks, c, |c|);
    var i :| && 0 <= i < |c| && c[i] == Best(st.tasks, c, |c|).value
             && (forall j :: 0 <= j < i && IsReady(st.tasks, c[j]) ==>
                 st.tasks[c[j]].priority < st.tasks[c[i]].priority);
    DistanceOf(st, i);
  }

  lemma NearerBy(st: State, st': State, p: Tid, t: Tid)
    requires Distinct(st.ring) && st.current in st.ring && p in st.ring && t in st.ring && p != t
    requires Distance(st, p) <= Distance(st, t)
    requires st'.ring == st.ring && st'.current == p
    ensures Distance(st', t) < Distance(st, t)
  {
    DifferentIndex(st.ring, p, t);
  }

  /** Unlinking another task never moves t away. */
  lemma DropDistance(st: State, x: Tid, t: Tid)
    requires Distinct(st.ring) && st.current in st.ring && t in st.ring && x in st.ring && x in st.tasks
    requires x != t && x != st.current && t != st.current
    ensures st.current in Drop(st, x).ring && t in Drop(st, x).ring
    ensures Distance(Drop(st, x), t) <= Distance(st, t)
  {
    IndexWithout(st.ring, x, t);
    IndexWithout(st.ring, x, st.current);
    DifferentIndex(st.ring, x, t);
    DifferentIndex(st.ring, x, st.current);
    DifferentIndex(st.ring, t, st.current);
  }

  /** t has its turn, or is still due, no farther away, and nearer if another task was switched to. */
  ghost predicate Onward(st: State, st': State, t: Tid)
    requires Due(st, t)
  {
    || st'.current == t
    || (&& Due(st', t) && Distance(st', t) <= Distance(st, t)
        && (st'.current != st.current ==> Distance(st', t) < Distance(st, t)))
  }

  lemma YieldOnward(st: State, t: Tid)
    requires Distinct(st.ring) && Due(st, t) && t != st.current
    ensures Onward(st, Yield(st), t)
  {
    hide Distinct;
    YieldProgress(st, t);
    hide Distance;
    YieldDue(st, t);
    YieldKept(st, t);
    hide Yield;
    hide Kept;
  }

  lemma YieldDue(st: State, t: Tid)
    requires Due(st, t) && t != st.current
    ensures Yield(st).current == t || Due(Yield(st), t)
    ensures Yield(st).current == st.current ==> Yield(st) == st
  {
    hide Pick;
    PickFacts(st);
  }

  /** The tasks change in ways that leave t due, the ring and the current task alone. */
  ghost predicate Besides(st: State, mid: State, t: Tid) {
    && mid.ring == st.ring && mid.current == st.current && mid.tasks.Keys == st.tasks.Keys
    && t in st.tasks && mid.tasks[t].state == st.tasks[t].state
    && forall s :: s in st.tasks ==> mid.tasks[s].priority == st.tasks[s].priority
  }

  lemma SelfBesides(st: State, x: Task, t: Tid)
    requires st.current in st.tasks && t in st.tasks && t != st.current && x.priority == st.tasks[st.current].priority
    ensures Besides(st, WithSelf(st, x), t)
  {
  }

  lemma WokenBesides(st: State, st': State, t: Tid)
    requires Woken(st, st') && t in st.tasks && st.tasks[t].state == Ready
    ensures Besides(st, st', t)
  {
  }

  lemma BesidesDue(st: State, mid: State, t: Tid)
    requires Due(st, t) && Besides(st, mid, t)
    ensures Due(mid, t) && Distance(mid, t) == Distance(st, t)
  {
    assert forall s :: s in mid.tasks <==> s in st.tasks;
  }

  lemma BesidesThenYield(st: State, mid: State, t: Tid)
    requires Distinct(st.ring) && Due(st, t) && t != st.current && Besides(st, mid, t)
    ensures mid.current in mid.ring && mid.current in mid.tasks
    ensures Onward(st, Yield(mid), t)
  {
    hide Distinct;
    hide Distance;
    hide Yield;
    BesidesDue(st, mid, t);
    hide Due;
    YieldOnward(mid, t);
  }

  lemma DropOnward(st: State, x: Tid, t: Tid)
    requires RingOk(st) && Due(st, t) && t != st.current && x in st.tasks && x != st.current && x != t
    ensures Due(Drop(st, x), t) && Distance(Drop(st, x), t) <= Distance(st, t) && Drop(st, x).current == st.current
  {
    hide Distinct;
    DropDistance(st, x, t);
  }

  lemma {:induction false} ReapOnward(st: State, todo: seq<Tid>, t: Tid)
    requires Inv(st) && Due(st, t)
    ensures Onward(st, Reap(st, todo), t) && Reap(st, todo).current == st.current
    decreases |todo|
  {
    hide Inv;
    hide Due;
    hide Distance;
    hide Drop;
    if todo != [] {
      if Reapable(st, todo[0]) {
        InvFacts(st);
        hide RingOk;
        hide FamilyOk;
        hide CountsOk;
        hide HistoryOk;
        DueNotDead(st, t, todo[0]);
        ReapOne(st, todo[0]);
        DropOnward(st, todo[0], t);
        ReapOnward(Drop(st, todo[0]), todo[1..], t);
      } else {
        ReapOnward(st, todo[1..], t);
      }
    }
  }

  lemma DueNotDead(st: State, t: Tid, x: Tid)
    requires RunningOk(st) && Due(st, t)
    ensures t != st.current && (x in st.tasks && st.tasks[x].state == Terminated ==> x != t)
  {
  }

  lemma ReportOnward(st: State, child: Tid, t: Tid)
    requires RingOk(st) && RunningOk(st) && Due(st, t)
    requires st.current in st.tasks && child in st.tasks && st.tasks[child].state == Terminated
    ensures Onward(st, Drop(Reported(st, child), child), t)
  {
    hide Distinct;
    hide RingOk;
    hide Drop;
    hide Distance;
    var mid := Reported(st, child);
    DueNotDead(st, t, child);
    assert Besides(st, mid, t);
    assert mid.current != child;
    hide Due;
    BesidesDue(st, mid, t);
    RingFacts(st, mid);
    DropOnward(mid, child, t);
  }

  lemma WaitOnward(st: State, t: Tid)
    requires Inv(st) && Due(st, t)
    ensures Steppable(st) && Onward(st, Wait(st), t)
  {
    hide Inv;
    hide Wait;
    hide FamilyOk;
    hide CountsOk;
    hide HistoryOk;
    hide Distinct;
    hide Yield;
    hide Drop;
    hide Distance;
    InvFacts(st);
    DueNotDead(st, t, st.current);
    hide RunningOk;
    WaitCases(st);
    var done := FirstChild(st.tasks, st.ring, st.current, true);
    if FirstChild(st.tasks, st.ring, st.current, false).None? {
      SelfBesides(st, st.tasks[st.current].(inWait := false), t);
      BesidesDue(st, NoLongerWaiting(st), t);
    } else if done.Some? {
      ReportOnward(st, done.value, t);
    } else {
      SelfBesides(st, st.tasks[st.current].(state := Blocked, inWait := true), t);
      BesidesThenYield(st, Asleep(st), t);
    }
  }

  lemma ExitOnward(st: State, code: int, t: Tid)
    requires Inv(st) && Due(st, t)
    ensures Steppable(st) && Onward(st, Exit(st, code), t)
  {
    hide Inv;
    hide FamilyOk;
    hide CountsOk;
    hide HistoryOk;
    hide Distinct;
    hide Yield;
    hide Distance;
    InvFacts(st);
    DueNotDead(st, t, st.current);
    BesidesThenYield(st, Ended(st, code), t);
  }

  predicate Arrival(op: Op) { op.DoFork? || op.DoSpawn? || op.DoCreate? }

  lemma StepOnward(st: State, op: Op, st': State, t: Tid)
    requires Inv(st) && Next(st, op, st') && Due(st, t) && !Arrival(op)
    ensures Onward(st, st', t)
  {
    hide Inv;
    hide FamilyOk;
    hide CountsOk;
    hide HistoryOk;
    hide Distinct;
    hide Yield;
    hide Exit;
    hide Wait;
    hide Reap;
    hide Wake;
    hide WakeSleepers;
    hide Woken;
    hide Besides;
    hide Distance;
    InvFacts(st);
    DueNotDead(st, t, st.current);
    match op
    case DoYield => YieldOnward(st, t);
    case DoExit(code) => ExitOnward(st, code, t);
    case DoWait => WaitOnward(st, t);
    case DoBlock(tick) =>
      var x := Sleeper(st.tasks[st.current], tick);
      SelfBesides(st, x, t);
      BesidesThenYield(st, WithSelf(st, x), t);
    case DoReap => ReapOnward(st, Visited(st.ring), t);
    case DoWake(w) =>
      WakeWoken(st, w);
      WokenBesides(st, st', t);
      BesidesDue(st, st', t);
    case DoWakeSleepers(now) =>
      SleepersWoken(st, now);
      WokenBesides(st, st', t);
      BesidesDue(st, st', t);
  }

  /** The number of switches among the first k steps of a run. */
  function Switches(trace: seq<State>, k: nat): nat
    requires k < |trace|
  {
    if k == 0 then 0 else Switches(trace, k - 1) + (if trace[k].current != trace[k - 1].current then 1 else 0)
  }

  /** With no new arrivals, a task that is due at distance d gets its turn within d switches. */
  lemma RunsWithin(trace: seq<State>, ops: seq<Op>, k: nat, t: Tid)
    requires IsRun(trace, ops) && Inv(trace[0]) && Due(trace[0], t) && k < |trace|
    requires forall i :: 0 <= i < |ops| ==> !Arrival(ops[i])
    requires Switches(trace, k) >= Distance(trace[0], t)
    ensures exists i :: 0 <= i <= k && trace[i].current == t
  {
    if forall i :: 0 <= i <= k ==> trace[i].current != t {
      Approaches(trace, ops, k, t);
      AroundAt(trace[k], t);
    }
  }

  lemma {:induction false} Approaches(trace: seq<State>, ops: seq<Op>, k: nat, t: Tid)
    requires IsRun(trace, ops) && Inv(trace[0]) && Due(trace[0], t) && k < |trace|
    requires forall i :: 0 <= i < |ops| ==> !Arrival(ops[i])
    requires forall i :: 0 <= i <= k ==> trace[i].current != t
    ensures Inv(trace[k]) && Due(trace[k], t)
    ensures Distance(trace[k], t) + Switches(trace, k) <= Distance(trace[0], t)
  {
    hide Inv;
    hide Due;
    hide Distance;
    hide Next;
    if k > 0 {
      Approaches(trace, ops, k - 1, t);
      assert Next(trace[k - 1], ops[k - 1], trace[k - 1 + 1]);
      StepOnward(trace[k - 1], ops[k - 1], trace[k], t);
      NextKeeps(trace[k - 1], ops[k - 1], trace[k]);
    }
  }

  lemma NextKeeps(st: State, op: Op, st': State)
    requires Inv(st) && Next(st, op, st')
    ensures Inv(st')
  {
    hide Inv;
    hide Step;
    hide Enabled;
    StepKeeps(st, op);
  }
}
