/** What losing the outgoing task amounts to over runs: each queued task gets one turn. */
module TaskLoss {
  import opened Machine
  import opened TaskSpec

  // ---- The order in which queued tasks are taken -------------------------------------------

  /** The tasks of the first n queues, highest priority first, in queue order. */
  function Pending<T>(queues: seq<seq<T>>, n: nat): seq<T>
    requires n <= |queues|
  {
    if n == 0 then [] else queues[n - 1] + Pending(queues, n - 1)
  }

  function Waiters<T>(s: Sched<T>): seq<T> { Pending(s.queues, |s.queues|) }

  lemma {:induction false} PendingAgrees<T>(a: seq<seq<T>>, b: seq<seq<T>>, n: nat)
    requires n <= |a| && n <= |b| && forall i | 0 <= i < n :: a[i] == b[i]
    ensures Pending(a, n) == Pending(b, n)
  {
    if n > 0 { PendingAgrees(a, b, n - 1); }
  }

  lemma HeadFirst<T>(q: seq<T>, rest: seq<T>)
    requires q != []
    ensures q + rest == [q[0]] + (q[1..] + rest)
  {}

  lemma PendingPopTop<T>(queues: seq<seq<T>>, n: nat)
    requires 0 < n <= |queues| && queues[n - 1] != []
    ensures Pending(queues, n) == [queues[n - 1][0]] + Pending(Pop(queues, n - 1), n)
  {
    PendingAgrees(queues, Pop(queues, n - 1), n - 1);
    HeadFirst(queues[n - 1], Pending(queues, n - 1));
  }

  /** The head of the highest queue comes first. */
  lemma {:induction false} PendingPop<T>(queues: seq<seq<T>>, n: nat, i: nat)
    requires n <= |queues| && i == Highest(queues, n)
    ensures i < n && queues[i] != [] && Pending(queues, n) == [queues[i][0]] + Pending(Pop(queues, i), n)
  {
    if queues[n - 1] != [] {
      PendingPopTop(queues, n);
    } else {
      PendingPop(queues, n - 1, i);
      SkipEmpty(queues, n);
      SkipEmpty(Pop(queues, i), n);
    }
  }

  lemma SkipEmpty<T>(queues: seq<seq<T>>, n: nat)
    requires 0 < n <= |queues| && queues[n - 1] == []
    ensures Pending(queues, n) == Pending(queues, n - 1)
  {
    assert queues[n - 1] + Pending(queues, n - 1) == Pending(queues, n - 1);
  }

  lemma {:induction false} PendingIsQueued<T>(queues: seq<seq<T>>, n: nat, t: T)
    requires n <= |queues|
    ensures t in Pending(queues, n) <==> exists i :: 0 <= i < n && t in queues[i]
  {
    if n > 0 {
      PendingIsQueued(queues, n - 1, t);
      assert t in queues[n - 1] || t in Pending(queues, n - 1) <==> t in Pending(queues, n);
    }
  }

  lemma {:induction false} NonePending<T>(queues: seq<seq<T>>, n: nat)
    requires n <= |queues|
    ensures Highest(queues, n) < 0 <==> Pending(queues, n) == []
  {
    if n > 0 { NonePending(queues, n - 1); }
  }

  // ---- Queued tasks have nearly all of their slice -----------------------------------------

  predicate Ample(t: Task) { t.slice >= TIME_SLICE - 1 }

  /** Only the idle task of sched_init is ever queued with less than a full slice, and then
      with one tick less. */
  ghost predicate AmpleQueues<T>(s: Sched<T>) {
    forall t | t in s.tasks && Queued(s, t) :: Ample(s.tasks[t])
  }

  ghost predicate AmpleCurrent<T>(s: Sched<T>) { s.current.Some? && s.current.value in s.tasks && Ample(s.tasks[s.current.value]) }

  lemma ChargeAmple<T>(s: Sched<T>)
    requires Inv(s) && Usable(s) && AmpleQueues(s)
    ensures AmpleQueues(Charge(s))
  {
    var c, u := s.current.value, Charge(s);
    ChargeKeeps(s);
    SameQueuesIf(s, u);
    assert TaskOk(s.tasks[c]);
    forall t | t in u.tasks && Queued(u, t) ensures Ample(u.tasks[t]) {
      if t == c && !Expires(s.tasks[c]) { assert Boot(s); }
    }
  }

  /** After schedule the queues are still ample, and so is the task dispatched. */
  lemma ScheduleAmple<T>(s: Sched<T>, idle: Option<T>)
    requires Inv(s) && Usable(s) && AmpleQueues(s) && FreshIdle(s, idle)
    ensures AmpleQueues(Schedule(s, idle))
    ensures Expires(s.tasks[s.current.value]) || Waiting(s) || idle.Some? ==> AmpleCurrent(Schedule(s, idle))
  {
    ChargeKeeps(s);
    ChargeAmple(s);
    ExpiredWaits(s);
    var u := Charge(s);
    if Waiting(u) {
      DispatchHead(u, idle);
    } else if idle.Some? {
      DispatchIdle(u, idle.value);
      AllEmpty(u);
    }
  }

  lemma CreateAmple<T>(s: Sched<T>, priority: nat, outcome: Outcome, id: T)
    requires Inv(s) && AmpleQueues(s) && id !in s.tasks
    ensures AmpleQueues(CreateTask(s, priority, outcome, id))
    ensures AmpleCurrent(s) ==> AmpleCurrent(CreateTask(s, priority, outcome, id))
  {
    var n := CreateTask(s, priority, outcome, id);
    forall t | t in n.tasks && Queued(n, t) ensures Ample(n.tasks[t]) {
      var i :| 0 <= i < |n.queues| && t in n.queues[i];
      if t != id { assert t in s.queues[i]; }
    }
  }

  lemma MarkAmple<T>(s: Sched<T>)
    requires Inv(s) && AmpleQueues(s)
    ensures AmpleQueues(MarkZombie(s))
  {
    SameQueues(s, MarkZombie(s));
  }

  lemma StepAmple<T>(s: Sched<T>, op: Op<T>)
    requires Inv(s) && Usable(s) && AmpleQueues(s) && Allowed(s, op)
    ensures AmpleQueues(Step(s, op))
    ensures AmpleCurrent(s) && (op.DoCreate? || op.idle.Some?) ==> AmpleCurrent(Step(s, op))
  {
    match op
    case DoCreate(priority, outcome, id) => CreateAmple(s, priority, outcome, id);
    case DoSchedule(idle) => ScheduleAmple(s, idle);
    case DoExit(idle) =>
      ExitKeepsInv(s);
      MarkAmple(s);
      ScheduleAmple(MarkZombie(s), idle);
  }

  lemma {:induction false} RunAmple<T>(s: Sched<T>, ops: seq<Op<T>>)
    requires Inv(s) && AmpleQueues(s) && Legal(s, ops)
    ensures AmpleQueues(Exec(s, ops))
    ensures AmpleCurrent(s) && (forall op | op in ops :: op.DoCreate? || op.idle.Some?) ==> AmpleCurrent(Exec(s, ops))
    decreases |ops|
  {
    if ops != [] {
      StepKeepsInv(s, ops[0]);
      StepAmple(s, ops[0]);
      RunAmple(Step(s, ops[0]), ops[1..]);
    }
  }

  /** As long as every idle task that is needed can be allocated, no slice ever runs out: the
      current task never has fewer than nine ticks left, so it is never put back into its
      queue. */
  lemma NoSliceRunsOut<T>(idle: T, init: T, ops: seq<Op<T>>)
    requires idle != init && Legal(Booted(idle, init), ops)
    requires forall op | op in ops :: op.DoCreate? || op.idle.Some?
    ensures AmpleQueues(Exec(Booted(idle, init), ops)) && AmpleCurrent(Exec(Booted(idle, init), ops))
  {
    var s := Booted(idle, init);
    BootedKeepsInv(idle, init);
    assert AmpleQueues(s);
    RunAmple(s, ops);
  }

  // ---- One turn each ---------------------------------------------------------------------------

  /** Calls that create no task. */
  predicate NoCreate<T>(ops: seq<Op<T>>) { forall k | 0 <= k < |ops| :: !ops[k].DoCreate? }

  /** One call with slice left takes the first waiter. */
  lemma StepTakesFirst<T>(s: Sched<T>, op: Op<T>)
    requires Inv(s) && Usable(s) && AmpleQueues(s) && Allowed(s, op)
    requires !op.DoCreate? && !Expires(s.tasks[s.current.value]) && Waiters(s) != []
    ensures var s' := Step(s, op);
            && s'.current == Some(Waiters(s)[0]) && Waiters(s') == Waiters(s)[1..]
            && AmpleQueues(s') && AmpleCurrent(s')
  {
    var z := if op.DoExit? then MarkZombie(s) else s;
    ExitKeepsInv(s);
    MarkAmple(s);
    NonePending(s.queues, |s.queues|);
    PendingPop(s.queues, |s.queues|, Highest(s.queues, |s.queues|));
    ScheduleAmple(z, op.idle);
    assert Charge(z).queues == s.queues;
  }

  /** With slice left and no creation, the queued tasks become current one call each, highest
      priority first, and every task that was current before is forgotten. */
  lemma {:induction false} OneTurnEach<T>(s: Sched<T>, ops: seq<Op<T>>)
    requires Inv(s) && AmpleQueues(s) && Legal(s, ops) && NoCreate(ops)
    requires !Expires(s.tasks[s.current.value]) && |ops| <= |Waiters(s)|
    ensures var s' := Exec(s, ops);
            && Waiters(s') == Waiters(s)[|ops|..]
            && s'.current == if ops == [] then s.current else Some(Waiters(s)[|ops| - 1])
    decreases |ops|
  {
    if ops != [] {
      StepKeepsInv(s, ops[0]);
      StepTakesFirst(s, ops[0]);
      OneTurnEach(Step(s, ops[0]), ops[1..]);
    }
  }

  /** So after as many calls as tasks were queued, the scheduler knows only the last of them. */
  lemma LastOneKnown<T>(s: Sched<T>, ops: seq<Op<T>>, t: T)
    requires Inv(s) && AmpleQueues(s) && Legal(s, ops) && NoCreate(ops)
    requires !Expires(s.tasks[s.current.value]) && |ops| == |Waiters(s)| > 0
    ensures Known(Exec(s, ops), t) <==> t == Waiters(s)[|ops| - 1]
  {
    var s' := Exec(s, ops);
    OneTurnEach(s, ops);
    PendingIsQueued(s'.queues, |s'.queues|, t);
  }

  /** And after one more only the new idle task. */
  lemma OnlyIdleKnown<T>(s: Sched<T>, ops: seq<Op<T>>, idle: T, t: T)
    requires Inv(s) && AmpleQueues(s) && NoCreate(ops)
    requires Legal(s, ops) && idle !in Exec(s, ops).tasks
    requires !Expires(s.tasks[s.current.value]) && |ops| == |Waiters(s)| > 0
    ensures Usable(Exec(s, ops)) && (Known(Schedule(Exec(s, ops), Some(idle)), t) <==> t == idle)
  {
    var s' := Exec(s, ops);
    RunKeepsInv(s, ops);
    RunAmple(s, ops);
    OneTurnEach(s, ops);
    NonePending(s'.queues, |s'.queues|);
    LastIsAmple(s, ops);
    KnownAfterSchedule(s', Some(idle), t);
  }

  lemma {:induction false} LastIsAmple<T>(s: Sched<T>, ops: seq<Op<T>>)
    requires Inv(s) && AmpleQueues(s) && Legal(s, ops) && NoCreate(ops)
    requires !Expires(s.tasks[s.current.value]) && 0 < |ops| <= |Waiters(s)|
    ensures AmpleCurrent(Exec(s, ops))
    decreases |ops|
  {
    StepKeepsInv(s, ops[0]);
    StepTakesFirst(s, ops[0]);
    if |ops| > 1 { LastIsAmple(Step(s, ops[0]), ops[1..]); }
  }

  // ---- A task that exits and comes back ----------------------------------------------------

  lemma {:induction false} ExecAppends<T>(s: Sched<T>, a: seq<Op<T>>, b: seq<Op<T>>)
    requires Legal(s, a) && Legal(Exec(s, a), b)
    ensures Legal(s, a + b) && Exec(s, a + b) == Exec(Exec(s, a), b)
    decreases |a|
  {
    if a == [] {
      assert a + b == b;
    } else {
      assert (a + b)[0] == a[0] && (a + b)[1..] == a[1..] + b;
      ExecAppends(Step(s, a[0]), a[1..], b);
    }
  }

  /** k timer ticks at which no idle task can be allocated. */
  function Starved<T>(k: nat): seq<Op<T>> { if k == 0 then [] else [DoSchedule(None)] + Starved(k - 1) }

  lemma StarvedStep<T>(s: Sched<T>)
    requires Inv(s) && Usable(s) && Off(s) && Waiters(s) == [] && s.tasks[s.current.value].slice > 1
    ensures var s', c := Step(s, DoSchedule(None)), s.current.value;
            && Inv(s') && Off(s') && s'.current == s.current && s'.queues == s.queues
            && c in s'.tasks && s'.tasks[c].slice == s.tasks[c].slice - 1
  {
    NonePending(s.queues, |s.queues|);
    StepKeepsInv(s, DoSchedule(None));
    ChargeKeeps(s);
    assert !Waiting(Charge(s));
  }

  /** With nothing queued and no memory, the current task uses up its slice. */
  lemma {:induction false} SliceRunsDown<T>(s: Sched<T>, k: nat)
    requires Inv(s) && Off(s) && Waiters(s) == [] && k < s.tasks[s.current.value].slice
    ensures Legal(s, Starved(k))
    ensures var s', c := Exec(s, Starved(k)), s.current.value;
            && Inv(s') && Off(s') && s'.current == s.current && s'.queues == s.queues
            && c in s'.tasks && s'.tasks[c].slice == s.tasks[c].slice - k
    decreases k
  {
    if k > 0 {
      InvIsUsable(s);
      StarvedStep(s);
      SliceRunsDown(Step(s, DoSchedule(None)), k - 1);
      assert Starved<T>(k)[1..] == Starved(k - 1);
    }
  }

  lemma BootWaiters<T>(idle: T, init: T)
    requires idle != init
    ensures Waiters(Booted(idle, init)) == [init, idle]
  {
    var q := Booted(idle, init).queues;
    var n := |q|;
    assert q[5] == [init] && q[0] == [idle] && forall j | 0 < j < n && j != 5 :: q[j] == [];
    assert Highest(q, n) == 5;
    PendingPop(q, n, 5);
    var q1 := Pop(q, 5);
    assert q1[5] == [] && q1[0] == [idle];
    assert Highest(q1, n) == 0;
    PendingPop(q1, n, 0);
    var q2 := Pop(q1, 0);
    assert q2[0] == [];
    assert Highest(q2, n) < 0;
    NonePending(q2, n);
  }

  /** After two ticks the idle task of sched_init is current and alone. */
  lemma TwoTicks<T>(idle: T, init: T)
    requires idle != init
    ensures var s := Booted(idle, init);
            && Legal(s, Starved(2)) && Inv(Exec(s, Starved(2))) && Off(Exec(s, Starved(2)))
            && Waiters(Exec(s, Starved(2))) == [] && Exec(s, Starved(2)).current == Some(idle)
  {
    var s := Booted(idle, init);
    BootedKeepsInv(idle, init);
    BootWaiters(idle, init);
    InvIsUsable(s);
    StepKeepsInv(s, DoSchedule(None));
    InvIsUsable(Step(s, DoSchedule(None)));
    assert Starved<T>(2)[1..] == Starved(1) && Starved<T>(1)[1..] == Starved(0);
    assert Legal(Step(s, DoSchedule(None)), Starved(1));
    assert AmpleQueues(s);
    OneTurnEach(s, Starved(2));
    RunKeepsInv(s, Starved(2));
  }

  /** A run from sched_init in which a task exits and is running again afterwards. */
  lemma ExitedAndBack<T>(idle: T, init: T) returns (ops: seq<Op<T>>)
    requires idle != init
    ensures Legal(Booted(idle, init), ops) && ops != [] && ops[|ops| - 1] == DoExit(None)
    ensures var s := Exec(Booted(idle, init), ops);
            s.current == Some(idle) && idle in s.tasks && s.tasks[idle].state == Running
  {
    var s := Booted(idle, init);
    TwoTicks(idle, init);
    var s2 := Exec(s, Starved(2));
    assert TaskOk(s2.tasks[idle]);
    var k := s2.tasks[idle].slice - 1;
    SliceRunsDown(s2, k);
    ExecAppends(s, Starved(2), Starved(k));
    var s3 := Exec(s2, Starved(k));
    LastExit(s3);
    ops := Starved(2) + Starved(k) + [DoExit(None)];
    ExecAppends(s, Starved(2) + Starved(k), [DoExit(None)]);
  }

  lemma LastExit<T>(s: Sched<T>)
    requires Inv(s) && Off(s) && Waiters(s) == [] && Expires(s.tasks[s.current.value])
    ensures Legal(s, [DoExit(None)])
    ensures var s', c := Exec(s, [DoExit(None)]), s.current.value;
            s'.current == Some(c) && c in s'.tasks && s'.tasks[c].state == Running
  {
    InvIsUsable(s);
    var c, z := s.current.value, MarkZombie(s);
    ExitedTaskReturns(s, None);
    RecordKeepsBase(s, c, s.tasks[c].(state := Zombie));
    SameQueues(s, z);
    NonePending(s.queues, |s.queues|);
    AllEmpty(s);
    HighestPriorityRuns(z, None);
    assert Exec(s, [DoExit(None)]) == Schedule(z, None);
  }
}
