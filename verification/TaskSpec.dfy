/** The multi-queue scheduler of sched.c as a transition system. T stands for the
    identity of a task. */
module TaskSpec {
  import opened Machine

  const MAX_PRIORITY := 16
  const TIME_SLICE := 10

  datatype TaskState = Running | Ready | Blocked | Zombie

  datatype Task = Task(pid: nat, state: TaskState, priority: nat, slice: nat, runtime: nat)

  /** `tasks` holds every task ever created, `queues` the ready queues by priority,
      `calls` counts the schedule calls that found a current task. */
  datatype Sched<T> = Sched(tasks: map<T, Task>, queues: seq<seq<T>>, current: Option<T>, nextPid: nat, calls: nat)

  const IDLE := Task(0, Ready, 0, TIME_SLICE, 0)

  // ---- Queues ----------------------------------------------------------------------

  function Push<T>(queues: seq<seq<T>>, i: nat, t: T): seq<seq<T>>
    requires i < |queues|
  {
    queues[i := [t] + queues[i]]
  }

  function Pop<T>(queues: seq<seq<T>>, i: nat): seq<seq<T>>
    requires i < |queues| && queues[i] != []
  {
    queues[i := queues[i][1..]]
  }

  /** Index of the highest nonempty queue among the first n, -1 if all are empty. */
  function Highest<T>(queues: seq<seq<T>>, n: nat): (i: int)
    requires n <= |queues|
    ensures -1 <= i < n && (i >= 0 ==> queues[i] != [])
    ensures forall j | i < j < n :: queues[j] == []
  {
    if n == 0 then -1 else if queues[n - 1] != [] then n - 1 else Highest(queues, n - 1)
  }

  ghost predicate Queued<T>(s: Sched<T>, t: T) {
    exists i :: 0 <= i < |s.queues| && t in s.queues[i]
  }

  /** The tasks the scheduler can still reach: the queued ones and the current one. */
  ghost predicate Known<T>(s: Sched<T>, t: T) { Queued(s, t) || s.current == Some(t) }

  // ---- Calls --------------------------------------------------------------------------

  /** The current task after it was charged one tick. */
  function Charged(t: Task): Task {
    var u := t.(runtime := (t.runtime + 1) % WORD, slice := if t.slice == 0 then WORD - 1 else t.slice - 1);
    if u.slice == 0 then u.(state := Ready, slice := TIME_SLICE) else u
  }

  predicate Expires(t: Task) { t.slice == 1 }

  /** Charging the current task, and putting it back into its queue when it expires. */
  function Charge<T>(s: Sched<T>): Sched<T>
    requires s.current.Some? && s.current.value in s.tasks && s.tasks[s.current.value].priority < |s.queues|
  {
    var c := s.current.value;
    var t := s.tasks[c];
    var u := s.(tasks := s.tasks[c := Charged(t)], calls := s.calls + 1);
    if Expires(t) then u.(queues := Push(s.queues, t.priority, c), current := None) else u
  }

  predicate HeadsIn<T>(s: Sched<T>) {
    forall i | 0 <= i < |s.queues| && s.queues[i] != [] :: s.queues[i][0] in s.tasks
  }

  /** Making the head of the highest queue current, or else a new idle task; `idle` is
      None when it cannot be allocated. */
  function Dispatch<T>(s: Sched<T>, idle: Option<T>): Sched<T>
    requires HeadsIn(s)
  {
    var i := Highest(s.queues, |s.queues|);
    if i >= 0 then
      var next := s.queues[i][0];
      s.(queues := Pop(s.queues, i), current := Some(next), tasks := s.tasks[next := s.tasks[next].(state := Running)])
    else if idle.None? then s
    else s.(current := idle, tasks := s.tasks[idle.value := IDLE.(state := Running)])
  }

  predicate Usable<T>(s: Sched<T>) {
    && |s.queues| == MAX_PRIORITY
    && (s.current.Some? ==> s.current.value in s.tasks && s.tasks[s.current.value].priority < MAX_PRIORITY)
    && HeadsIn(s)
  }

  function Schedule<T>(s: Sched<T>, idle: Option<T>): Sched<T>
    requires Usable(s)
  {
    if s.current.None? then s else Dispatch(Charge(s), idle)
  }

  /** task_exit marks the current task and calls schedule. */
  function MarkZombie<T>(s: Sched<T>): Sched<T>
    requires s.current.Some? && s.current.value in s.tasks
  {
    s.(tasks := s.tasks[s.current.value := s.tasks[s.current.value].(state := Zombie)])
  }

  /** Which allocation of create_task succeeds. */
  datatype Outcome = NoPcb | NoPageDir | NoStack | Created

  function CreateTask<T>(s: Sched<T>, priority: nat, outcome: Outcome, id: T): Sched<T>
    requires |s.queues| == MAX_PRIORITY
  {
    if priority >= MAX_PRIORITY || outcome == NoPcb then s
    else if outcome != Created then s.(nextPid := (s.nextPid + 1) % WORD)
    else
      s.(tasks := s.tasks[id := Task(s.nextPid, Ready, priority, TIME_SLICE, 0)],
         queues := Push(s.queues, priority, id), nextPid := (s.nextPid + 1) % WORD)
  }

  /** After a successful sched_init: the idle task is current and queued as well. */
  function Booted<T(==)>(idle: T, init: T): Sched<T>
  {
    var empty := seq(MAX_PRIORITY, _ => []);
    Sched(map[idle := IDLE, init := Task(1, Ready, 5, TIME_SLICE, 0)],
          empty[0 := [idle]][5 := [init]], Some(idle), 2, 0)
  }

  // ---- The invariant ---------------------------------------------------------------------

  predicate NoDup<T(==)>(q: seq<T>) { forall j, k | 0 <= j < k < |q| :: q[j] != q[k] }

  predicate TaskOk(t: Task) {
    t.priority < MAX_PRIORITY && 1 <= t.slice <= TIME_SLICE && t.runtime < WORD
  }

  /** Queue i holds tasks of priority i, each once. */
  ghost predicate QueueOk<T>(s: Sched<T>, i: nat)
    requires i < |s.queues|
  {
    && NoDup(s.queues[i])
    && forall t | t in s.queues[i] :: t in s.tasks && s.tasks[t].priority == i
  }

  ghost predicate Base<T>(s: Sched<T>) {
    && |s.queues| == MAX_PRIORITY
    && (forall i: nat | i < MAX_PRIORITY :: QueueOk(s, i))
    && (forall t | t in s.tasks :: TaskOk(s.tasks[t]))
    && s.current.Some? && s.current.value in s.tasks
  }

  /** The current task is in no queue. */
  ghost predicate Off<T>(s: Sched<T>) { s.current.Some? && !Queued(s, s.current.value) }

  /** Before the first schedule: the idle task is current and queued, with a full slice
      and a task of higher priority waiting. */
  ghost predicate Boot<T>(s: Sched<T>) {
    && s.current.Some? && s.current.value in s.tasks
    && s.tasks[s.current.value].priority == 0 && s.tasks[s.current.value].slice == TIME_SLICE
    && Highest(s.queues, |s.queues|) > 0
  }

  ghost predicate Inv<T>(s: Sched<T>) { Base(s) && (Off(s) || Boot(s)) }

  lemma ChargedOk(t: Task)
    requires TaskOk(t)
    ensures TaskOk(Charged(t)) && Charged(t).priority == t.priority
    ensures !Expires(t) ==> Charged(t).slice == t.slice - 1
  {}

  /** Changing the record of one task, but not its priority, keeps the queues well formed. */
  lemma RecordKeepsBase<T>(s: Sched<T>, c: T, u: Task)
    requires Base(s) && c in s.tasks && TaskOk(u) && u.priority == s.tasks[c].priority
    ensures Base(s.(tasks := s.tasks[c := u]))
  {
    var s' := s.(tasks := s.tasks[c := u]);
    forall i: nat | i < MAX_PRIORITY ensures QueueOk(s', i) { assert QueueOk(s, i); }
  }

  lemma PushKeepsQueues<T>(s: Sched<T>, c: T)
    requires Base(s) && c in s.tasks && !Queued(s, c)
    ensures var s' := s.(queues := Push(s.queues, s.tasks[c].priority, c));
            && (forall i: nat | i < MAX_PRIORITY :: QueueOk(s', i))
            && (forall t :: Queued(s', t) <==> Queued(s, t) || t == c)
  {
    assert TaskOk(s.tasks[c]);
    var p := s.tasks[c].priority;
    var s' := s.(queues := Push(s.queues, p, c));
    forall i: nat | i < MAX_PRIORITY ensures QueueOk(s', i) { assert QueueOk(s, i); }
    assert c in s'.queues[p];
    forall t | Queued(s, t) ensures Queued(s', t) {
      var i :| 0 <= i < |s.queues| && t in s.queues[i];
      assert t in s'.queues[i];
    }
    forall t | Queued(s', t) && t != c ensures Queued(s, t) {
      var i :| 0 <= i < |s'.queues| && t in s'.queues[i];
      assert t in s.queues[i];
    }
  }

  lemma PopKeepsQueues<T>(s: Sched<T>, i: nat)
    requires |s.queues| == MAX_PRIORITY && forall i: nat | i < MAX_PRIORITY :: QueueOk(s, i)
    requires i < MAX_PRIORITY && s.queues[i] != []
    ensures var s' := s.(queues := Pop(s.queues, i));
            && (forall j: nat | j < MAX_PRIORITY :: QueueOk(s', j))
            && (forall t :: Queued(s, t) <==> Queued(s', t) || t == s.queues[i][0])
            && !Queued(s', s.queues[i][0])
  {
    var s', h := s.(queues := Pop(s.queues, i)), s.queues[i][0];
    var tail := s.queues[i][1..];
    assert QueueOk(s, i);
    assert forall t | t in tail :: t in s.queues[i];
    forall j: nat | j < MAX_PRIORITY ensures QueueOk(s', j) { assert QueueOk(s, j); }
    forall t | Queued(s, t) && t != h ensures Queued(s', t) {
      var j :| 0 <= j < |s.queues| && t in s.queues[j];
      assert j == i ==> t in tail;
      assert t in s'.queues[j];
    }
    forall t | Queued(s', t) ensures Queued(s, t) && t != h {
      var j: nat :| j < |s'.queues| && t in s'.queues[j];
      assert t in s.queues[j];
      assert QueueOk(s, j);
    }
    assert h in s.queues[i];
  }

  /** Base without a current task: the state between charging and dispatching. */
  ghost predicate Between<T>(s: Sched<T>) {
    && |s.queues| == MAX_PRIORITY
    && (forall i: nat | i < MAX_PRIORITY :: QueueOk(s, i))
    && (forall t | t in s.tasks :: TaskOk(s.tasks[t]))
  }

  lemma HeadsAreTasks<T>(s: Sched<T>)
    requires Between(s)
    ensures HeadsIn(s)
  {
    forall i: nat | i < |s.queues| && s.queues[i] != [] ensures s.queues[i][0] in s.tasks {
      assert QueueOk(s, i) && s.queues[i][0] in s.queues[i];
    }
  }

  lemma InvIsUsable<T>(s: Sched<T>)
    requires Inv(s)
    ensures Usable(s) && s.current.Some?
  {
    HeadsAreTasks(s);
    assert TaskOk(s.tasks[s.current.value]);
  }

  /** Charging: an expired task goes back to its queue, so the same tasks are known. */
  lemma ChargeKeeps<T>(s: Sched<T>)
    requires Inv(s)
    ensures Usable(s)
    ensures var c, u := s.current.value, Charge(s);
            && Between(u) && u.tasks.Keys == s.tasks.Keys
            && if Expires(s.tasks[c]) then
                 Off(s) && u.current == None && forall t :: Queued(u, t) <==> Queued(s, t) || t == c
               else
                 u.queues == s.queues && u.current == s.current
  {
    InvIsUsable(s);
    var c := s.current.value;
    ChargedOk(s.tasks[c]);
    RecordKeepsBase(s, c, Charged(s.tasks[c]));
    var v := s.(tasks := s.tasks[c := Charged(s.tasks[c])]);
    assert forall i: nat | i < MAX_PRIORITY :: QueueOk(v, i);
    if Expires(s.tasks[c]) {
      assert !Queued(v, c);
      PushKeepsQueues(v, c);
      var u := Charge(s);
      forall i: nat | i < MAX_PRIORITY ensures QueueOk(u, i) {
        assert QueueOk(v.(queues := Push(v.queues, v.tasks[c].priority, c)), i);
      }
      SameQueues(u, v.(queues := Push(v.queues, v.tasks[c].priority, c)));
      SameQueues(s, v);
    } else {
      var u := Charge(s);
      forall i: nat | i < MAX_PRIORITY ensures QueueOk(u, i) { assert QueueOk(v, i); }
    }
  }

  lemma SameQueues<T>(a: Sched<T>, b: Sched<T>)
    requires a.queues == b.queues
    ensures forall t :: Queued(a, t) <==> Queued(b, t)
  {}

  /** Dispatching the head of the highest queue takes exactly that task out of the queues. */
  lemma DispatchHead<T>(s: Sched<T>, idle: Option<T>)
    requires Between(s) && Highest(s.queues, |s.queues|) >= 0
    ensures HeadsIn(s)
    ensures var i, d := Highest(s.queues, |s.queues|), Dispatch(s, idle);
            var next := s.queues[i][0];
            && d.current == Some(next) && next in s.tasks && s.tasks[next].priority == i
            && Base(d) && Off(d) && d.tasks.Keys == s.tasks.Keys
            && (forall t :: Queued(s, t) <==> Queued(d, t) || t == next)
            && (forall t | Queued(s, t) :: t in s.tasks && s.tasks[t].priority <= i)
  {
    HeadsAreTasks(s);
    var i := Highest(s.queues, |s.queues|);
    var next := s.queues[i][0];
    assert QueueOk(s, i) && next in s.queues[i];
    PopKeepsQueues(s, i);
    var p := s.(queues := Pop(s.queues, i), current := Some(next));
    SameQueues(p, s.(queues := Pop(s.queues, i)));
    forall j: nat | j < MAX_PRIORITY ensures QueueOk(p, j) {
      assert QueueOk(s.(queues := Pop(s.queues, i)), j);
    }
    RecordKeepsBase(p, next, s.tasks[next].(state := Running));
    SameQueues(p, Dispatch(s, idle));
    forall t | Queued(s, t) ensures t in s.tasks && s.tasks[t].priority <= i {
      var j: nat :| j < |s.queues| && t in s.queues[j];
      assert QueueOk(s, j);
    }
  }

  lemma AllEmpty<T>(s: Sched<T>)
    requires Highest(s.queues, |s.queues|) < 0
    ensures forall t :: !Queued(s, t)
  {}

  lemma DispatchIdle<T>(s: Sched<T>, f: T)
    requires Between(s) && Highest(s.queues, |s.queues|) < 0 && f !in s.tasks
    ensures HeadsIn(s)
    ensures var d := Dispatch(s, Some(f)); Base(d) && Off(d) && d.current == Some(f) && d.queues == s.queues
  {
    HeadsAreTasks(s);
    AllEmpty(s);
    var d := Dispatch(s, Some(f));
    SameQueues(s, d);
    forall i: nat | i < MAX_PRIORITY ensures QueueOk(d, i) { assert QueueOk(s, i); }
  }

  // ---- What one call of schedule does ---------------------------------------------------

  predicate Waiting<T>(s: Sched<T>) { Highest(s.queues, |s.queues|) >= 0 }

  predicate FreshIdle<T(==)>(s: Sched<T>, idle: Option<T>) { idle.Some? ==> idle.value !in s.tasks }

  /** schedule keeps the invariant, leaves a current task that is in no queue, and
      creates no task except a new idle one. */
  lemma ScheduleKeepsInv<T>(s: Sched<T>, idle: Option<T>)
    requires Inv(s) && FreshIdle(s, idle)
    ensures Usable(s) && Base(Schedule(s, idle)) && Off(Schedule(s, idle))
  {
    ChargeKeeps(s);
    var u := Charge(s);
    if Waiting(u) {
      DispatchHead(u, idle);
    } else if idle.Some? {
      DispatchIdle(u, idle.value);
    } else {
      HeadsAreTasks(u);
      AllEmpty(u);
      ExpiredWaits(s);
    }
  }

  lemma ExpiredWaits<T>(s: Sched<T>)
    requires Inv(s) && Usable(s)
    ensures Expires(s.tasks[s.current.value]) ==> Waiting(Charge(s))
  {
    if Expires(s.tasks[s.current.value]) {
      assert Charge(s).queues[s.tasks[s.current.value].priority] != [];
    }
  }

  /** Which tasks the scheduler still knows after a call. When the slice ran out: the
      same as before. When it did not: exactly those that were queued, so the outgoing
      task is lost unless it was queued too; with nothing queued, only the new idle
      task, or no change if that could not be allocated. */
  lemma KnownAfterSchedule<T>(s: Sched<T>, idle: Option<T>, t: T)
    requires Inv(s) && FreshIdle(s, idle)
    ensures Usable(s)
    ensures var s' := Schedule(s, idle);
            Known(s', t) <==>
              if Expires(s.tasks[s.current.value]) then Known(s, t)
              else if Waiting(s) then Queued(s, t)
              else if idle.Some? then t == idle.value
              else Known(s, t)
  {
    ChargeKeeps(s);
    var u := Charge(s);
    if Waiting(u) {
      DispatchHead(u, idle);
      SameQueuesIf(s, u);
    } else {
      HeadsAreTasks(u);
      AllEmpty(u);
      ExpiredWaits(s);
      AllEmpty(s);
      if idle.Some? {
        DispatchIdle(u, idle.value);
        SameQueues(u, Dispatch(u, idle));
      }
    }
  }

  lemma SameQueuesIf<T>(a: Sched<T>, b: Sched<T>)
    ensures a.queues == b.queues ==> forall t :: Queued(a, t) <==> Queued(b, t)
  {}

  /** A selected task has the highest priority queued at that moment, and an expired
      task is selected again unless a strictly higher priority is queued. */
  lemma HighestPriorityRuns<T>(s: Sched<T>, idle: Option<T>)
    requires Inv(s) && FreshIdle(s, idle)
    ensures Usable(s)
    ensures var c, s' := s.current.value, Schedule(s, idle);
            && (Expires(s.tasks[c]) || Waiting(s) ==>
                  && s'.current.Some? && s'.current.value in s.tasks
                  && forall t | Queued(s, t) :: t in s.tasks && s.tasks[t].priority <= s.tasks[s'.current.value].priority)
            && (Expires(s.tasks[c]) ==>
                  (s'.current == Some(c) <==> forall t | Queued(s, t) && t in s.tasks :: s.tasks[t].priority <= s.tasks[c].priority))
  {
    ChargeKeeps(s);
    var c, u := s.current.value, Charge(s);
    ExpiredWaits(s);
    SameQueuesIf(s, u);
    if Waiting(u) {
      DispatchHead(u, idle);
      var i := Highest(u.queues, |u.queues|);
      var next := u.queues[i][0];
      assert forall t | t in s.tasks :: u.tasks[t].priority == s.tasks[t].priority;
      if Expires(s.tasks[c]) {
        var p := s.tasks[c].priority;
        assert u.queues[p][0] == c;
        if i > p {
          assert next != c && Queued(u, next) && Queued(s, next);
        }
      }
    }
  }

  /** A task that exits stays known exactly when its slice runs out on that very call, and
      then it is queued or running again, or when nothing else is queued and no idle task
      can be allocated. */
  lemma ExitedTaskReturns<T>(s: Sched<T>, idle: Option<T>)
    requires Inv(s) && Off(s) && FreshIdle(s, idle)
    ensures Usable(MarkZombie(s))
    ensures var c, s' := s.current.value, Schedule(MarkZombie(s), idle);
            && (Known(s', c) <==> Expires(s.tasks[c]) || (!Waiting(s) && idle.None?))
            && (Expires(s.tasks[c]) ==> c in s'.tasks && s'.tasks[c].state in {Ready, Running})
  {
    var c, z := s.current.value, MarkZombie(s);
    RecordKeepsBase(s, c, s.tasks[c].(state := Zombie));
    SameQueues(s, z);
    KnownAfterSchedule(z, idle, c);
    ChargeKeeps(z);
    ExpiredWaits(z);
    if Waiting(Charge(z)) { DispatchHead(Charge(z), idle); }
  }

  // ---- Runs ------------------------------------------------------------------------------

  datatype Op<T> = DoCreate(priority: nat, outcome: Outcome, id: T) | DoSchedule(idle: Option<T>) | DoExit(idle: Option<T>)

  predicate Allowed<T(==)>(s: Sched<T>, op: Op<T>) {
    match op
    case DoCreate(_, _, id) => id !in s.tasks
    case DoSchedule(idle) => FreshIdle(s, idle)
    case DoExit(idle) => FreshIdle(s, idle)
  }

  function Step<T>(s: Sched<T>, op: Op<T>): Sched<T>
    requires Usable(s) && s.current.Some?
  {
    match op
    case DoCreate(priority, outcome, id) => CreateTask(s, priority, outcome, id)
    case DoSchedule(idle) => Schedule(s, idle)
    case DoExit(idle) => Schedule(MarkZombie(s), idle)
  }

  ghost function SumRuntime<T>(m: map<T, Task>): nat {
    if m == map[] then 0 else
      var t :| t in m;
      m[t].runtime + SumRuntime(m - {t})
  }

  lemma {:induction false} SumRuntimeRemove<T>(m: map<T, Task>, x: T)
    requires x in m
    ensures SumRuntime(m) == m[x].runtime + SumRuntime(m - {x})
    decreases |m|
  {
    var t :| t in m && SumRuntime(m) == m[t].runtime + SumRuntime(m - {t});
    if t != x {
      SumRuntimeRemove(m - {t}, x);
      SumRuntimeRemove(m - {x}, t);
      assert m - {t} - {x} == m - {x} - {t};
    }
  }

  lemma SumRuntimeUpdate<T>(m: map<T, Task>, x: T, u: Task)
    ensures x in m ==> SumRuntime(m[x := u]) == SumRuntime(m) - m[x].runtime + u.runtime && m[x].runtime <= SumRuntime(m)
    ensures x !in m ==> SumRuntime(m[x := u]) == SumRuntime(m) + u.runtime
  {
    SumRuntimeRemove(m[x := u], x);
    if x in m {
      SumRuntimeRemove(m, x);
      assert m[x := u] - {x} == m - {x};
    } else {
      assert m[x := u] - {x} == m;
    }
  }

  // ---- Accounting, with the wrap of the 32-bit counters ---------------------------------

  /** Charging the current task wraps its runtime counter. */
  predicate Wraps<T>(s: Sched<T>)
    requires Usable(s) && s.current.Some?
  {
    s.tasks[s.current.value].runtime + 1 == WORD
  }

  /** Every tick is charged to exactly one task; w counters wrapped so far. */
  ghost predicate Accounted<T>(s: Sched<T>, w: nat) { SumRuntime(s.tasks) + WORD * w == s.calls }

  lemma ChargeAccounts<T>(s: Sched<T>, w: nat)
    requires Inv(s) && Usable(s) && Accounted(s, w)
    ensures Accounted(Charge(s), if Wraps(s) then w + 1 else w)
  {
    assert TaskOk(s.tasks[s.current.value]);
    SumRuntimeUpdate(s.tasks, s.current.value, Charged(s.tasks[s.current.value]));
  }

  lemma DispatchAccounts<T>(s: Sched<T>, idle: Option<T>, w: nat)
    requires HeadsIn(s) && Accounted(s, w) && FreshIdle(s, idle)
    ensures Accounted(Dispatch(s, idle), w)
  {
    var i := Highest(s.queues, |s.queues|);
    if i >= 0 {
      var next := s.queues[i][0];
      SumRuntimeUpdate(s.tasks, next, s.tasks[next].(state := Running));
    } else if idle.Some? {
      SumRuntimeUpdate(s.tasks, idle.value, IDLE.(state := Running));
    }
  }

  /** A call adds one tick to the runtimes of all tasks ever created, less 2^32 if the
      counter of the current task wraps. */
  lemma ScheduleAccounts<T>(s: Sched<T>, idle: Option<T>, w: nat)
    requires Inv(s) && Usable(s) && Accounted(s, w) && FreshIdle(s, idle)
    ensures Accounted(Schedule(s, idle), if Wraps(s) then w + 1 else w)
    ensures Schedule(s, idle).calls == s.calls + 1
  {
    ChargeAccounts(s, w);
    ChargeKeeps(s);
    HeadsAreTasks(Charge(s));
    DispatchAccounts(Charge(s), idle, if Wraps(s) then w + 1 else w);
  }

  lemma CreateKeepsInv<T>(s: Sched<T>, priority: nat, outcome: Outcome, id: T)
    requires Inv(s) && id !in s.tasks
    ensures Inv(CreateTask(s, priority, outcome, id))
    ensures Off(s) ==> Off(CreateTask(s, priority, outcome, id))
  {
    var n := CreateTask(s, priority, outcome, id);
    if priority < MAX_PRIORITY && outcome == Created {
      var v := s.(tasks := n.tasks);
      forall i: nat | i < MAX_PRIORITY ensures QueueOk(v, i) { assert QueueOk(s, i); }
      QueuedAreTasks(s, id);
      SameQueues(s, v);
      PushKeepsQueues(v, id);
      var w := v.(queues := Push(v.queues, priority, id));
      SameQueues(w, n);
      forall i: nat | i < MAX_PRIORITY ensures QueueOk(n, i) { assert QueueOk(w, i); }
      if Boot(s) {
        assert n.queues[Highest(s.queues, |s.queues|)] != [];
      }
    } else {
      SameQueues(s, n);
      forall i: nat | i < MAX_PRIORITY ensures QueueOk(n, i) { assert QueueOk(s, i); }
    }
  }

  /** create_task adds exactly the new task, which runs next among its priority, and only
      if the priority is in range and every allocation succeeds. */
  lemma KnownAfterCreate<T>(s: Sched<T>, priority: nat, outcome: Outcome, id: T, t: T)
    requires Inv(s) && id !in s.tasks
    ensures var s' := CreateTask(s, priority, outcome, id);
            var made := priority < MAX_PRIORITY && outcome == Created;
            && (Known(s', t) <==> Known(s, t) || (made && t == id))
            && (t in s.tasks ==> t in s'.tasks && s'.tasks[t] == s.tasks[t])
            && (made ==> s'.queues[priority][0] == id && s'.tasks[id].pid == s.nextPid)
  {
    var s' := CreateTask(s, priority, outcome, id);
    if priority < MAX_PRIORITY && outcome == Created {
      assert s'.queues[priority] == [id] + s.queues[priority];
      if Queued(s, t) {
        var i :| 0 <= i < |s.queues| && t in s.queues[i];
        assert t in s'.queues[i];
      }
      if Queued(s', t) {
        var i :| 0 <= i < |s'.queues| && t in s'.queues[i];
        assert t == id || t in s.queues[i];
      }
      assert id in s'.queues[priority];
    } else {
      SameQueues(s, s');
    }
  }

  lemma QueuedAreTasks<T>(s: Sched<T>, t: T)
    requires Base(s) && t !in s.tasks
    ensures !Queued(s, t)
  {
    forall i: nat | i < |s.queues| ensures t !in s.queues[i] { assert QueueOk(s, i); }
  }

  /** The call wraps the counter of task t. */
  predicate WrapsTask<T(==)>(s: Sched<T>, op: Op<T>, t: T)
    requires Usable(s) && s.current.Some?
  {
    !op.DoCreate? && s.current.value == t && Wraps(s)
  }

  lemma StepKeepsInv<T>(s: Sched<T>, op: Op<T>)
    requires Inv(s) && Allowed(s, op)
    ensures Usable(s) && s.current.Some? && Inv(Step(s, op))
    ensures Step(s, op).calls == s.calls + if op.DoCreate? then 0 else 1
    ensures Off(s) || !op.DoCreate? ==> Off(Step(s, op))
  {
    InvIsUsable(s);
    match op
    case DoCreate(priority, outcome, id) => CreateKeepsInv(s, priority, outcome, id);
    case DoSchedule(idle) => ScheduleKeepsInv(s, idle);
    case DoExit(idle) =>
      ExitKeepsInv(s);
      ScheduleKeepsInv(MarkZombie(s), idle);
  }

  lemma StepAccounts<T>(s: Sched<T>, op: Op<T>, w: nat)
    requires Inv(s) && Usable(s) && Accounted(s, w) && Allowed(s, op)
    ensures Accounted(Step(s, op), if !op.DoCreate? && Wraps(s) then w + 1 else w)
  {
    match op
    case DoCreate(priority, outcome, id) =>
      SumRuntimeUpdate(s.tasks, id, Task(s.nextPid, Ready, priority, TIME_SLICE, 0));
    case DoSchedule(idle) => ScheduleAccounts(s, idle, w);
    case DoExit(idle) =>
      ExitKeepsInv(s);
      SumRuntimeUpdate(s.tasks, s.current.value, s.tasks[s.current.value].(state := Zombie));
      ScheduleAccounts(MarkZombie(s), idle, w);
  }

  lemma ExitKeepsInv<T>(s: Sched<T>)
    requires Inv(s)
    ensures var z := MarkZombie(s); Inv(z) && Usable(z) && Usable(s) && Wraps(z) == Wraps(s)
  {
    var c, z := s.current.value, MarkZombie(s);
    RecordKeepsBase(s, c, s.tasks[c].(state := Zombie));
    SameQueues(s, z);
    InvIsUsable(s);
    InvIsUsable(z);
  }

  ghost predicate Legal<T>(s: Sched<T>, ops: seq<Op<T>>)
    decreases |ops|
  {
    ops == [] || (Usable(s) && s.current.Some? && Allowed(s, ops[0]) && Legal(Step(s, ops[0]), ops[1..]))
  }

  ghost function Exec<T>(s: Sched<T>, ops: seq<Op<T>>): Sched<T>
    requires Legal(s, ops)
    decreases |ops|
  {
    if ops == [] then s else Exec(Step(s, ops[0]), ops[1..])
  }

  /** How many of the calls charge a tick. */
  function Ticks<T>(ops: seq<Op<T>>): nat {
    if ops == [] then 0 else (if ops[0].DoCreate? then 0 else 1) + Ticks(ops[1..])
  }

  /** How many calls of the run wrap a counter, and how many that of task t. */
  ghost function WrapCount<T>(s: Sched<T>, ops: seq<Op<T>>): nat
    requires Legal(s, ops)
    decreases |ops|
  {
    if ops == [] then 0 else (if !ops[0].DoCreate? && Wraps(s) then 1 else 0) + WrapCount(Step(s, ops[0]), ops[1..])
  }

  ghost function WrapsOf<T>(s: Sched<T>, ops: seq<Op<T>>, t: T): nat
    requires Legal(s, ops)
    decreases |ops|
  {
    if ops == [] then 0 else (if WrapsTask(s, ops[0], t) then 1 else 0) + WrapsOf(Step(s, ops[0]), ops[1..], t)
  }

  lemma {:induction false} RunKeepsInv<T>(s: Sched<T>, ops: seq<Op<T>>)
    requires Inv(s) && Legal(s, ops)
    ensures var s' := Exec(s, ops);
            && Inv(s') && s'.calls == s.calls + Ticks(ops) && (Off(s) || Ticks(ops) > 0 ==> Off(s'))
    decreases |ops|
  {
    if ops != [] {
      StepKeepsInv(s, ops[0]);
      RunKeepsInv(Step(s, ops[0]), ops[1..]);
    }
  }

  lemma {:induction false} RunAccounts<T>(s: Sched<T>, ops: seq<Op<T>>, w: nat)
    requires Inv(s) && Accounted(s, w) && Legal(s, ops)
    ensures Accounted(Exec(s, ops), w + WrapCount(s, ops))
    decreases |ops|
  {
    if ops != [] {
      StepKeepsInv(s, ops[0]);
      StepAccounts(s, ops[0], w);
      RunAccounts(Step(s, ops[0]), ops[1..], if !ops[0].DoCreate? && Wraps(s) then w + 1 else w);
    }
  }

  lemma BootedKeepsInv<T>(idle: T, init: T)
    requires idle != init
    ensures Inv(Booted(idle, init)) && Accounted(Booted(idle, init), 0)
  {
    var s := Booted(idle, init);
    forall i: nat | i < MAX_PRIORITY ensures QueueOk(s, i) {}
    assert s.queues[5] != [];
    SumRuntimeUpdate(map[idle := IDLE], init, s.tasks[init]);
    SumRuntimeUpdate(map[], idle, IDLE);
    assert map[][idle := IDLE] == map[idle := IDLE];
    assert map[idle := IDLE][init := s.tasks[init]] == s.tasks;
  }

  /** Over every run after a successful sched_init: each queue holds only tasks of its
      priority, each once; there is always a current task, and it is in no queue once
      schedule was called; every task has 1 to 10 ticks of slice left; and the runtimes
      add up to the number of calls, less 2^32 for each counter that wrapped. */
  lemma EveryRun<T>(idle: T, init: T, ops: seq<Op<T>>)
    requires idle != init && Legal(Booted(idle, init), ops)
    ensures var s := Exec(Booted(idle, init), ops);
            && Base(s) && (Ticks(ops) > 0 ==> Off(s))
            && SumRuntime(s.tasks) + WORD * WrapCount(Booted(idle, init), ops) == Ticks(ops)
            && SumRuntime(s.tasks) % WORD == Ticks(ops) % WORD
  {
    BootedKeepsInv(idle, init);
    RunKeepsInv(Booted(idle, init), ops);
    RunAccounts(Booted(idle, init), ops, 0);
  }
}
