/** Runtime and slice of a task over runs, with the wrap of the 32-bit counters. */
module TaskTicks {
  import opened Machine
  import opened TaskSpec

  /** The ticks charged so far, w wraps included, plus the slice left make whole slices. */
  predicate OnTen(runtime: nat, slice: nat, w: nat) { (runtime + slice + WORD * w) % TIME_SLICE == 0 }

  /** The wraps after charging a task whose counter wrapped w times before. */
  function WrapsAfter(t: Task, w: nat): nat { if t.runtime + 1 == WORD then w + 1 else w }

  lemma ChargedTotal(t: Task, w: nat)
    requires TaskOk(t)
    ensures var u := Charged(t);
            u.runtime + u.slice + WORD * WrapsAfter(t, w)
            == t.runtime + t.slice + WORD * w + if Expires(t) then TIME_SLICE else 0
  {
    assert WORD * (w + 1) == WORD * w + WORD;
  }

  lemma ChargedOnTen(t: Task, w: nat)
    requires TaskOk(t) && OnTen(t.runtime, t.slice, w)
    ensures OnTen(Charged(t).runtime, Charged(t).slice, WrapsAfter(t, w))
  {
    ChargedTotal(t, w);
    AddSlice(t.runtime + t.slice + WORD * w);
  }

  lemma AddSlice(x: nat)
    ensures (x + TIME_SLICE) % TIME_SLICE == x % TIME_SLICE
  {}

  /** Charging keeps runtime plus slice a multiple of ten exactly when the counter does not
      wrap. */
  lemma ChargedKeepsTens(t: Task)
    requires TaskOk(t) && (t.runtime + t.slice) % TIME_SLICE == 0
    ensures (Charged(t).runtime + Charged(t).slice) % TIME_SLICE == 0 <==> t.runtime + 1 < WORD
  {}

  /** 2^32 leaves remainder 6 modulo 10. */
  lemma TensAndWraps(x: nat, w: nat)
    requires (x + WORD * w) % TIME_SLICE == 0
    ensures x % TIME_SLICE == 0 <==> w % 5 == 0
  {
    WordTimes(w, 429496729 * w);
    SixTimes(x, w, 429496729 * w);
  }

  lemma WordTimes(w: nat, q: nat)
    requires q == 429496729 * w
    ensures WORD * w == 10 * q + 6 * w
  {}

  lemma SixTimes(x: nat, w: nat, q: nat)
    requires (x + (10 * q + 6 * w)) % 10 == 0
    ensures x % 10 == 0 <==> w % 5 == 0
  {}

  /** A call charges the current task and leaves runtime and slice of all others. */
  lemma StepCharges<T>(s: Sched<T>, op: Op<T>, t: T)
    requires Inv(s) && Usable(s) && Allowed(s, op) && t in s.tasks
    ensures var m := Step(s, op).tasks;
            var u := if !op.DoCreate? && s.current.value == t then Charged(s.tasks[t]) else s.tasks[t];
            t in m && m[t].runtime == u.runtime && m[t].slice == u.slice
  {
    HeadsAreTasks(s);
    match op
    case DoCreate(_, _, _) =>
    case DoSchedule(idle) => ScheduleCharges(s, idle, t);
    case DoExit(idle) => ScheduleCharges(MarkZombie(s), idle, t);
  }

  lemma ScheduleCharges<T>(s: Sched<T>, idle: Option<T>, t: T)
    requires Usable(s) && s.current.Some? && FreshIdle(s, idle) && t in s.tasks
    ensures var m := Schedule(s, idle).tasks;
            var u := if s.current.value == t then Charged(s.tasks[t]) else s.tasks[t];
            t in m && m[t].runtime == u.runtime && m[t].slice == u.slice
  {}

  lemma StepOnTen<T>(s: Sched<T>, op: Op<T>, t: T, w: nat)
    requires Inv(s) && Usable(s) && Allowed(s, op) && t in s.tasks && OnTen(s.tasks[t].runtime, s.tasks[t].slice, w)
    ensures t in Step(s, op).tasks
    ensures var u := Step(s, op).tasks[t]; OnTen(u.runtime, u.slice, if WrapsTask(s, op, t) then w + 1 else w)
  {
    assert TaskOk(s.tasks[t]);
    StepCharges(s, op, t);
    ChargedOnTen(s.tasks[t], w);
  }

  /** A task added by a call has a full slice and no runtime. */
  lemma NewTask<T>(s: Sched<T>, op: Op<T>, t: T)
    requires Inv(s) && Usable(s) && Allowed(s, op) && t !in s.tasks && t in Step(s, op).tasks
    ensures Step(s, op).tasks[t].runtime == 0 && Step(s, op).tasks[t].slice == TIME_SLICE
  {}

  /** Task t exists and its counter wrapped v times in all. */
  ghost predicate TensNow<T>(s: Sched<T>, t: T, v: nat) {
    t in s.tasks && OnTen(s.tasks[t].runtime, s.tasks[t].slice, v)
  }

  lemma TensNowMeans<T>(s: Sched<T>, t: T, v: nat)
    requires TensNow(s, t, v)
    ensures (s.tasks[t].runtime + s.tasks[t].slice) % TIME_SLICE == 0 <==> v % 5 == 0
  {
    TensAndWraps(s.tasks[t].runtime + s.tasks[t].slice, v);
  }

  /** A task that exists keeps the law over a run. */
  lemma {:induction false} TensOverRun<T>(s: Sched<T>, ops: seq<Op<T>>, t: T, v: nat)
    requires Inv(s) && Legal(s, ops) && TensNow(s, t, v)
    ensures TensNow(Exec(s, ops), t, v + WrapsOf(s, ops, t))
    decreases |ops|
  {
    if ops != [] {
      var op := ops[0];
      StepKeepsInv(s, op);
      StepOnTen(s, op, t, v);
      TensOverRun(Step(s, op), ops[1..], t, if WrapsTask(s, op, t) then v + 1 else v);
    }
  }

  /** And a task that comes to exist during the run has it too. */
  lemma {:induction false} TensOfNewTask<T>(s: Sched<T>, ops: seq<Op<T>>, t: T)
    requires Inv(s) && Legal(s, ops) && t !in s.tasks && t in Exec(s, ops).tasks
    ensures TensNow(Exec(s, ops), t, WrapsOf(s, ops, t))
    decreases |ops|
  {
    var op, s' := ops[0], Step(s, ops[0]);
    StepKeepsInv(s, op);
    if t in s'.tasks {
      NewTask(s, op, t);
      TensOverRun(s', ops[1..], t, 0);
    } else {
      TensOfNewTask(s', ops[1..], t);
    }
  }

  /** Over every run, runtime plus slice of a task is a multiple of ten exactly when its
      counter has wrapped a multiple of five times. */
  lemma RuntimePlusSlice<T>(idle: T, init: T, ops: seq<Op<T>>, t: T)
    requires idle != init && Legal(Booted(idle, init), ops) && t in Exec(Booted(idle, init), ops).tasks
    ensures var u := Exec(Booted(idle, init), ops).tasks[t];
            (u.runtime + u.slice) % TIME_SLICE == 0 <==> WrapsOf(Booted(idle, init), ops, t) % 5 == 0
  {
    var s := Booted(idle, init);
    BootedKeepsInv(idle, init);
    if t in s.tasks {
      TensOverRun(s, ops, t, 0);
    } else {
      TensOfNewTask(s, ops, t);
    }
    TensNowMeans(Exec(s, ops), t, WrapsOf(s, ops, t));
  }

  lemma {:induction false} WrapsAreCounted<T>(s: Sched<T>, ops: seq<Op<T>>, t: T)
    requires Legal(s, ops)
    ensures WrapsOf(s, ops, t) <= WrapCount(s, ops)
    decreases |ops|
  {
    if ops != [] { WrapsAreCounted(Step(s, ops[0]), ops[1..], t); }
  }

  lemma WordOrNothing(w: nat)
    ensures WORD * w >= WORD || w == 0
  {}

  /** No counter wraps within 2^32 calls, so up to then both laws hold as they stand. */
  lemma NoWrapYet<T>(idle: T, init: T, ops: seq<Op<T>>, t: T)
    requires idle != init && Legal(Booted(idle, init), ops) && Ticks(ops) < WORD
    ensures var m := Exec(Booted(idle, init), ops).tasks;
            && SumRuntime(m) == Ticks(ops)
            && (t in m ==> (m[t].runtime + m[t].slice) % TIME_SLICE == 0)
  {
    var s := Booted(idle, init);
    EveryRun(idle, init, ops);
    WrapsAreCounted(s, ops, t);
    WordOrNothing(WrapCount(s, ops));
    if t in Exec(s, ops).tasks { RuntimePlusSlice(idle, init, ops, t); }
  }
}
