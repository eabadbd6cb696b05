/** What create_task, schedule and task_exit do to records and queues, outright. */
module TaskLaws {
  import opened Machine
  import opened TaskSpec

  /** create_task makes a READY task with the next pid, a slice of 10 and no runtime, at the head
      of its queue, if the priority is below 16 and every allocation succeeds. The pid is used up
      once the control block exists. Nothing else changes. */
  lemma CreateOutright<T>(s: Sched<T>, priority: nat, outcome: Outcome, id: T)
    requires Inv(s) && id !in s.tasks
    ensures var s' := CreateTask(s, priority, outcome, id);
            && s'.nextPid == (if priority < 16 && outcome != NoPcb then (s.nextPid + 1) % 0x1_0000_0000 else s.nextPid)
            && s'.current == s.current && s'.calls == s.calls
            && if priority < 16 && outcome == Created then
                 && s'.tasks == s.tasks[id := Task(s.nextPid, Ready, priority, 10, 0)]
                 && s'.queues == s.queues[priority := [id] + s.queues[priority]]
               else
                 s'.tasks == s.tasks && s'.queues == s.queues
  {}

  /** i is the highest priority with a task queued. */
  predicate Top<T>(queues: seq<seq<T>>, i: nat) {
    i < |queues| && queues[i] != [] && forall j | i < j < |queues| :: queues[j] == []
  }

  lemma TopIsHighest<T>(queues: seq<seq<T>>, i: nat)
    requires Top(queues, i)
    ensures Highest(queues, |queues|) == i
  {}

  lemma HighestIsTop<T>(queues: seq<seq<T>>)
    ensures Highest(queues, |queues|) >= 0 ==> Top(queues, Highest(queues, |queues|))
    ensures Highest(queues, |queues|) < 0 <==> forall i | 0 <= i < |queues| :: queues[i] == []
  {}

  /** A call with slice left takes the first task of the highest nonempty queue; the outgoing
      task is put nowhere. */
  lemma SliceLeft<T>(s: Sched<T>, idle: Option<T>, i: nat)
    requires Inv(s) && FreshIdle(s, idle) && s.tasks[s.current.value].slice > 1 && Top(s.queues, i)
    ensures Usable(s) && var s' := Schedule(s, idle);
            s'.current == Some(s.queues[i][0]) && s'.queues == s.queues[i := s.queues[i][1..]]
  {
    ChargeKeeps(s);
    TopIsHighest(s.queues, i);
    HeadsAreTasks(Charge(s));
  }

  /** With nothing queued a new idle task runs, or the outgoing one goes on if there is no
      memory for it. */
  lemma NothingQueued<T>(s: Sched<T>, idle: Option<T>)
    requires Inv(s) && FreshIdle(s, idle) && s.tasks[s.current.value].slice > 1
    requires forall i | 0 <= i < |s.queues| :: s.queues[i] == []
    ensures Usable(s) && var s' := Schedule(s, idle);
            && s'.queues == s.queues && s'.current == (if idle.Some? then idle else s.current)
            && (idle.Some? ==> s'.tasks[idle.value] == Task(0, Running, 0, 10, 0))
  {
    ChargeKeeps(s);
    HighestIsTop(s.queues);
    HeadsAreTasks(Charge(s));
  }

  /** When the slice runs out, the task goes to the head of its queue. It runs on if no higher
      priority is queued; else it waits there, READY. */
  lemma SliceOut<T>(s: Sched<T>, idle: Option<T>, i: nat)
    requires Inv(s) && FreshIdle(s, idle) && s.tasks[s.current.value].slice == 1
    requires Top(s.queues, i) || forall j | 0 <= j < |s.queues| :: s.queues[j] == []
    ensures Usable(s) && s.tasks[s.current.value].priority < 16
    ensures var c, s' := s.current.value, Schedule(s, idle); var p := s.tasks[c].priority;
            if Top(s.queues, i) && i > p then
              && s'.current == Some(s.queues[i][0]) && c in s'.tasks && s'.tasks[c].state == Ready
              && s'.queues == s.queues[p := [c] + s.queues[p]][i := s.queues[i][1..]]
            else
              s'.current == Some(c) && s'.queues == s.queues
  {
    ChargeKeeps(s);
    var c := s.current.value;
    var p, u := s.tasks[c].priority, Charge(s);
    assert u.queues == s.queues[p := [c] + s.queues[p]];
    HeadsAreTasks(u);
    if Top(s.queues, i) && i > p {
      TopIsHighest(u.queues, i);
      HeadIsAnother(s, i, c);
    } else {
      TopIsHighest(u.queues, p);
      assert u.queues[p][1..] == s.queues[p];
      assert u.queues[p := s.queues[p]] == s.queues;
    }
  }

  lemma HeadIsAnother<T>(s: Sched<T>, i: nat, c: T)
    requires Base(s) && i < 16 && s.queues[i] != [] && c in s.tasks && s.tasks[c].priority != i
    ensures s.queues[i][0] != c
  {
    assert QueueOk(s, i) && s.queues[i][0] in s.queues[i];
  }

  /** Records: the outgoing task gains a tick and loses one of its slice, or has a new slice of
      10 if it was the last; the task dispatched is RUNNING; every other task is as it was, and
      pids and priorities never change. */
  lemma ScheduleRecords<T>(s: Sched<T>, idle: Option<T>, x: T)
    requires Inv(s) && FreshIdle(s, idle) && x in s.tasks
    ensures Usable(s)
    ensures var c, s' := s.current.value, Schedule(s, idle); var u, m := s.tasks[x], s'.tasks;
            && x in m && m[x].pid == u.pid && m[x].priority == u.priority
            && m[x].runtime == (if x == c then (u.runtime + 1) % 0x1_0000_0000 else u.runtime)
            && m[x].slice == (if x != c then u.slice else if u.slice == 1 then 10 else u.slice - 1)
            && (s'.current == Some(x) && (x != c || u.slice == 1) ==> m[x].state == Running)
            && (s'.current != Some(x) && (x != c || u.slice > 1) ==> m[x].state == u.state)
            && (s'.current != Some(x) && x == c && u.slice == 1 ==> m[x].state == Ready)
  {
    ChargeKeeps(s);
    HeadsAreTasks(Charge(s));
    assert TaskOk(s.tasks[s.current.value]);
  }

  /** A task that exits with slice left is a zombie, and current no more if there is anything
      else to run. */
  lemma ExitedIsZombie<T>(s: Sched<T>, idle: Option<T>)
    requires Inv(s) && Off(s) && FreshIdle(s, idle) && s.tasks[s.current.value].slice > 1
    ensures Usable(MarkZombie(s))
    ensures var c, s' := s.current.value, Schedule(MarkZombie(s), idle);
            && c in s'.tasks && s'.tasks[c].state == Zombie
            && (s'.current == Some(c) <==> idle.None? && forall i | 0 <= i < |s.queues| :: s.queues[i] == [])
  {
    var c, z := s.current.value, MarkZombie(s);
    RecordKeepsBase(s, c, s.tasks[c].(state := Zombie));
    SameQueues(s, z);
    ScheduleRecords(z, idle, c);
    HighestIsTop(s.queues);
    if Highest(s.queues, |s.queues|) >= 0 {
      var i := Highest(s.queues, |s.queues|);
      SliceLeft(z, idle, i);
      assert s.queues[i][0] in s.queues[i];
    } else {
      NothingQueued(z, idle);
    }
  }

  /** sched_init leaves pid 0 of priority 0 current and queued and pid 1 of priority 5 queued,
      both READY with a slice of 10; the first call of schedule runs the latter. */
  lemma BootOutright<T>(idle: T, init: T)
    requires idle != init
    ensures var s := Booted(idle, init);
            && s.tasks == map[idle := Task(0, Ready, 0, 10, 0), init := Task(1, Ready, 5, 10, 0)]
            && |s.queues| == 16 && s.queues[0] == [idle] && s.queues[5] == [init]
            && (forall i | 0 <= i < 16 && i != 0 && i != 5 :: s.queues[i] == [])
            && s.current == Some(idle) && s.nextPid == 2
            && Usable(s) && Schedule(s, None).current == Some(init)
  {
    var s := Booted(idle, init);
    BootedKeepsInv(idle, init);
    assert Top(s.queues, 5);
    SliceLeft(s, None, 5);
  }
}
