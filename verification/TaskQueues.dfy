/** The ready queues as linked lists of tasks, updated in place. */
module TaskQueues {
  import opened Machine
  import opened TaskSpec

  /** What the heap gives a new task: its page directory and the top of its stack. */
  datatype Memory = Memory(pageDir: Word, stackTop: Word)

  /** The fields set once at creation are constants; task blocks are never freed. */
  class TaskBlock {
    var pid: nat
    var state: TaskState
    var priority: nat
    var timeSlice: nat
    var totalRuntime: nat
    var name: string
    var siblingNext: TaskBlock?
    const parent: TaskBlock?
    const pageDir: Word
    const kernelStackTop: Word
    const userStackTop: Word

    constructor (pid: nat, priority: nat, name: string, parent: TaskBlock?, memory: Memory)
      ensures Record(this) == Task(pid, Ready, priority, TIME_SLICE, 0)
      ensures this.name == name && siblingNext == null && this.parent == parent
      ensures pageDir == memory.pageDir && kernelStackTop == memory.stackTop && userStackTop == 0
    {
      this.pid, this.state, this.priority := pid, Ready, priority;
      timeSlice, totalRuntime, siblingNext := TIME_SLICE, 0, null;
      this.name, this.parent := name, parent;
      pageDir, kernelStackTop, userStackTop := memory.pageDir, memory.stackTop, 0;
    }
  }

  ghost function Record(t: TaskBlock): Task
    reads t
  {
    Task(t.pid, t.state, t.priority, t.timeSlice, t.totalRuntime)
  }

  /** `head` starts the linked list of the tasks of q. */
  ghost predicate IsList(head: TaskBlock?, q: seq<TaskBlock>)
    reads q
  {
    && head == (if q == [] then null else q[0])
    && forall k {:trigger q[k]} | 0 <= k < |q| :: q[k].siblingNext == if k + 1 < |q| then q[k + 1] else null
  }

  ghost function AsOption(t: TaskBlock?): Option<TaskBlock> {
    if t == null then None else var u: TaskBlock := t; Some(u)
  }

  class Scheduler {
    const readyQueue: array<TaskBlock?>
    var currentTask: TaskBlock?
    var nextPid: nat
    var systemTicks: nat
    /** The state the queues and tasks hold. */
    ghost var s: Sched<TaskBlock>

    ghost predicate ListOk(i: nat)
      requires i < readyQueue.Length && i < |s.queues|
      reads this`s, readyQueue, s.queues[i]
    {
      IsList(readyQueue[i], s.queues[i])
    }

    /** The fields hold the state s. */
    ghost predicate Holds()
      reads this`s, this`currentTask, this`nextPid, readyQueue, s.tasks.Keys
    {
      && readyQueue.Length == |s.queues| == MAX_PRIORITY
      && (forall t {:trigger s.tasks[t]} | t in s.tasks :: Record(t) == s.tasks[t])
      && (forall i: nat | i < MAX_PRIORITY :: QueueOk(s, i))
      && (forall i: nat {:trigger ListOk(i)} | i < MAX_PRIORITY :: QueueOk(s, i) && ListOk(i))
      && s.current == AsOption(currentTask)
      && nextPid == s.nextPid
    }

    ghost predicate Valid()
      reads this`s, this`currentTask, this`nextPid, readyQueue, s.tasks.Keys
    {
      Holds() && Inv(s)
    }

    /** A successful `sched_init`. */
    constructor Init(idleMemory: Memory, initMemory: Memory)
      ensures Valid() && fresh(readyQueue) && fresh(s.tasks.Keys)
      ensures exists idle, init :: idle != init && s == Booted(idle, init)
    {
      var idle := new TaskBlock(0, 0, "idle", null, idleMemory);
      var init := new TaskBlock(1, 5, "init", null, initMemory);
      readyQueue := new TaskBlock?[MAX_PRIORITY](_ => null);
      currentTask, nextPid, systemTicks := idle, 2, 0;
      s := Booted(idle, init);
      new;
      readyQueue[0] := idle;
      readyQueue[5] := init;
      BootedKeepsInv(idle, init);
      forall i: nat | i < MAX_PRIORITY ensures QueueOk(s, i) && ListOk(i) {}
    }

    /** task->sibling_next = ready_queue[p]; ready_queue[p] = task. */
    method Enqueue(task: TaskBlock)
      requires Holds() && task in s.tasks && s.tasks[task].priority < MAX_PRIORITY && !Queued(s, task)
      modifies this`s, readyQueue, task`siblingNext
      ensures s == old(s).(queues := Push(old(s).queues, old(s).tasks[task].priority, task))
      ensures Holds()
    {
      ghost var s0, p := s, s.tasks[task].priority;
      assert ListOk(p);
      assert task.priority == p;
      task.siblingNext := readyQueue[task.priority];
      readyQueue[task.priority] := task;
      s := s.(queues := Push(s.queues, p, task));
      forall i: nat | i < MAX_PRIORITY ensures QueueOk(s, i) && ListOk(i) {
        assert old(ListOk(i)) && QueueOk(s0, i);
        assert task !in s0.queues[i];
      }
    }

    method SetRecord(task: TaskBlock, ghost u: Task, state: TaskState, slice: nat, runtime: nat)
      requires Holds() && task in s.tasks
      requires u == s.tasks[task].(state := state, slice := slice, runtime := runtime)
      modifies this`s, task`state, task`timeSlice, task`totalRuntime
      ensures s == old(s).(tasks := old(s).tasks[task := u]) && s.tasks.Keys == old(s).tasks.Keys
      ensures Holds()
    {
      ghost var s0 := s;
      task.state, task.timeSlice, task.totalRuntime := state, slice, runtime;
      s := s.(tasks := s.tasks[task := u]);
      assert s.tasks.Keys == s0.tasks.Keys;
      forall t | t in s.tasks ensures Record(t) == s.tasks[t] {
        assert old(Record(t)) == s0.tasks[t];
      }
      forall i: nat | i < MAX_PRIORITY ensures QueueOk(s, i) && ListOk(i) {
        assert old(ListOk(i)) && QueueOk(s0, i);
      }
    }

    /** Charges the current task one tick and requeues it when its slice ran out. */
    method ChargeCurrent()
      requires Holds() && Usable(s) && s.current.Some?
      requires Expires(s.tasks[s.current.value]) ==> Off(s)
      modifies this`s, this`currentTask, readyQueue, s.tasks.Keys
      ensures Holds() && s == Charge(old(s)) && s.tasks.Keys == old(s).tasks.Keys
    {
      ghost var s0 := s;
      var task := currentTask;
      var t := task.timeSlice;
      assert s.tasks[task] == Record(task);
      var runtime := (task.totalRuntime + 1) % WORD;
      var slice := if task.timeSlice == 0 then WORD - 1 else task.timeSlice - 1;
      if slice == 0 {
        SetRecord(task, Charged(s0.tasks[task]), Ready, TIME_SLICE, runtime);
        SameQueues(s0, s);
        Enqueue(task);
        SetCurrent(null, s.calls + 1);
      } else {
        SetRecord(task, Charged(s0.tasks[task]), task.state, slice, runtime);
        SetCurrent(task, s.calls + 1);
      }
    }

    method SetCurrent(task: TaskBlock?, ghost calls: nat)
      requires Holds()
      modifies this`currentTask, this`s
      ensures s == old(s).(current := AsOption(task), calls := calls)
      ensures Holds()
    {
      ghost var s0 := s;
      currentTask := task;
      s := s.(current := AsOption(task), calls := calls);
      assert forall t | t in s.tasks :: s.tasks[t] == s0.tasks[t];
      forall i: nat | i < MAX_PRIORITY ensures QueueOk(s, i) && ListOk(i) {
        assert old(ListOk(i)) && QueueOk(s0, i);
      }
    }

    /** Takes the first task of the highest nonempty queue. */
    method Dequeue() returns (next: TaskBlock?)
      requires Holds()
      modifies this`s, readyQueue, s.tasks.Keys
      ensures Holds() && s.tasks == old(s).tasks
      ensures var i := Highest(old(s).queues, MAX_PRIORITY);
              if i < 0 then next == null && s == old(s)
              else next == old(s).queues[i][0] && next in s.tasks && s == old(s).(queues := Pop(old(s).queues, i))
    {
      next := null;
      var i := MAX_PRIORITY - 1;
      while i >= 0
        invariant -1 <= i < MAX_PRIORITY && Holds() && s == old(s)
        invariant Highest(s.queues, MAX_PRIORITY) == Highest(s.queues, i + 1)
        invariant next == null
      {
        assert ListOk(i);
        if readyQueue[i] != null {
          next := readyQueue[i];
          assert QueueOk(s, i) && next in s.queues[i];
          PopHead(i, next);
          return;
        }
        i := i - 1;
      }
    }

    /** ready_queue[i] = head->sibling_next; head->sibling_next = NULL. */
    method PopHead(i: nat, task: TaskBlock)
      requires Holds() && i < MAX_PRIORITY && s.queues[i] != [] && s.queues[i][0] == task
      modifies this`s, readyQueue, task`siblingNext
      ensures s == old(s).(queues := Pop(old(s).queues, i)) && Holds()
    {
      ghost var s0 := s;
      assert ListOk(i) && QueueOk(s, i);
      PopKeepsQueues(s0, i);
      readyQueue[i] := task.siblingNext;
      task.siblingNext := null;
      s := s.(queues := Pop(s.queues, i));
      forall j: nat | j < MAX_PRIORITY ensures QueueOk(s, j) && ListOk(j) {
        assert old(ListOk(j)) && QueueOk(s0, j);
        NotQueuedNow(s, task, j);
      }
    }

    /** Adds a task that no queue holds to the tasks created. */
    method Register(task: TaskBlock)
      requires Holds() && task !in s.tasks
      modifies this`s
      ensures s == old(s).(tasks := old(s).tasks[task := Record(task)]) && Holds()
    {
      ghost var s0 := s;
      s := s.(tasks := s.tasks[task := Record(task)]);
      forall t | t in s.tasks ensures Record(t) == s.tasks[t] {
        assert t != task ==> s0.tasks[t] == Record(t);
      }
      forall i: nat | i < MAX_PRIORITY ensures QueueOk(s, i) && ListOk(i) {
        assert old(ListOk(i)) && QueueOk(s0, i);
      }
    }

    /** `create_idle_task`: NULL when it cannot be allocated. */
    method CreateIdleTask(memory: Option<Memory>) returns (task: TaskBlock?)
      requires Holds()
      modifies this`s
      ensures task == null <==> memory.None?
      ensures task == null ==> s == old(s)
      ensures task != null ==> fresh(task) && s == old(s).(tasks := old(s).tasks[task := IDLE])
      ensures Holds()
    {
      if memory.None? {
        return null;
      }
      var idle := new TaskBlock(0, 0, "idle", null, memory.value);
      Register(idle);
      return idle;
    }

    /** Makes the next task current; `idle` is the idle task created for it, if any. */
    method DispatchNext(memory: Option<Memory>) returns (ghost idle: Option<TaskBlock>)
      requires Holds() && HeadsIn(s)
      modifies this`s, this`currentTask, readyQueue, s.tasks.Keys
      ensures Holds() && FreshIdle(old(s), idle) && (idle.Some? ==> memory.Some? && fresh(idle.value))
      ensures s == Dispatch(old(s), idle)
      ensures memory.Some? && !Waiting(old(s)) ==> idle.Some?
    {
      idle := None;
      var next := Dequeue();
      if next == null {
        next := CreateIdleTask(memory);
        if next == null {
          return;
        }
        idle := AsOption(next);
      }
      assert s.tasks[next] == Record(next);
      SetRecord(next, s.tasks[next].(state := Running), Running, next.timeSlice, next.totalRuntime);
      SetCurrent(next, s.calls);
    }

    /** `memory` is what the heap would give an idle task, if one is needed. */
    method Schedule(memory: Option<Memory>) returns (ghost idle: Option<TaskBlock>)
      requires Valid()
      modifies this`s, this`currentTask, readyQueue, s.tasks.Keys
      ensures FreshIdle(old(s), idle) && (idle.Some? ==> fresh(idle.value))
      ensures Usable(old(s)) && s == TaskSpec.Schedule(old(s), idle) && Valid()
      ensures Off(s) && currentTask != null
    {
      ghost var s0 := s;
      ChargeKeeps(s0);
      ChargeCurrent();
      HeadsAreTasks(s);
      idle := DispatchNext(memory);
      ScheduleKeepsInv(s0, idle);
    }

    /** `timer_interrupt_handler`, as far as the scheduler is concerned. */
    method TimerInterrupt(memory: Option<Memory>) returns (ghost idle: Option<TaskBlock>)
      requires Valid()
      modifies this`systemTicks, this`s, this`currentTask, readyQueue, s.tasks.Keys
      ensures FreshIdle(old(s), idle) && (idle.Some? ==> fresh(idle.value))
      ensures Usable(old(s)) && s == TaskSpec.Schedule(old(s), idle) && Valid()
      ensures systemTicks == (old(systemTicks) + 1) % WORD
    {
      systemTicks := (systemTicks + 1) % WORD;
      idle := Schedule(memory);
    }

    method TaskExit(memory: Option<Memory>) returns (ghost idle: Option<TaskBlock>)
      requires Valid()
      modifies this`s, this`currentTask, readyQueue, s.tasks.Keys
      ensures FreshIdle(old(s), idle) && (idle.Some? ==> fresh(idle.value))
      ensures Usable(MarkZombie(old(s))) && s == TaskSpec.Schedule(MarkZombie(old(s)), idle) && Valid()
    {
      ghost var s0 := s;
      ExitKeepsInv(s0);
      assert s.tasks[currentTask] == Record(currentTask);
      SetRecord(currentTask, s.tasks[currentTask].(state := Zombie), Zombie, currentTask.timeSlice, currentTask.totalRuntime);
      idle := Schedule(memory);
    }

    /** The task goes to the front of its queue. A pid is used up once the control block
        exists, even if a later allocation fails. */
    method CreateTask(name: string, priority: nat, outcome: Outcome, memory: Memory) returns (task: TaskBlock?)
      requires Valid()
      modifies this`s, this`nextPid, readyQueue
      ensures task != null <==> priority < MAX_PRIORITY && outcome == Created
      ensures task != null ==> fresh(task) && task.name == name && task.parent == currentTask
      ensures task != null ==> s == TaskSpec.CreateTask(old(s), priority, outcome, task)
      ensures task == null ==> s == old(s).(nextPid := nextPid)
      ensures nextPid == if priority < MAX_PRIORITY && outcome != NoPcb then (old(nextPid) + 1) % WORD else old(nextPid)
      ensures Valid()
    {
      ghost var s0 := s;
      if priority >= MAX_PRIORITY || outcome == NoPcb {
        return null;
      }
      var block := new TaskBlock(nextPid, priority, name, currentTask, memory);
      UsePid();
      if outcome != Created {
        SameQueues(s0, s);
        return null;
      }
      CreateKeepsInv(s0, priority, outcome, block);
      QueuedAreTasks(s0, block);
      SameQueues(s0, s);
      Admit(block);
      return block;
    }

    /** The new task joins the tasks created and goes to the front of its queue. */
    method Admit(task: TaskBlock)
      requires Holds() && task !in s.tasks && !Queued(s, task) && task.priority < MAX_PRIORITY
      modifies this`s, readyQueue, task`siblingNext
      ensures s == old(s).(tasks := old(s).tasks[task := old(Record(task))],
                           queues := Push(old(s).queues, old(task.priority), task))
      ensures Holds()
    {
      ghost var s0 := s;
      Register(task);
      SameQueues(s0, s);
      Enqueue(task);
    }

    method UsePid()
      requires Holds()
      modifies this`s, this`nextPid
      ensures nextPid == (old(nextPid) + 1) % WORD && s == old(s).(nextPid := nextPid) && Holds()
    {
      ghost var s0 := s;
      nextPid := (nextPid + 1) % WORD;
      s := s.(nextPid := nextPid);
      assert forall t | t in s.tasks :: s.tasks[t] == s0.tasks[t];
      forall i: nat | i < MAX_PRIORITY ensures QueueOk(s, i) && ListOk(i) {
        assert old(ListOk(i)) && QueueOk(s0, i);
      }
    }
  }

  lemma NotQueuedNow(s: Sched<TaskBlock>, t: TaskBlock, j: nat)
    requires j < |s.queues| && !Queued(s, t)
    ensures t !in s.queues[j]
  {}
}
