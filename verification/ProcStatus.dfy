/** /proc/[pid]/status: the search for a task among the current and the queued ones, and the
    lines printed for it. */
module ProcStatus {
  import opened Machine
  import opened Formatter
  import opened ProcFs
  import T = TaskSpec
  import Q = TaskQueues

  type Sched = T.Sched<Q.TaskBlock>

  // ---- The search -----------------------------------------------------------------------

  ghost predicate HasPid(s: Sched, t: Q.TaskBlock, pid: nat) { t in s.tasks && s.tasks[t].pid == pid }

  ghost predicate NotInQueue(s: Sched, i: nat, pid: nat)
    requires i < |s.queues|
  {
    forall t | t in s.queues[i] :: !HasPid(s, t, pid)
  }

  /** The k-th task of queue i is the first with that pid, queues taken in order. */
  ghost predicate FirstQueued(s: Sched, pid: nat, i: nat, k: nat) {
    && i < |s.queues| && k < |s.queues[i]| && HasPid(s, s.queues[i][k], pid)
    && (forall j | 0 <= j < k :: !HasPid(s, s.queues[i][j], pid))
    && (forall j: nat | j < i :: NotInQueue(s, j, pid))
  }

  ghost predicate IsCurrent(s: Sched, pid: nat) { s.current.Some? && HasPid(s, s.current.value, pid) }

  /** The task the file is about: the current one, else the first queued one, else none. */
  ghost predicate Found(s: Sched, pid: nat, task: Q.TaskBlock?) {
    if IsCurrent(s, pid) then task == s.current.value
    else if task == null then forall i: nat | i < |s.queues| :: NotInQueue(s, i, pid)
    else exists i: nat, k: nat :: FirstQueued(s, pid, i, k) && s.queues[i][k] == task
  }

  /** The search has one outcome, and finds nothing exactly when neither the current nor
      any queued task has the pid. */
  lemma FoundIsDetermined(s: Sched, pid: nat, a: Q.TaskBlock?, b: Q.TaskBlock?)
    requires Found(s, pid, a) && Found(s, pid, b)
    ensures a == b
    ensures a == null <==> !IsCurrent(s, pid) && forall i: nat | i < |s.queues| :: NotInQueue(s, i, pid)
  {
    if !IsCurrent(s, pid) {
      if a != null { QueuedSomewhere(s, pid, a); }
      if b != null { QueuedSomewhere(s, pid, b); }
      if a != null && b != null {
        var i: nat, k: nat :| FirstQueued(s, pid, i, k) && s.queues[i][k] == a;
        var j: nat, m: nat :| FirstQueued(s, pid, j, m) && s.queues[j][m] == b;
        assert s.queues[i][k] in s.queues[i] && s.queues[j][m] in s.queues[j];
        assert !NotInQueue(s, i, pid) && !NotInQueue(s, j, pid);
      }
    }
  }

  lemma QueuedSomewhere(s: Sched, pid: nat, t: Q.TaskBlock)
    requires Found(s, pid, t) && !IsCurrent(s, pid)
    ensures exists i: nat | i < |s.queues| :: !NotInQueue(s, i, pid)
  {
    var i: nat, k: nat :| FirstQueued(s, pid, i, k) && s.queues[i][k] == t;
    assert s.queues[i][k] in s.queues[i] && !NotInQueue(s, i, pid);
  }

  method FindInQueue(sched: Q.Scheduler, i: nat, pid: nat) returns (task: Q.TaskBlock?, ghost k: nat)
    requires sched.Valid() && i < T.MAX_PRIORITY
    ensures task == null ==> NotInQueue(sched.s, i, pid)
    ensures var q := sched.s.queues[i];
            task != null ==> k < |q| && q[k] == task && HasPid(sched.s, task, pid) && forall j | 0 <= j < k :: !HasPid(sched.s, q[j], pid)
  {
    ghost var q := sched.s.queues[i];
    assert sched.ListOk(i) && T.QueueOk(sched.s, i);
    task, k := sched.readyQueue[i], 0;
    while task != null
      invariant 0 <= k <= |q| && task == if k < |q| then q[k] else null
      invariant forall j | 0 <= j < k :: !HasPid(sched.s, q[j], pid)
      decreases |q| - k
    {
      assert task in q && sched.s.tasks[task] == Q.Record(task);
      if task.pid == pid {
        return;
      }
      task, k := task.siblingNext, k + 1;
    }
  }

  method FindTask(sched: Q.Scheduler, pid: nat) returns (task: Q.TaskBlock?)
    requires sched.Valid()
    ensures Found(sched.s, pid, task)
  {
    task := sched.currentTask;
    if task != null {
      assert sched.s.tasks[task] == Q.Record(task);
      if task.pid == pid {
        return;
      }
    }
    var i: nat := 0;
    while i < T.MAX_PRIORITY
      invariant i <= T.MAX_PRIORITY && forall j: nat | j < i :: NotInQueue(sched.s, j, pid)
    {
      ghost var k;
      task, k := FindInQueue(sched, i, pid);
      if task != null {
        assert FirstQueued(sched.s, pid, i, k);
        return;
      }
      i := i + 1;
    }
    task := null;
  }

  // ---- The lines ------------------------------------------------------------------------

  /** Words of the task that are printed and decide nothing. */
  datatype Carried = Carried(parentPid: nat, pageDir: Word, kernelTop: Word, userTop: Word)

  ghost function CarriedBy(t: Q.TaskBlock): Carried
    reads t, t.parent
  {
    Carried(if t.parent == null then 0 else t.parent.pid, t.pageDir, t.kernelStackTop, t.userStackTop)
  }

  function NumberLine(key: string, u: nat): string { key + (DecimalText(AsInt(u)) + "\n") }

  function StringLine(key: string, s: string): string { key + (s + "\n") }

  /** The format is 0x%x and %x already prints 0x, so the prefix appears twice. */
  function HexLine(key: string, u: Word): string { key + (HexText(u) + "\n") }

  const STATUS_HEADER := "Process Information\n"

  function TaskLines(t: T.Task): string {
    STATUS_HEADER + NumberLine("PID: ", t.pid) + StringLine("State: ", StateName(t.state))
      + NumberLine("Priority: ", t.priority) + NumberLine("Total Time: ", t.runtime)
  }

  function StatusText(t: T.Task, c: Carried): string {
    TaskLines(t) + NumberLine("Parent PID: ", c.parentPid) + HexLine("Page Directory: 0x", c.pageDir)
      + HexLine("Kernel ESP: 0x", c.kernelTop) + HexLine("User ESP: 0x", c.userTop)
  }

  function MissingText(pid: nat): string { "Process " + (DecimalText(AsInt(pid)) + " not found\n") }

  lemma RenderOneString(pre: string, s: string, post: string)
    requires '%' !in pre && '%' !in post
    ensures Matches(pre + ("%s" + post), [StrArg(s)])
    ensures Render(pre + ("%s" + post), [StrArg(s)]) == pre + (s + post)
  {
    RenderPlain(post);
    RenderString(s, post, []);
    assert [StrArg(s)] + [] == [StrArg(s)];
    RenderPrefix(pre, "%s" + post, [StrArg(s)]);
  }

  lemma RenderOneWord(pre: string, u: nat, post: string)
    requires '%' !in pre && '%' !in post && u < WORD
    ensures Matches(pre + ("%x" + post), [WordArg(u)])
    ensures Render(pre + ("%x" + post), [WordArg(u)]) == pre + (HexText(u) + post)
  {
    RenderPlain(post);
    assert ['%', 'x'][2..] == [];
    RenderArg('x', post, WordArg(u), []);
    assert [WordArg(u)] + [] == [WordArg(u)];
    RenderPrefix(pre, "%x" + post, [WordArg(u)]);
  }

  method AppendString(buf: array<char>, size: nat, offset: nat, pre: string, s: string, ghost text: string) returns (next: nat)
    requires Filled(buf[..], size, offset, text) && '%' !in pre
    modifies buf
    ensures Filled(buf[..], size, next, text + StringLine(pre, s))
  {
    RenderOneString(pre, s, "\n");
    next := Append(buf, size, offset, pre + ("%s" + "\n"), [StrArg(s)], text);
  }

  method AppendHex(buf: array<char>, size: nat, offset: nat, pre: string, u: nat, ghost text: string) returns (next: nat)
    requires Filled(buf[..], size, offset, text) && '%' !in pre && u < WORD
    modifies buf
    ensures Filled(buf[..], size, next, text + HexLine(pre, u))
  {
    RenderOneWord(pre, u, "\n");
    next := Append(buf, size, offset, pre + ("%x" + "\n"), [WordArg(u)], text);
  }

  method AppendTaskLines(t: Q.TaskBlock, buf: array<char>, size: nat) returns (offset: nat)
    requires 1 <= size <= buf.Length
    modifies buf
    ensures Filled(buf[..], size, offset, TaskLines(Q.Record(t)))
  {
    ghost var r := Q.Record(t);
    offset := StartFile(buf, size, STATUS_HEADER);
    offset := AppendNumber(buf, size, offset, "PID: ", AsInt(t.pid), "\n", STATUS_HEADER);
    ghost var t1 := STATUS_HEADER + NumberLine("PID: ", r.pid);
    offset := AppendString(buf, size, offset, "State: ", StateName(t.state), t1);
    ghost var t2 := t1 + StringLine("State: ", StateName(r.state));
    offset := AppendNumber(buf, size, offset, "Priority: ", AsInt(t.priority), "\n", t2);
    ghost var t3 := t2 + NumberLine("Priority: ", r.priority);
    offset := AppendNumber(buf, size, offset, "Total Time: ", AsInt(t.totalRuntime), "\n", t3);
  }

  method AppendCarried(c: Carried, buf: array<char>, size: nat, offset: nat, ghost text: string) returns (next: nat)
    requires Filled(buf[..], size, offset, text)
    modifies buf
    ensures Filled(buf[..], size, next, text + NumberLine("Parent PID: ", c.parentPid) + HexLine("Page Directory: 0x", c.pageDir)
                                        + HexLine("Kernel ESP: 0x", c.kernelTop) + HexLine("User ESP: 0x", c.userTop))
  {
    next := AppendNumber(buf, size, offset, "Parent PID: ", AsInt(c.parentPid), "\n", text);
    ghost var t1 := text + NumberLine("Parent PID: ", c.parentPid);
    next := AppendHex(buf, size, next, "Page Directory: 0x", c.pageDir, t1);
    ghost var t2 := t1 + HexLine("Page Directory: 0x", c.pageDir);
    next := AppendHex(buf, size, next, "Kernel ESP: 0x", c.kernelTop, t2);
    ghost var t3 := t2 + HexLine("Kernel ESP: 0x", c.kernelTop);
    next := AppendHex(buf, size, next, "User ESP: 0x", c.userTop, t3);
  }

  /** The file is the longest prefix that fits of the report on the task found, or of the
      line saying that there is none. */
  method GenerateStatus(sched: Q.Scheduler, pid: nat, buf: array<char>, size: nat)
    returns (offset: nat, ghost task: Q.TaskBlock?)
    requires sched.Valid() && 1 <= size <= buf.Length
    modifies buf
    ensures Found(sched.s, pid, task)
    ensures Filled(buf[..], size, offset, if task == null then MissingText(pid) else StatusText(Q.Record(task), CarriedBy(task)))
  {
    var found := FindTask(sched, pid);
    task := found;
    if found == null {
      offset := AppendMissing(pid, buf, size);
      return;
    }
    offset := AppendStatus(found, buf, size);
  }

  method AppendStatus(t: Q.TaskBlock, buf: array<char>, size: nat) returns (offset: nat)
    requires 1 <= size <= buf.Length
    modifies buf
    ensures Filled(buf[..], size, offset, StatusText(Q.Record(t), CarriedBy(t)))
  {
    offset := AppendTaskLines(t, buf, size);
    var c := Carried(if t.parent == null then 0 else t.parent.pid, t.pageDir, t.kernelStackTop, t.userStackTop);
    offset := AppendCarried(c, buf, size, offset, TaskLines(Q.Record(t)));
  }

  method AppendMissing(pid: nat, buf: array<char>, size: nat) returns (offset: nat)
    requires 1 <= size <= buf.Length
    modifies buf
    ensures Filled(buf[..], size, offset, MissingText(pid))
  {
    RenderOneNumber("Process ", AsInt(pid), " not found\n");
    offset := Snprintf(buf, 0, size, "Process " + ("%d" + " not found\n"), [IntArg(AsInt(pid))]);
  }
}
