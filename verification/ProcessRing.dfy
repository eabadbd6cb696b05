/** The circular list of process control blocks, updated in place. */
module ProcessRing {
  import opened Machine
  import opened ProcessTable
  import opened Rings

  class Pcb {
    const pid: nat
    const priority: nat
    var state: State
    var next: Pcb?
    var prev: Pcb?

    constructor (pid: nat, state: State, priority: nat)
      ensures this.pid == pid && this.state == state && this.priority == priority
    {
      this.pid, this.state, this.priority := pid, state, priority;
      next, prev := null, null;
    }
  }

  /** ring[i] is linked to both its neighbours. */
  ghost predicate Linked(ring: seq<Pcb>, i: int)
    requires 0 <= i < |ring|
    reads ring`next, ring`prev
  {
    ring[i].next == ring[Succ(i, |ring|)] && ring[i].prev == ring[Pred(i, |ring|)]
  }

  /** The ring that starts at head. */
  ghost predicate IsRing(head: Pcb?, ring: seq<Pcb>)
    reads ring`next, ring`prev
  {
    && head == (if ring == [] then null else ring[0])
    && (forall i, j | 0 <= i < j < |ring| :: ring[i] != ring[j])
    && (forall i {:trigger Linked(ring, i)} | 0 <= i < |ring| :: Linked(ring, i))
  }

  ghost predicate Shows(block: Pcb, p: Proc)
    reads block`state
  {
    p == Proc(block.pid, block.state, block.priority)
  }

  /** The blocks of the ring hold the processes ps. */
  ghost predicate Shown(ring: seq<Pcb>, ps: seq<Proc>)
    reads ring`state
  {
    |ring| == |ps| && forall i {:trigger Shows(ring[i], ps[i])} | 0 <= i < |ring| :: Shows(ring[i], ps[i])
  }

  /** Links the neighbours of the process to each other. */
  method Bypass(head: Pcb?, process: Pcb, ghost ring: seq<Pcb>, ghost k: nat)
    requires IsRing(head, ring) && k < |ring| && ring[k] == process && |ring| > 1
    modifies ring`next, ring`prev
    ensures IsRing(if head == process then process.next else head, Without(ring, k))
  {
    ghost var n, r := |ring|, Without(ring, k);
    assert Linked(ring, k) && Linked(ring, Succ(k, n)) && Linked(ring, Pred(k, n));
    process.prev.next := process.next;
    process.next.prev := process.prev;
    forall i | 0 <= i < |r| ensures Linked(r, i) {
      var o := if i < k then i else i + 1;
      assert old(Linked(ring, o));
      WithoutAt(ring, k, i);
      assert ring[o] != ring[k];
    }
  }

  class Scheduler {
    var processList: Pcb?
    var currentProcess: Pcb
    var nextPid: nat
    var policy: Policy
    /** The ring read from processList, and the table it holds. */
    ghost var ring: seq<Pcb>
    ghost var table: Table

    ghost predicate Linking()
      reads this, ring
    {
      && ring != [] && IsRing(processList, ring) && Shown(ring, table.procs)
      && table.nextPid == nextPid && table.policy == policy
    }

    /** The current process is the ring's process with the table's current pid. */
    ghost predicate Valid()
      reads this, ring
    {
      Linking() && Inv(table) && currentProcess == ring[IndexOfPid(table.procs, table.current)]
    }

    /** `init_process_management`. */
    constructor ()
      ensures Valid() && table == BOOT && fresh(ring)
    {
      var kernel := new Pcb(0, Running, 10);
      processList, currentProcess, nextPid, policy := null, kernel, 1, RoundRobin;
      ring, table := [], BOOT;
      new;
      AddProcessToList(kernel);
      ring := ring + [kernel];
    }

    method AddProcessToList(process: Pcb)
      requires IsRing(processList, ring) && process !in ring
      modifies this`processList, ring`next, ring`prev, process`next, process`prev
      ensures IsRing(processList, ring + [process])
    {
      ghost var n := |ring|;
      if processList == null {
        processList := process;
        process.next := process;
        process.prev := process;
      } else {
        assert Linked(ring, 0) && Linked(ring, n - 1);
        process.next := processList;
        process.prev := processList.prev;
        processList.prev.next := process;
        processList.prev := process;
      }
      forall i | 0 <= i <= n ensures Linked(ring + [process], i) {
        assert i < n ==> old(Linked(ring, i));
      }
    }

    /** The allocations succeed as `outcome` says. A pid is used up once the control
        block exists, even if a later allocation fails. */
    method CreateProcess(priority: nat, outcome: Outcome) returns (process: Pcb?)
      requires Valid()
      modifies this`processList, this`nextPid, this`ring, this`table, ring
      ensures Linking() && table == Step(old(table), Create(priority, outcome))
      ensures Valid() <==> outcome == NoPcb || old(nextPid) + 1 < WORD
      ensures process == null <==> outcome != Created
      ensures process != null ==> ring == old(ring) + [process]
    {
      if outcome == NoPcb {
        return null;
      }
      ghost var t := table;
      CreateKeepsInv(t, priority, outcome);
      var pcb := new Pcb(nextPid, Ready, priority);
      UsePid();
      if outcome != Created {
        return null;
      }
      Enlist(pcb);
      AppendKeepsCurrent(t.procs, Proc(pcb.pid, Ready, priority), t.current);
      return pcb;
    }

    method UsePid()
      requires Linking()
      modifies this`nextPid, this`table
      ensures Linking() && table == old(table).(nextPid := (old(nextPid) + 1) % WORD)
    {
      nextPid := (nextPid + 1) % WORD;
      table := table.(nextPid := nextPid);
    }

    method Enlist(pcb: Pcb)
      requires Linking() && pcb !in ring
      modifies this`processList, this`ring, this`table, ring`next, ring`prev, pcb`next, pcb`prev
      ensures Linking() && ring == old(ring) + [pcb]
      ensures table == old(table).(procs := old(table).procs + [Proc(pcb.pid, pcb.state, pcb.priority)])
    {
      ghost var ps := table.procs + [Proc(pcb.pid, pcb.state, pcb.priority)];
      AddProcessToList(pcb);
      ring := ring + [pcb];
      forall i | 0 <= i < |ring| ensures Shows(ring[i], ps[i]) {
        assert i < |ring| - 1 ==> old(Shows(ring[i], table.procs[i]));
      }
      table := table.(procs := ps);
    }

    method RemoveProcessFromList(process: Pcb, ghost k: nat)
      requires IsRing(processList, ring) && k < |ring| && ring[k] == process
      modifies this`processList, ring`next, ring`prev
      ensures IsRing(processList, Without(ring, k))
    {
      assert Linked(ring, k);
      if process.next == process {
        processList := null;
      } else {
        Bypass(processList, process, ring, k);
        if processList == process {
          processList := process.next;
        }
      }
    }

    /** Removes the process with the given pid, if it is not the kernel's. The state
        stays valid exactly when that process was not the current one. */
    method TerminateProcess(pid: nat)
      requires Valid()
      modifies this`processList, this`ring, this`table, ring
      ensures Linking() && table == Step(old(table), Terminate(pid))
      ensures Valid() <==> pid == 0 || pid != old(table).current
    {
      if pid == 0 {
        return;
      }
      TerminateFacts(table, pid);
      var process := FindProcess(pid);
      if process != null {
        ghost var k := IndexOfPid(table.procs, pid);
        WithoutKeeps(ring, k, IndexOfPid(table.procs, table.current));
        Unlink(process, k);
      }
    }

    /** The walk from process_list round the ring. */
    method FindProcess(pid: nat) returns (process: Pcb?)
      requires Linking()
      ensures var k := IndexOfPid(table.procs, pid);
              process == if k < |ring| then ring[k] else null
    {
      process := processList;
      ghost var i := 0;
      while true
        invariant 0 <= i < |ring| && process == ring[i]
        invariant forall j | 0 <= j < i :: table.procs[j].pid != pid
        decreases |ring| - i
      {
        assert Linked(ring, i) && Shows(ring[i], table.procs[i]);
        if process.pid == pid {
          IndexIsFirst(table.procs, pid, i);
          return;
        }
        process := process.next;
        i := i + 1;
        if process == processList {
          assert i == |ring|;
          IndexIsFirst(table.procs, pid, i);
          return null;
        }
      }
    }

    method Unlink(process: Pcb, ghost k: nat)
      requires Linking() && 0 < k < |ring| && ring[k] == process
      modifies this`processList, this`ring, this`table, ring
      ensures Linking() && table == old(table).(procs := Without(old(table).procs, k))
      ensures ring == Without(old(ring), k)
    {
      ghost var ps := table.procs;
      process.state := Terminated;
      RemoveProcessFromList(process, k);
      ghost var r := Without(ring, k);
      forall i | 0 <= i < |r| ensures Shows(r[i], Without(ps, k)[i]) {
        var o := if i < k then i else i + 1;
        assert old(Shows(ring[o], table.procs[o])) && ring[o] != process;
      }
      ring, table := r, table.(procs := Without(ps, k));
    }

    /** The round-robin search: from the process after the current one to the first
        READY process, at the latest back to the current one. */
    method NextReady(ghost c: nat) returns (next: Pcb)
      requires Linking() && c < |ring| && currentProcess == ring[c]
      ensures next == ring[SelectNext(table.procs, c)]
      ensures next != currentProcess ==> next.state == Ready
    {
      ghost var n, order := |ring|, Order(table.procs, c);
      assert Linked(ring, c) && Shows(ring[c], table.procs[c]);
      next := currentProcess.next;
      ghost var m: nat := 0;
      while next.state != Ready && next != currentProcess
        invariant m < n && next == ring[Wrap(c, m, n)]
        invariant forall q | 0 <= q < m :: !IsReady(order[q])
        decreases n - m
      {
        assert Linked(ring, Wrap(c, m, n)) && Shows(ring[Wrap(c, m, n)], table.procs[Wrap(c, m, n)]);
        assert order[m] == table.procs[Wrap(c, m, n)];
        next := next.next;
        m := m + 1;
      }
      assert Linked(ring, Wrap(c, m, n)) && Shows(ring[Wrap(c, m, n)], table.procs[Wrap(c, m, n)]);
      assert order[m] == table.procs[Wrap(c, m, n)];
      if m + 1 == n {
        FirstReadyIsFirst(order);
      } else {
        FirstReadyFound(order, m);
      }
    }

    /** The priority scan: once round the ring from process_list. */
    method HighestPriority() returns (best: Pcb?)
      requires Linking()
      ensures var h := BestReady(table.procs, |ring|);
              best == if h < |ring| then ring[h] else null
    {
      best := null;
      var next := processList;
      ghost var i, n := 0, |ring|;
      while true
        invariant 0 <= i < n && next == ring[i]
        invariant best == if BestReady(table.procs, i) < n then ring[BestReady(table.procs, i)] else null
        decreases n - i
      {
        ghost var h := BestReady(table.procs, i);
        assert Linked(ring, i) && Shows(ring[i], table.procs[i]);
        assert h < n ==> Linked(ring, h) && Shows(ring[h], table.procs[h]);
        if next.state == Ready && (best == null || next.priority < best.priority) {
          best := next;
        }
        next := next.next;
        i := i + 1;
        if next == processList {
          assert i == n;
          return;
        }
      }
    }

    /** What the policy picks; NULL if priority scheduling finds no READY process. */
    method Pick(ghost c: nat) returns (next: Pcb?)
      requires Linking() && c < |ring| && currentProcess == ring[c]
      ensures next != null && next != currentProcess ==> next == ring[Selected(table, c)] && next.state == Ready
      ensures next == null || next == currentProcess ==> currentProcess == ring[Selected(table, c)]
    {
      if policy == Priority {
        next := HighestPriority();
        ghost var h := BestReady(table.procs, |ring|);
        assert h < |ring| ==> Linked(ring, h) && Shows(ring[h], table.procs[h]);
      } else {
        next := NextReady(c);
      }
    }

    /** `set_scheduler_type`. */
    method SetSchedulerType(policy: Policy)
      requires Valid()
      modifies this`policy, this`table
      ensures Valid() && table == Step(old(table), SetPolicy(policy))
    {
      this.policy := policy;
      table := table.(policy := policy);
    }

    method Schedule()
      requires Valid()
      modifies this`currentProcess, this`table
      ensures Valid() && table == Step(old(table), ProcessTable.Schedule)
    {
      ghost var c := IndexOfPid(table.procs, table.current);
      ghost var k := Selected(table, c);
      ScheduleKeepsInv(table);
      IndexIs(table.procs, k);
      var next := Pick(c);
      if next != null && next.state == Ready && next != currentProcess {
        currentProcess := next;
      }
      table := table.(current := table.procs[k].pid);
    }
  }

  /** Ring index of position m of the order after index c. */
  function Wrap(c: int, m: int, n: int): int { if c + 1 + m < n then c + 1 + m else c + 1 + m - n }

  lemma FirstReadyFound(ps: seq<Proc>, m: nat)
    requires m <= |ps| && (m < |ps| ==> IsReady(ps[m])) && forall q | 0 <= q < m :: !IsReady(ps[q])
    ensures FirstReady(ps) == m
  {
    FirstReadyIsFirst(ps);
    assert FirstReady(ps) < |ps| ==> IsReady(ps[FirstReady(ps)]);
  }

  lemma IndexIsFirst(ps: seq<Proc>, pid: nat, i: nat)
    requires i <= |ps| && (i < |ps| ==> ps[i].pid == pid) && forall j | 0 <= j < i :: ps[j].pid != pid
    ensures IndexOfPid(ps, pid) == i
  {
    NoneBefore(ps, pid);
    var k := IndexOfPid(ps, pid);
    assert k < |ps| ==> ps[k].pid == pid;
  }

  lemma WithoutKeepsIndex(ps: seq<Proc>, k: nat, pid: nat)
    requires k < |ps| && ps[k].pid != pid && IndexOfPid(ps, pid) < |ps|
    ensures var c := IndexOfPid(ps, pid);
            IndexOfPid(Without(ps, k), pid) == if c < k then c else c - 1
  {
    var c, r := IndexOfPid(ps, pid), Without(ps, k);
    var i := if c < k then c else c - 1;
    assert r[i] == ps[c];
    NoneBefore(ps, pid);
    forall j | 0 <= j < i ensures r[j].pid != pid { assert r[j] == ps[if j < k then j else j + 1]; }
    IndexIsFirst(r, pid, i);
  }

  /** What terminating a process other than the kernel's does to the table. */
  lemma {:induction false} TerminateFacts(t: Table, pid: nat)
    requires Inv(t) && pid != 0
    ensures var k, c := IndexOfPid(t.procs, pid), IndexOfPid(t.procs, t.current);
            && Step(t, Terminate(pid)) == (if k < |t.procs| then t.(procs := Without(t.procs, k)) else t)
            && (k < |t.procs| ==> k > 0) && (k == |t.procs| ==> pid != t.current)
            && (k < |t.procs| && pid != t.current ==>
                  IndexOfPid(Without(t.procs, k), t.current) == if c < k then c else c - 1)
    ensures Inv(Step(t, Terminate(pid))) <==> pid != t.current
  {
    var k := IndexOfPid(t.procs, pid);
    TerminateKeepsInv(t, pid);
    if k < |t.procs| && pid != t.current { WithoutKeepsIndex(t.procs, k, t.current); }
  }
}
