/** The texts of the /proc files, spelled out. */
module ProcText {
  import opened Machine
  import opened Formatter
  import opened ProcFs
  import opened ProcStatus
  import T = TaskSpec
  import Q = TaskQueues

  /** A 32-bit word is printed as the signed number of the same bits. */
  lemma AsIntIsWord(u: nat)
    requires u < 0x1_0000_0000
    ensures -0x8000_0000 <= AsInt(u) < 0x8000_0000
    ensures AsInt(u) == u || AsInt(u) == u - 0x1_0000_0000
  {}

  lemma StateWords()
    ensures StateName(T.Ready) == "READY" && StateName(T.Running) == "RUNNING"
    ensures StateName(T.Blocked) == "BLOCKED" && StateName(T.Zombie) == "ZOMBIE"
  {}

  // ---- /proc/ps --------------------------------------------------------------------------

  /** The five fields of a line: pid, state, name, priority, total runtime. */
  lemma LineSpelled(t: T.Task, name: string)
    ensures LineText(t, name)
            == DecimalText(AsInt(t.pid)) + ("\t" + (StateName(t.state) + ("\t" + (name + ("\t" +
               (DecimalText(AsInt(t.priority)) + ("\t" + (DecimalText(AsInt(t.runtime)) + ("\t" + "\n")))))))))
  {
    var args := LineArgs(t, name);
    assert args[1..][1..][1..][1..][1..] == [];
    assert FieldsText(args) == FieldText(args[0]) + ("\t" + FieldsText(args[1..]));
    assert FieldsText(args[1..]) == FieldText(args[1]) + ("\t" + FieldsText(args[1..][1..]));
    assert FieldsText(args[1..][1..]) == FieldText(args[2]) + ("\t" + FieldsText(args[1..][1..][1..]));
    assert FieldsText(args[1..][1..][1..]) == FieldText(args[3]) + ("\t" + FieldsText(args[1..][1..][1..][1..]));
    assert FieldsText(args[1..][1..][1..][1..]) == FieldText(args[4]) + ("\t" + "\n");
  }

  type Sched = T.Sched<Q.TaskBlock>
  type NameMap = map<Q.TaskBlock, string>

  /** The first n queues one after the other, from priority 0 upwards. */
  function Joined(queues: seq<seq<Q.TaskBlock>>, n: nat): seq<Q.TaskBlock>
    requires n <= |queues|
  {
    if n == 0 then [] else Joined(queues, n - 1) + queues[n - 1]
  }

  /** The tasks in the order of their lines: the current one, then the queued ones. */
  function Listed(s: Sched): seq<Q.TaskBlock> {
    (if s.current.Some? then [s.current.value] else []) + Joined(s.queues, |s.queues|)
  }

  function Lines(s: Sched, names: NameMap, ts: seq<Q.TaskBlock>): string
    requires forall t | t in ts :: t in s.tasks && t in names
  {
    if ts == [] then "" else LineText(s.tasks[ts[0]], names[ts[0]]) + Lines(s, names, ts[1..])
  }

  lemma {:induction false} LinesJoin(s: Sched, names: NameMap, a: seq<Q.TaskBlock>, b: seq<Q.TaskBlock>)
    requires forall t | t in a + b :: t in s.tasks && t in names
    ensures (forall t | t in a :: t in s.tasks && t in names) && (forall t | t in b :: t in s.tasks && t in names)
    ensures Lines(s, names, a + b) == Lines(s, names, a) + Lines(s, names, b)
  {
    assert forall t | t in a || t in b :: t in a + b;
    if a == [] {
      assert a + b == b;
    } else {
      assert (a + b)[0] == a[0] && (a + b)[1..] == a[1..] + b;
      LinesJoin(s, names, a[1..], b);
    }
  }

  lemma OneLine(s: Sched, names: NameMap, t: Q.TaskBlock)
    requires t in s.tasks && t in names
    ensures Lines(s, names, [t]) == LineText(s.tasks[t], names[t])
  {
    assert [t][1..] == [] && LineText(s.tasks[t], names[t]) + "" == LineText(s.tasks[t], names[t]);
  }

  lemma {:induction false} QueueLines(s: Sched, names: NameMap, q: seq<Q.TaskBlock>)
    requires forall t | t in q :: t in s.tasks && t in names
    ensures QueueText(s, names, q) == Lines(s, names, q)
  {
    if q != [] {
      var front, last := q[..|q| - 1], q[|q| - 1];
      QueueLines(s, names, front);
      assert q == front + [last];
      LinesJoin(s, names, front, [last]);
      OneLine(s, names, last);
    }
  }

  lemma {:induction false} QueuesLines(s: Sched, names: NameMap, n: nat)
    requires AllNamed(s, names) && n <= |s.queues|
    ensures forall t | t in Joined(s.queues, n) :: t in s.tasks && t in names
    ensures QueuesText(s, names, n) == Lines(s, names, Joined(s.queues, n))
  {
    if n > 0 {
      QueuesLines(s, names, n - 1);
      QueueLines(s, names, s.queues[n - 1]);
      LinesJoin(s, names, Joined(s.queues, n - 1), s.queues[n - 1]);
    }
  }

  /** /proc/ps is the header and one line for each task the scheduler knows: the current one
      first, then the queues from priority 0 upwards, each from its head. */
  lemma PsSpelled(s: Sched, names: NameMap)
    requires AllNamed(s, names)
    ensures forall t | t in Listed(s) :: t in s.tasks && t in names
    ensures PsText(s, names) == "PID\tSTATE\tNAME\tPRIORITY\tTIME\t\n" + Lines(s, names, Listed(s))
  {
    var current := if s.current.Some? then [s.current.value] else [];
    QueuesLines(s, names, |s.queues|);
    LinesJoin(s, names, current, Joined(s.queues, |s.queues|));
    if s.current.Some? { OneLine(s, names, current[0]); }
    Regroup(PS_HEADER, CurrentText(s, names), QueuesText(s, names, |s.queues|));
  }

  // ---- The other files -------------------------------------------------------------------

  lemma MeminfoSpelled(freeMem: nat)
    requires freeMem < 0x1_0000_0000
    ensures MeminfoText(freeMem)
            == "" + ("MemTotal:     " + ("32768" + " kB\n"))
               + ("MemFree:      " + (DecimalText(freeMem / 1024) + " kB\n"))
               + ("MemUsed:      " + (DecimalText((33554432 - freeMem) % 0x1_0000_0000 / 1024) + " kB\n"))
               + "\nBuddy Allocator Fragmentation:\n" + ("  Level 0: 10" + ("%" + "\n"))
               + ("  Level 1: 15" + ("%" + "\n")) + ("  Level 2: 8" + ("%" + "\n")) + ("  Level 3: 5" + ("%" + "\n"))
  {
    Numerals();
  }

  lemma StatusSpelled(t: T.Task, c: Carried)
    ensures StatusText(t, c)
            == "Process Information\n" + ("PID: " + (DecimalText(AsInt(t.pid)) + "\n"))
               + ("State: " + (StateName(t.state) + "\n")) + ("Priority: " + (DecimalText(AsInt(t.priority)) + "\n"))
               + ("Total Time: " + (DecimalText(AsInt(t.runtime)) + "\n"))
               + ("Parent PID: " + (DecimalText(AsInt(c.parentPid)) + "\n"))
               + ("Page Directory: 0x" + (("0x" + HexDigits(c.pageDir, 8)) + "\n"))
               + ("Kernel ESP: 0x" + (("0x" + HexDigits(c.kernelTop, 8)) + "\n"))
               + ("User ESP: 0x" + (("0x" + HexDigits(c.userTop, 8)) + "\n"))
  {}

  lemma MissingSpelled(pid: nat)
    ensures MissingText(pid) == "Process " + (DecimalText(AsInt(pid)) + " not found\n")
  {}
}
