/** The process table of process.c as a value: the processes in ring order from
    `process_list`, the pid of the current one, and what each call does to it. */
module ProcessTable {
  import opened Machine

  datatype State = Running | Ready | Blocked | Zombie | Terminated

  datatype Policy = RoundRobin | Priority | Fcfs

  datatype Proc = Proc(pid: nat, state: State, priority: nat)

  datatype Table = Table(procs: seq<Proc>, current: nat, nextPid: nat, policy: Policy)

  // ---- Round robin ----------------------------------------------------------------

  predicate IsReady(p: Proc) { p.state == Ready }

  /** The processes in the order the search visits them: from the one after index c
      round the ring to c itself. */
  function Order(ps: seq<Proc>, c: nat): seq<Proc>
    requires c < |ps|
  {
    ps[c + 1..] + ps[..c + 1]
  }

  function FirstReady(ps: seq<Proc>): (m: nat)
    ensures m <= |ps|
  {
    if ps == [] || IsReady(ps[0]) then 0 else 1 + FirstReady(ps[1..])
  }

  lemma {:induction false} FirstReadyIsFirst(ps: seq<Proc>)
    ensures var m := FirstReady(ps);
            (m < |ps| ==> IsReady(ps[m])) && forall i | 0 <= i < m :: !IsReady(ps[i])
  {
    if ps != [] && !IsReady(ps[0]) {
      FirstReadyIsFirst(ps[1..]);
      var m := FirstReady(ps[1..]);
      assert forall i | 0 < i < m + 1 :: ps[i] == ps[1..][i - 1];
    }
  }

  function Rotate(ps: seq<Proc>, k: nat): seq<Proc>
    requires k <= |ps|
  {
    ps[k..] + ps[..k]
  }

  /** The order once the process at position m is current. */
  function Advance(order: seq<Proc>, m: nat): (r: seq<Proc>)
    ensures |r| == |order|
  {
    if m + 1 < |order| then Rotate(order, m + 1) else order
  }

  /** One call of schedule under round robin: the last process of the order is current. */
  function RoundRobinStep(order: seq<Proc>): (r: seq<Proc>)
    ensures |r| == |order|
  {
    Advance(order, FirstReady(order))
  }

  function Iterate(order: seq<Proc>, k: nat): (r: seq<Proc>)
    ensures |r| == |order|
    decreases k
  {
    if k == 0 then order else Iterate(RoundRobinStep(order), k - 1)
  }

  function CountReady(ps: seq<Proc>): nat {
    if ps == [] then 0 else (if IsReady(ps[0]) then 1 else 0) + CountReady(ps[1..])
  }

  lemma {:induction false} CountReadyConcat(a: seq<Proc>, b: seq<Proc>)
    ensures CountReady(a + b) == CountReady(a) + CountReady(b)
  {
    if a == [] {
      assert a + b == b;
    } else {
      assert (a + b)[1..] == a[1..] + b;
      CountReadyConcat(a[1..], b);
    }
  }

  lemma {:induction false} NoneReady(ps: seq<Proc>)
    requires forall i | 0 <= i < |ps| :: !IsReady(ps[i])
    ensures CountReady(ps) == 0
  {
    if ps != [] { NoneReady(ps[1..]); }
  }

  lemma RotateTwice(ps: seq<Proc>, a: nat, b: nat)
    requires a + b <= |ps|
    ensures Rotate(Rotate(ps, a), b) == Rotate(ps, a + b)
  {}

  /** The process at position j of the order becomes current after exactly as many
      calls as there are READY processes up to and including it. */
  lemma {:induction false} TurnComes(order: seq<Proc>, j: nat)
    requires j < |order| && IsReady(order[j])
    ensures Iterate(order, CountReady(order[..j + 1])) == Rotate(order, j + 1)
    decreases j
  {
    var m := FirstReady(order);
    CountFromFirst(order, j);
    StepRotates(order);
    IterateUnfolds(order, CountReady(order[..j + 1]));
    if m == j {
      NoneReady(order[m + 1..j + 1]);
    } else {
      RotatedAt(order, m + 1, j);
      TurnComes(Rotate(order, m + 1), j - m - 1);
      RotateTwice(order, m + 1, j - m);
    }
  }

  lemma {:induction false} StepRotates(order: seq<Proc>)
    requires FirstReady(order) < |order|
    ensures RoundRobinStep(order) == Rotate(order, FirstReady(order) + 1)
  {
    AdvanceRotates(order, FirstReady(order));
  }

  lemma AdvanceRotates(ps: seq<Proc>, m: nat)
    requires m < |ps|
    ensures Advance(ps, m) == Rotate(ps, m + 1)
  {
    if m + 1 == |ps| { assert Rotate(ps, |ps|) == ps; }
  }

  lemma RotatedAt(ps: seq<Proc>, k: nat, j: nat)
    requires k <= j < |ps|
    ensures Rotate(ps, k)[j - k] == ps[j] && Rotate(ps, k)[..j - k + 1] == ps[k..j + 1]
  {}

  lemma {:induction false} CountFromFirst(order: seq<Proc>, j: nat)
    requires j < |order| && IsReady(order[j])
    ensures var m := FirstReady(order);
            m <= j && CountReady(order[..j + 1]) == 1 + CountReady(order[m + 1..j + 1])
  {
    var m := FirstReady(order);
    FirstReadyIsFirst(order);
    NoneReady(order[..m]);
    CountReadyConcat(order[..m], order[m..j + 1]);
    assert order[..j + 1] == order[..m] + order[m..j + 1];
    assert order[m..j + 1][1..] == order[m + 1..j + 1];
  }

  lemma {:induction false} CountReadyOrder(ps: seq<Proc>, c: nat)
    requires c < |ps|
    ensures CountReady(Order(ps, c)) == CountReady(ps)
  {
    assert ps == ps[..c + 1] + ps[c + 1..];
    CountReadyConcat(ps[..c + 1], ps[c + 1..]);
    CountReadyConcat(ps[c + 1..], ps[..c + 1]);
  }

  lemma {:induction false} CountReadyPrefix(ps: seq<Proc>, i: nat)
    requires i < |ps| && IsReady(ps[i])
    ensures 1 <= CountReady(ps[..i + 1]) <= CountReady(ps)
  {
    assert ps == ps[..i + 1] + ps[i + 1..];
    CountReadyConcat(ps[..i + 1], ps[i + 1..]);
    assert ps[..i + 1] == ps[..i] + [ps[i]];
    CountReadyConcat(ps[..i], [ps[i]]);
  }

  /** Position of the process at ring index j in the order after index c. */
  function PositionOf(ps: seq<Proc>, c: nat, j: nat): nat
    requires c < |ps| && j < |ps|
  {
    if j > c then j - c - 1 else |ps| - c - 1 + j
  }

  lemma OrderAfterTurn(ps: seq<Proc>, c: nat, j: nat)
    requires c < |ps| && j < |ps|
    ensures var i := PositionOf(ps, c, j);
            i < |ps| && Order(ps, c)[i] == ps[j] && Rotate(Order(ps, c), i + 1) == Order(ps, j)
  {}

  lemma TurnsInRingOrder(order: seq<Proc>, i: nat, j: nat)
    requires i < j < |order| && IsReady(order[j])
    ensures CountReady(order[..i + 1]) < CountReady(order[..j + 1])
  {
    assert order[..j + 1] == order[..i + 1] + order[i + 1..j] + [order[j]];
    CountReadyConcat(order[..i + 1] + order[i + 1..j], [order[j]]);
    CountReadyConcat(order[..i + 1], order[i + 1..j]);
  }

  /** Every READY process becomes current after at most as many calls as there are
      READY processes. */
  lemma TurnIsBounded(ps: seq<Proc>, c: nat, j: nat) returns (k: nat)
    requires c < |ps| && j < |ps| && IsReady(ps[j])
    ensures 1 <= k <= CountReady(ps)
    ensures Iterate(Order(ps, c), k) == Order(ps, j)
  {
    var i := PositionOf(ps, c, j);
    OrderAfterTurn(ps, c, j);
    k := CountReady(Order(ps, c)[..i + 1]);
    TurnComes(Order(ps, c), i);
    CountReadyPrefix(Order(ps, c), i);
    CountReadyOrder(ps, c);
  }

  /** Index of the process that schedule makes current under round robin and FCFS. */
  function SelectNext(ps: seq<Proc>, c: nat): (k: nat)
    requires c < |ps|
    ensures k < |ps|
  {
    var m := FirstReady(Order(ps, c));
    if m + 1 >= |ps| then c else if c + 1 + m < |ps| then c + 1 + m else c + 1 + m - |ps|
  }

  lemma SelectNextIsStep(ps: seq<Proc>, c: nat)
    requires c < |ps|
    ensures Order(ps, SelectNext(ps, c)) == RoundRobinStep(Order(ps, c))
  {
    var m := FirstReady(Order(ps, c));
    if m + 1 < |ps| {
      assert PositionOf(ps, c, SelectNext(ps, c)) == m;
      OrderAfterTurn(ps, c, SelectNext(ps, c));
    }
  }

  // ---- Priority scheduling ------------------------------------------------------------

  predicate Better(a: Proc, b: Proc) { a.priority < b.priority }

  /** Index of the first READY process of least priority value, |ps| if none is READY. */
  function BestReady(ps: seq<Proc>, n: nat): (h: nat)
    requires n <= |ps|
    ensures h <= |ps| && (h < |ps| ==> h < n && IsReady(ps[h]))
  {
    if n == 0 then |ps|
    else
      var h := BestReady(ps, n - 1);
      if IsReady(ps[n - 1]) && (h == |ps| || Better(ps[n - 1], ps[h])) then n - 1 else h
  }

  lemma {:induction false} BestReadyIsBest(ps: seq<Proc>, n: nat)
    requires n <= |ps|
    ensures var h := BestReady(ps, n);
            && (h == |ps| ==> forall i | 0 <= i < n :: !IsReady(ps[i]))
            && (h < |ps| ==> forall i | 0 <= i < n && IsReady(ps[i]) :: ps[h].priority <= ps[i].priority)
            && (h < |ps| ==> forall i | 0 <= i < h && IsReady(ps[i]) :: ps[h].priority < ps[i].priority)
  {
    if n > 0 { BestReadyIsBest(ps, n - 1); }
  }

  predicate PidsIncrease(ps: seq<Proc>) {
    forall i, j | 0 <= i < j < |ps| :: ps[i].pid < ps[j].pid
  }

  /** Lexicographic order on (priority value, pid). */
  predicate Before(a: Proc, b: Proc) {
    a.priority < b.priority || (a.priority == b.priority && a.pid <= b.pid)
  }

  /** Priority scheduling picks the least READY process in (priority value, pid). */
  lemma PriorityPicksLeast(ps: seq<Proc>)
    requires PidsIncrease(ps)
    ensures var h := BestReady(ps, |ps|);
            && (h < |ps| <==> exists i :: 0 <= i < |ps| && IsReady(ps[i]))
            && (h < |ps| ==> IsReady(ps[h]) && forall i | 0 <= i < |ps| && IsReady(ps[i]) :: Before(ps[h], ps[i]))
  {
    var h := BestReady(ps, |ps|);
    BestReadyIsBest(ps, |ps|);
    if h < |ps| {
      forall i | 0 <= i < |ps| && IsReady(ps[i]) ensures Before(ps[h], ps[i]) {
        assert i != h ==> (i < h && ps[h].priority < ps[i].priority) || ps[h].pid < ps[i].pid;
      }
    }
  }

  // ---- Runs ------------------------------------------------------------------------

  /** Which of the three allocations of create_process succeeds. */
  datatype Outcome = NoPcb | NoPageDir | NoStack | Created

  datatype Op = Create(priority: nat, outcome: Outcome) | Terminate(pid: nat) | Schedule | SetPolicy(policy: Policy)

  function IndexOfPid(ps: seq<Proc>, pid: nat): (k: nat)
    ensures k <= |ps| && (k < |ps| ==> ps[k].pid == pid)
  {
    if ps == [] || ps[0].pid == pid then 0 else 1 + IndexOfPid(ps[1..], pid)
  }

  lemma {:induction false} NoneBefore(ps: seq<Proc>, pid: nat)
    ensures forall i | 0 <= i < IndexOfPid(ps, pid) :: ps[i].pid != pid
  {
    if ps != [] && ps[0].pid != pid {
      NoneBefore(ps[1..], pid);
      assert forall i | 0 < i < |ps| :: ps[i] == ps[1..][i - 1];
    }
  }

  predicate CurrentInRing(t: Table) { IndexOfPid(t.procs, t.current) < |t.procs| }

  /** Index of the process that is current after schedule. */
  function Selected(t: Table, c: nat): (k: nat)
    requires c < |t.procs|
    ensures k < |t.procs|
  {
    if t.policy == Priority then
      var h := BestReady(t.procs, |t.procs|);
      if h < |t.procs| then h else c
    else SelectNext(t.procs, c)
  }

  function Step(t: Table, op: Op): Table
    requires CurrentInRing(t)
  {
    match op
    case Create(prio, NoPcb) => t
    case Create(prio, Created) =>
      t.(procs := t.procs + [Proc(t.nextPid, Ready, prio)], nextPid := (t.nextPid + 1) % WORD)
    case Create(prio, _) => t.(nextPid := (t.nextPid + 1) % WORD)
    case Terminate(pid) =>
      var k := IndexOfPid(t.procs, pid);
      if pid == 0 || k == |t.procs| then t else t.(procs := t.procs[..k] + t.procs[k + 1..])
    case Schedule => t.(current := t.procs[Selected(t, IndexOfPid(t.procs, t.current))].pid)
    case SetPolicy(policy) => t.(policy := policy)
  }

  /** The ring read from process_list strictly increases in pid from the kernel
      process on, pids stay below next_pid, a 32-bit word, and the current process is in
      the ring. */
  predicate Inv(t: Table) {
    match t
    case Table(procs, _, nextPid, _) =>
      && |procs| > 0 && procs[0].pid == 0 && PidsIncrease(procs)
      && (forall i | 0 <= i < |procs| :: procs[i].pid < nextPid) && nextPid < WORD
      && CurrentInRing(t)
  }

  const BOOT := Table([Proc(0, Running, 10)], 0, 1, RoundRobin)

  lemma {:induction false} IndexIs(ps: seq<Proc>, i: nat)
    requires PidsIncrease(ps) && i < |ps|
    ensures IndexOfPid(ps, ps[i].pid) == i
  {
    var k := IndexOfPid(ps, ps[i].pid);
    NoneBefore(ps, ps[i].pid);
    assert k <= i && ps[k].pid == ps[i].pid;
  }

  /** terminate_process keeps the invariant exactly when it is not asked to terminate
      the current process, or is asked for the kernel process. */
  lemma {:induction false} TerminateKeepsInv(t: Table, pid: nat)
    requires Inv(t)
    ensures Inv(Step(t, Terminate(pid))) <==> pid == 0 || pid != t.current
  {
    var k := IndexOfPid(t.procs, pid);
    if pid != 0 && k < |t.procs| { RemovalKeepsInv(t, k); }
  }

  lemma {:induction false} RemovalKeepsInv(t: Table, k: nat)
    requires Inv(t) && 0 < k < |t.procs|
    ensures Inv(t.(procs := t.procs[..k] + t.procs[k + 1..])) <==> t.procs[k].pid != t.current
  {
    RemoveOne(t.procs, k);
    var c := IndexOfPid(t.procs, t.current);
    if c != k { RemoveOther(t.procs, k, c); }
  }

  lemma {:induction false} RemoveOther(ps: seq<Proc>, k: nat, c: nat)
    requires PidsIncrease(ps) && k < |ps| && c < |ps| && c != k
    ensures IndexOfPid(ps[..k] + ps[k + 1..], ps[c].pid) == if c < k then c else c - 1
  {
    RemoveOne(ps, k);
    IndexIs(ps[..k] + ps[k + 1..], if c < k then c else c - 1);
  }

  lemma RemoveOne(ps: seq<Proc>, k: nat)
    requires PidsIncrease(ps) && k < |ps|
    ensures var r := ps[..k] + ps[k + 1..];
            && PidsIncrease(r) && (forall i | 0 <= i < |r| :: r[i] == ps[if i < k then i else i + 1])
            && IndexOfPid(r, ps[k].pid) == |r|
  {
    var r := ps[..k] + ps[k + 1..];
    assert forall i | 0 <= i < |r| :: r[i].pid != ps[k].pid;
  }

  lemma ScheduleKeepsInv(t: Table)
    requires Inv(t)
    ensures Inv(Step(t, Schedule))
  {
    IndexIs(t.procs, Selected(t, IndexOfPid(t.procs, t.current)));
  }

  /** create_process keeps the invariant exactly when it uses up no pid or the counter does
      not wrap. */
  lemma CreateKeepsInv(t: Table, priority: nat, outcome: Outcome)
    requires Inv(t)
    ensures Inv(Step(t, Create(priority, outcome))) <==> outcome == NoPcb || t.nextPid + 1 < WORD
  {
    if outcome == Created && t.nextPid + 1 < WORD {
      var c := IndexOfPid(t.procs, t.current);
      var ps := t.procs + [Proc(t.nextPid, Ready, priority)];
      assert ps[c] == t.procs[c];
      IndexIs(ps, c);
    }
  }

  /** Once the counter has wrapped, the next process gets the pid of the kernel process. */
  lemma PidsRepeat(t: Table, a: nat, b: nat)
    requires Inv(t) && t.nextPid + 1 == WORD
    ensures var t' := Step(t, Create(a, Created));
            && CurrentInRing(t') && t'.procs[0].pid == 0
            && var t'' := Step(t', Create(b, Created)); t''.procs[|t''.procs| - 1].pid == 0 && |t''.procs| > 1
  {
    AppendKeepsCurrent(t.procs, Proc(t.nextPid, Ready, a), t.current);
  }

  lemma {:induction false} AppendKeepsCurrent(ps: seq<Proc>, p: Proc, pid: nat)
    requires IndexOfPid(ps, pid) < |ps|
    ensures IndexOfPid(ps + [p], pid) == IndexOfPid(ps, pid)
  {
    if ps[0].pid != pid {
      assert (ps + [p])[1..] == ps[1..] + [p];
      AppendKeepsCurrent(ps[1..], p, pid);
    }
  }

  /** terminate_process removes exactly the process with the pid, and never the kernel's. */
  lemma {:induction false} TerminateRemoves(t: Table, pid: nat, p: Proc)
    requires Inv(t)
    ensures p in Step(t, Terminate(pid)).procs <==> p in t.procs && (pid == 0 || p.pid != pid)
  {
    var ps, k := t.procs, IndexOfPid(t.procs, pid);
    if pid != 0 {
      NoneBefore(ps, pid);
      if k < |ps| {
        RemoveOne(ps, k);
        assert ps == ps[..k] + [ps[k]] + ps[k + 1..];
      }
    }
  }

  /** A run that never terminates the current process. */
  predicate Legal(t: Table, ops: seq<Op>)
    decreases |ops|
  {
    ops == [] ||
    (CurrentInRing(t) && (ops[0].Terminate? ==> ops[0].pid == 0 || ops[0].pid != t.current) &&
     Legal(Step(t, ops[0]), ops[1..]))
  }

  function Exec(t: Table, ops: seq<Op>): Table
    requires Legal(t, ops)
    decreases |ops|
  {
    if ops == [] then t else Exec(Step(t, ops[0]), ops[1..])
  }

  /** How many calls use up a pid. */
  function PidsUsed(ops: seq<Op>): nat {
    if ops == [] then 0 else PidOf(ops[0]) + PidsUsed(ops[1..])
  }

  /** The invariant holds after every call of the run. */
  predicate InvThroughout(t: Table, ops: seq<Op>)
    requires Legal(t, ops)
    decreases |ops|
  {
    Inv(t) && (ops != [] ==> InvThroughout(Step(t, ops[0]), ops[1..]))
  }

  lemma StepKeepsInv(t: Table, op: Op)
    requires Inv(t) && (op.Terminate? ==> op.pid == 0 || op.pid != t.current)
    ensures Inv(Step(t, op)) <==> (op.Create? && op.outcome != NoPcb ==> t.nextPid + 1 < WORD)
  {
    match op {
      case Create(priority, outcome) => CreateKeepsInv(t, priority, outcome);
      case Terminate(pid) => TerminateKeepsInv(t, pid);
      case Schedule => ScheduleKeepsInv(t);
      case SetPolicy(_) =>
    }
  }

  function PidOf(op: Op): nat { if op.Create? && op.outcome != NoPcb then 1 else 0 }

  lemma StepUsesPid(t: Table, op: Op)
    requires Inv(t) && (op.Terminate? ==> op.pid == 0 || op.pid != t.current)
    ensures Inv(Step(t, op)) <==> t.nextPid + PidOf(op) < WORD
    ensures Inv(Step(t, op)) ==> Step(t, op).nextPid == t.nextPid + PidOf(op)
  {
    StepKeepsInv(t, op);
  }

  /** A ring that increases in pid and holds the current process stays so throughout a run
      exactly as long as fewer than 2^32 pids have been handed out. */
  lemma {:induction false} RunKeepsInv(t: Table, ops: seq<Op>)
    requires Inv(t) && Legal(t, ops)
    ensures InvThroughout(t, ops) <==> t.nextPid + PidsUsed(ops) < WORD
    decreases |ops|
  {
    if ops != [] {
      var t', rest := Step(t, ops[0]), ops[1..];
      StepUsesPid(t, ops[0]);
      ThroughoutUnfolds(t, ops);
      if Inv(t') { RunKeepsInv(t', rest); } else { BrokenStaysBroken(t', rest); }
    }
  }

  lemma {:induction false} ThroughoutUnfolds(t: Table, ops: seq<Op>)
    requires Inv(t) && ops != [] && Legal(t, ops)
    ensures InvThroughout(t, ops) <==> InvThroughout(Step(t, ops[0]), ops[1..])
    ensures PidsUsed(ops) == PidOf(ops[0]) + PidsUsed(ops[1..])
  {}

  lemma {:induction false} BrokenStaysBroken(t: Table, ops: seq<Op>)
    requires Legal(t, ops) && !Inv(t)
    ensures !InvThroughout(t, ops)
  {}

  lemma {:induction false} InvAtEnd(t: Table, ops: seq<Op>)
    requires Legal(t, ops) && InvThroughout(t, ops)
    ensures Inv(Exec(t, ops))
    decreases |ops|
  {
    if ops != [] { InvAtEnd(Step(t, ops[0]), ops[1..]); }
  }

  const CHILD := Proc(1, Ready, 5)

  lemma FirstChild()
    ensures var t := Step(BOOT, Create(5, Created));
            Inv(t) && t.procs == [BOOT.procs[0], CHILD] && Step(t, Schedule) == t.(current := 1)
  {
    var t := Step(BOOT, Create(5, Created));
    CreateKeepsInv(BOOT, 5, Created);
    assert t.procs == [BOOT.procs[0], CHILD] && IndexOfPid(t.procs, 0) == 0;
    assert Order(t.procs, 0) == [CHILD, BOOT.procs[0]];
  }

  /** A run from boot after which terminating the current process leaves it in no ring: a
      process is created and scheduled. */
  lemma CurrentLost() returns (ops: seq<Op>)
    ensures Legal(BOOT, ops)
    ensures var t := Exec(BOOT, ops); Inv(t) && t.current == 1 && !CurrentInRing(Step(t, Terminate(1)))
  {
    var t := Step(BOOT, Create(5, Created));
    FirstChild();
    ScheduleKeepsInv(t);
    ops := [Create(5, Created), Schedule];
    assert ops[1..] == [Schedule] && [Schedule][1..] == [];
    ChildGone(t.(current := 1));
  }

  lemma {:induction false} ChildGone(t: Table)
    requires Inv(t) && t.procs == [BOOT.procs[0], CHILD] && t.current == 1
    ensures !CurrentInRing(Step(t, Terminate(1)))
  {
    assert IndexOfPid(t.procs, 1) == 1;
    RemoveOne(t.procs, 1);
  }

  /** k calls of schedule. */
  function ScheduleN(t: Table, k: nat): (r: Table)
    requires Inv(t)
    decreases k
  {
    ScheduleKeepsInv(t);
    if k == 0 then t else ScheduleN(Step(t, Schedule), k - 1)
  }

  /** Ring index of the current process after k round-robin calls. */
  function SelectN(ps: seq<Proc>, c: nat, k: nat): (r: nat)
    requires c < |ps|
    ensures r < |ps|
    decreases k
  {
    if k == 0 then c else SelectN(ps, SelectNext(ps, c), k - 1)
  }

  lemma IterateUnfolds(order: seq<Proc>, k: nat)
    requires k > 0
    ensures Iterate(order, k) == Iterate(RoundRobinStep(order), k - 1)
  {}

  lemma {:induction false} SelectNIsIterate(ps: seq<Proc>, c: nat, k: nat)
    requires c < |ps|
    ensures Order(ps, SelectN(ps, c, k)) == Iterate(Order(ps, c), k)
    decreases k
  {
    if k > 0 {
      SelectNextIsStep(ps, c);
      SelectNIsIterate(ps, SelectNext(ps, c), k - 1);
      IterateUnfolds(Order(ps, c), k);
    }
  }

  lemma ScheduleIsSelect(t: Table)
    requires Inv(t) && t.policy != Priority
    ensures var c := SelectNext(t.procs, IndexOfPid(t.procs, t.current));
            && Step(t, Schedule) == t.(current := t.procs[c].pid)
            && Inv(t.(current := t.procs[c].pid)) && IndexOfPid(t.procs, t.procs[c].pid) == c
  {
    ScheduleKeepsInv(t);
    IndexIs(t.procs, SelectNext(t.procs, IndexOfPid(t.procs, t.current)));
  }

  lemma ScheduleNUnfolds(t: Table, k: nat)
    requires Inv(t) && Inv(Step(t, Schedule)) && k > 0
    ensures ScheduleN(t, k) == ScheduleN(Step(t, Schedule), k - 1)
  {}

  lemma {:induction false} ScheduleNIsSelectN(t: Table, c: nat, k: nat)
    requires Inv(t) && t.policy != Priority && c == IndexOfPid(t.procs, t.current)
    ensures ScheduleN(t, k).current == t.procs[SelectN(t.procs, c, k)].pid
    decreases k
  {
    if k > 0 {
      ScheduleIsSelect(t);
      ScheduleNUnfolds(t, k);
      ScheduleNIsSelectN(Step(t, Schedule), SelectNext(t.procs, c), k - 1);
    }
  }

  /** Bounded waiting: under round robin, and FCFS which is the same code, with no
      creation or termination every READY process becomes current within as many
      schedule calls as there are READY processes. */
  lemma BoundedWaiting(t: Table, j: nat) returns (k: nat)
    requires Inv(t) && t.policy != Priority && j < |t.procs| && IsReady(t.procs[j])
    ensures 1 <= k <= CountReady(t.procs) && ScheduleN(t, k).current == t.procs[j].pid
  {
    var c := IndexOfPid(t.procs, t.current);
    k := TurnIsBounded(t.procs, c, j);
    ScheduleNIsSelectN(t, c, k);
    SelectNIsIterate(t.procs, c, k);
    LastOfOrder(t.procs, SelectN(t.procs, c, k));
    LastOfOrder(t.procs, j);
  }

  lemma LastOfOrder(ps: seq<Proc>, c: nat)
    requires c < |ps|
    ensures Order(ps, c)[|ps| - 1] == ps[c]
  {}
}
