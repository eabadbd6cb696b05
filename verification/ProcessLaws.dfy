/** What schedule, create_process and terminate_process do, said of the processes themselves. */
module ProcessLaws {
  import opened Machine
  import opened ProcessTable

  // ---- Priority scheduling ----------------------------------------------------------------

  /** READY, and no READY process has a lower priority value, nor the same and a lower pid. */
  ghost predicate Foremost(ps: seq<Proc>, p: Proc) {
    && p in ps && p.state == Ready
    && forall q | q in ps && q.state == Ready :: p.priority < q.priority || (p.priority == q.priority && p.pid <= q.pid)
  }

  /** Under priority scheduling the foremost READY process becomes current, if there is one;
      if not, the current process stays. Nothing else changes. */
  lemma PriorityRuns(t: Table)
    requires Inv(t) && t.policy == Priority
    ensures var t' := Step(t, Schedule);
            && t' == t.(current := t'.current)
            && if exists q :: q in t.procs && q.state == Ready
               then exists p :: Foremost(t.procs, p) && t'.current == p.pid
               else t'.current == t.current
  {
    var ps, h := t.procs, BestReady(t.procs, |t.procs|);
    PriorityPicksLeast(ps);
    if h < |ps| {
      assert Foremost(ps, ps[h]);
    }
  }

  /** The same after every run from boot that hands out fewer than 2^32 pids. */
  lemma PriorityRunsAlways(ops: seq<Op>)
    requires Legal(BOOT, ops) && 1 + PidsUsed(ops) < 0x1_0000_0000 && Exec(BOOT, ops).policy == Priority
    ensures CurrentInRing(Exec(BOOT, ops))
    ensures var t := Exec(BOOT, ops); var c := Step(t, Schedule).current;
            if exists q :: q in t.procs && q.state == Ready
            then exists p :: Foremost(t.procs, p) && c == p.pid
            else c == t.current
  {
    AtEnd(ops);
    PriorityRuns(Exec(BOOT, ops));
  }

  lemma AtEnd(ops: seq<Op>)
    requires Legal(BOOT, ops) && 1 + PidsUsed(ops) < 0x1_0000_0000
    ensures Inv(Exec(BOOT, ops))
  {
    BootInv();
    RunKeepsInv(BOOT, ops);
    InvAtEnd(BOOT, ops);
  }

  lemma BootInv()
    ensures Inv(BOOT)
  {}

  // ---- Round robin -------------------------------------------------------------------------

  /** The process q places after index c, round the ring. */
  function Following(ps: seq<Proc>, c: nat, q: nat): Proc
    requires ps != []
  {
    ps[(c + q) % |ps|]
  }

  /** Under round robin and FCFS the next current process is the first READY one after the
      current, m places on round the ring; the search ends at the current process itself. */
  lemma RoundRobinRuns(t: Table, c: nat) returns (m: nat)
    requires Inv(t) && t.policy != Priority && c < |t.procs| && t.procs[c].pid == t.current
    ensures 1 <= m <= |t.procs| && Step(t, Schedule) == t.(current := Following(t.procs, c, m).pid)
    ensures m < |t.procs| ==> Following(t.procs, c, m).state == Ready
    ensures forall q | 1 <= q < m :: Following(t.procs, c, q).state != Ready
  {
    IndexIs(t.procs, c);
    m := SelectedIsFollowing(t.procs, c);
  }

  lemma SelectedIsFollowing(ps: seq<Proc>, c: nat) returns (m: nat)
    requires c < |ps|
    ensures 1 <= m <= |ps| && ps[SelectNext(ps, c)] == Following(ps, c, m)
    ensures m < |ps| ==> IsReady(Following(ps, c, m))
    ensures forall q | 1 <= q < m :: !IsReady(Following(ps, c, q))
  {
    var order, f := Order(ps, c), FirstReady(Order(ps, c));
    FirstReadyIsFirst(order);
    m := if f + 1 < |ps| then f + 1 else |ps|;
    OrderAt(ps, c, m);
    forall q | 1 <= q < m ensures !IsReady(Following(ps, c, q)) {
      OrderAt(ps, c, q);
      assert !IsReady(order[q - 1]);
    }
  }

  lemma OrderAt(ps: seq<Proc>, c: nat, q: nat)
    requires c < |ps| && 1 <= q <= |ps|
    ensures var i := if c + q < |ps| then c + q else c + q - |ps|;
            Following(ps, c, q) == ps[i] == Order(ps, c)[q - 1]
  {
    RemainderOnce(c + q, |ps|);
  }

  lemma RemainderOnce(a: nat, n: nat)
    requires 0 < n && a < 2 * n
    ensures a % n == if a < n then a else a - n
  {
    if a >= n { assert a % n == (a - n) % n; }
  }

  // ---- The other calls -------------------------------------------------------------------------

  /** Only schedule switches the current process, only set_scheduler_type the policy, and only
      create_process and terminate_process change who is in the ring. */
  lemma OthersStay(t: Table, op: Op)
    requires Inv(t)
    ensures var t' := Step(t, op);
            && (!op.Schedule? ==> t'.current == t.current)
            && t'.policy == (if op.SetPolicy? then op.policy else t.policy)
            && (op.Schedule? || op.SetPolicy? ==> t'.procs == t.procs)
            && (!op.Create? ==> t'.nextPid == t.nextPid)
  {}

  /** A new process is the last of the ring and READY, with the pid that was next and the
      priority asked for. Under priority scheduling it is the next to run if its value is lower
      than that of every READY process. */
  lemma CreatedRunsFirst(t: Table, priority: nat)
    requires Inv(t) && t.policy == Priority && t.nextPid + 1 < 0x1_0000_0000
    requires forall q | q in t.procs && q.state == Ready :: priority < q.priority
    ensures var t' := Step(t, Create(priority, Created));
            && t'.procs[..|t'.procs| - 1] == t.procs
            && t'.procs[|t'.procs| - 1] == Proc(t.nextPid, Ready, priority)
            && CurrentInRing(t') && Step(t', Schedule).current == t.nextPid
  {
    var t', p := Step(t, Create(priority, Created)), Proc(t.nextPid, Ready, priority);
    CreateKeepsInv(t, priority, Created);
    PriorityRuns(t');
    assert p in t'.procs && p.state == Ready;
    var f :| Foremost(t'.procs, f) && Step(t', Schedule).current == f.pid;
    assert f in t.procs || f == p;
  }

  /** And under round robin it has its turn within as many calls as there are READY processes
      then. */
  lemma CreatedHasTurn(t: Table, priority: nat) returns (k: nat)
    requires Inv(t) && t.policy != Priority && t.nextPid + 1 < 0x1_0000_0000
    ensures var t' := Step(t, Create(priority, Created));
            Inv(t') && 1 <= k <= CountReady(t'.procs) && ScheduleN(t', k).current == t.nextPid
  {
    var t' := Step(t, Create(priority, Created));
    CreateKeepsInv(t, priority, Created);
    k := BoundedWaiting(t', |t.procs|);
  }
}
