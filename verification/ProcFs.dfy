/** The contents of /proc files, built by a chain of snprintf calls into one buffer. */
module ProcFs {
  import opened Machine
  import opened Formatter
  import T = TaskSpec
  import Q = TaskQueues

  /** The buffer holds the text as far as size - 1 characters go, then a NUL. */
  ghost predicate Filled(buf: seq<char>, size: nat, offset: nat, text: string) {
    Prefix(buf, 0, size, offset, text) && buf[offset] == '\0'
  }

  lemma PrefixesChain(buf: seq<char>, buf': seq<char>, size: nat, offset: nat, n: nat, text: string, line: string)
    requires Prefix(buf, 0, size, offset, text) && |buf'| == |buf|
    requires offset <= size - 1 && Prefix(buf', offset, size - offset, n, line)
    requires forall k | 0 <= k < offset :: buf'[k] == buf[k]
    ensures Prefix(buf', 0, size, offset + n, text + line)
  {
    assert buf'[0..offset] == buf[0..offset];
    assert buf'[0..offset + n] == buf'[0..offset] + buf'[offset..offset + n];
    if offset < size - 1 {
      assert (text + line)[..offset + n] == text + line[..n];
    } else {
      assert (text + line)[..offset] == text[..offset];
    }
  }

  /** offset += snprintf(buf + offset, buf_size - offset, ...). However long the text, the
      offset stays inside the buffer, so the size left for the next call is never zero and
      the tests offset >= buf_size never succeed. */
  method Append(buf: array<char>, size: nat, offset: nat, format: string, args: seq<Arg>, ghost text: string)
    returns (next: nat)
    requires Filled(buf[..], size, offset, text) && Matches(format, args)
    modifies buf
    ensures Filled(buf[..], size, next, text + Render(format, args)) && next < size
  {
    ghost var before := buf[..];
    var n := Snprintf(buf, offset, size - offset, format, args);
    PrefixesChain(before, buf[..], size, offset, n, text, Render(format, args));
    next := offset + n;
  }

  // ---- /proc/ps ------------------------------------------------------------------------

  /** A 32-bit word passed to %d. */
  function AsInt(u: nat): int { var w := u % WORD; if w > INT_MAX then w - WORD else w }

  function StateName(s: T.TaskState): string {
    match s
    case Ready => "READY"
    case Running => "RUNNING"
    case Blocked => "BLOCKED"
    case Zombie => "ZOMBIE"
  }

  const PS_HEADER := "PID\tSTATE\tNAME\tPRIORITY\tTIME\t\n"
  const PS_LINE := "%d\t%s\t%s\t%d\t%d\t\n"

  function LineArgs(t: T.Task, name: string): seq<Arg> {
    [IntArg(AsInt(t.pid)), StrArg(StateName(t.state)), StrArg(name), IntArg(AsInt(t.priority)), IntArg(AsInt(t.runtime))]
  }

  /** The format of a line of tab-terminated fields. */
  function FieldFormat(args: seq<Arg>): string {
    if args == [] then "\n" else (if args[0].IntArg? then "%d\t" else "%s\t") + FieldFormat(args[1..])
  }

  /** A number as a signed decimal, a string as it is. */
  function FieldText(a: Arg): string
    requires IsField(a)
  {
    if a.IntArg? then DecimalText(a.v) else a.s
  }

  predicate IsField(a: Arg) { (a.IntArg? && INT_MIN <= a.v <= INT_MAX) || a.StrArg? }

  function FieldsText(args: seq<Arg>): string
    requires forall i | 0 <= i < |args| :: IsField(args[i])
  {
    if args == [] then "\n" else FieldText(args[0]) + ("\t" + FieldsText(args[1..]))
  }

  /** One line of /proc/ps: pid, state, name, priority and runtime, each before a tab. */
  function LineText(t: T.Task, name: string): string { FieldsText(LineArgs(t, name)) }

  lemma RenderChar(c: char, format: string, args: seq<Arg>)
    requires c != '%' && Matches(format, args)
    ensures Matches([c] + format, args) && Render([c] + format, args) == [c] + Render(format, args)
  {
    assert ([c] + format)[1..] == format;
  }

  lemma RenderArg(f: char, format: string, a: Arg, args: seq<Arg>)
    requires Matches(format, args) && TakesArg(f) && Matches(['%', f], [a])
    ensures Matches(['%', f], [a] + args) && Matches(['%', f] + format, [a] + args)
    ensures Render(['%', f] + format, [a] + args) == Piece(f, [a] + args) + Render(format, args)
  {
    assert ['%', f][2..] == [];
    assert (['%', f] + format)[2..] == format && ([a] + args)[1..] == args;
    RenderUnfolds(['%', f] + format, [a] + args);
  }

  lemma RenderNumber(v: int, format: string, args: seq<Arg>)
    requires Matches(format, args) && INT_MIN <= v <= INT_MAX
    ensures Matches("%d" + format, [IntArg(v)] + args)
    ensures Render("%d" + format, [IntArg(v)] + args) == DecimalText(v) + Render(format, args)
  {
    assert ['%', 'd'][2..] == [];
    RenderArg('d', format, IntArg(v), args);
  }

  lemma RenderString(t: string, format: string, args: seq<Arg>)
    requires Matches(format, args)
    ensures Matches("%s" + format, [StrArg(t)] + args)
    ensures Render("%s" + format, [StrArg(t)] + args) == t + Render(format, args)
  {
    assert ['%', 's'][2..] == [];
    RenderArg('s', format, StrArg(t), args);
  }

  /** What each conversion prints before the rest of the format. */
  lemma ConversionLaws(format: string, args: seq<Arg>, u: nat, c: char, f: char)
    requires Matches(format, args) && u < 0x1_0000_0000 && f !in {'d', 'x', 's', 'c'}
    ensures Matches("%x" + format, [WordArg(u)] + args) && Matches("%c" + format, [CharArg(c)] + args)
    ensures Matches("%s" + format, [NullArg] + args) && Matches(['%', f] + format, args)
    ensures Render("%x" + format, [WordArg(u)] + args) == "0x" + HexDigits(u, 8) + Render(format, args)
    ensures Render("%c" + format, [CharArg(c)] + args) == [c] + Render(format, args)
    ensures Render("%s" + format, [NullArg] + args) == "(null)" + Render(format, args)
    ensures Render(['%', f] + format, args) == [f] + Render(format, args)
  {
    assert ['%', 'x'][2..] == [] && ['%', 'c'][2..] == [] && ['%', 's'][2..] == [] && ['%', f][2..] == [];
    RenderArg('x', format, WordArg(u), args);
    RenderArg('c', format, CharArg(c), args);
    RenderArg('s', format, NullArg, args);
    assert (['%', f] + format)[2..] == format;
    RenderUnfolds(['%', f] + format, args);
  }

  lemma {:induction false} RenderPlain(format: string)
    requires '%' !in format
    ensures Matches(format, []) && Render(format, []) == format
  {
    if format != [] { RenderPlain(format[1..]); }
  }

  lemma NumberField(v: int, format: string, args: seq<Arg>)
    requires Matches(format, args) && INT_MIN <= v <= INT_MAX
    ensures Matches("%d\t" + format, [IntArg(v)] + args)
    ensures Render("%d\t" + format, [IntArg(v)] + args) == DecimalText(v) + ("\t" + Render(format, args))
  {
    RenderChar('\t', format, args);
    RenderNumber(v, "\t" + format, args);
    assert "%d" + ("\t" + format) == "%d\t" + format;
  }

  lemma StringField(t: string, format: string, args: seq<Arg>)
    requires Matches(format, args)
    ensures Matches("%s\t" + format, [StrArg(t)] + args)
    ensures Render("%s\t" + format, [StrArg(t)] + args) == t + ("\t" + Render(format, args))
  {
    RenderChar('\t', format, args);
    RenderString(t, "\t" + format, args);
    assert "%s" + ("\t" + format) == "%s\t" + format;
  }

  /** Such a format prints the fields. */
  lemma {:induction false} FieldsRender(args: seq<Arg>)
    requires forall i | 0 <= i < |args| :: IsField(args[i])
    ensures Matches(FieldFormat(args), args) && Render(FieldFormat(args), args) == FieldsText(args)
  {
    if args == [] {
      RenderPlain("\n");
    } else {
      FieldsRender(args[1..]);
      assert [args[0]] + args[1..] == args;
      if args[0].IntArg? {
        NumberField(args[0].v, FieldFormat(args[1..]), args[1..]);
      } else {
        StringField(args[0].s, FieldFormat(args[1..]), args[1..]);
      }
    }
  }

  lemma LineFormat(a: Arg, b: Arg, c: Arg, d: Arg, e: Arg)
    requires a.IntArg? && b.StrArg? && c.StrArg? && d.IntArg? && e.IntArg?
    ensures FieldFormat([a, b, c, d, e]) == PS_LINE
  {
    assert [e][1..] == [] && [d, e][1..] == [e] && [c, d, e][1..] == [d, e];
    assert [b, c, d, e][1..] == [c, d, e] && [a, b, c, d, e][1..] == [b, c, d, e];
    assert FieldFormat([e]) == "%d\t\n";
    assert FieldFormat([d, e]) == "%d\t%d\t\n";
    assert FieldFormat([c, d, e]) == "%s\t%d\t%d\t\n";
    assert FieldFormat([b, c, d, e]) == "%s\t%s\t%d\t%d\t\n";
  }

  /** The line format prints the fields of the task. It is passed as a variable so that the
      recursion of Render over the literal is not unrolled. */
  lemma LineRenders(t: T.Task, name: string, format: string)
    requires format == PS_LINE
    ensures Matches(format, LineArgs(t, name)) && Render(format, LineArgs(t, name)) == LineText(t, name)
  {
    var args := LineArgs(t, name);
    LineFormat(args[0], args[1], args[2], args[3], args[4]);
    assert args == [args[0], args[1], args[2], args[3], args[4]];
    FieldsRender(args);
  }

  /** The lines of one queue, and of the first n queues, in the order the loops visit them. */
  ghost function QueueText(s: T.Sched<Q.TaskBlock>, names: map<Q.TaskBlock, string>, q: seq<Q.TaskBlock>): string
    requires forall t | t in q :: t in s.tasks && t in names
  {
    if q == [] then "" else
      var t := q[|q| - 1];
      QueueText(s, names, q[..|q| - 1]) + LineText(s.tasks[t], names[t])
  }

  ghost predicate AllNamed(s: T.Sched<Q.TaskBlock>, names: map<Q.TaskBlock, string>) {
    && names.Keys == s.tasks.Keys && (s.current.Some? ==> s.current.value in s.tasks)
    && forall i: nat, t | i < |s.queues| && t in s.queues[i] :: t in s.tasks
  }

  ghost function QueuesText(s: T.Sched<Q.TaskBlock>, names: map<Q.TaskBlock, string>, n: nat): string
    requires AllNamed(s, names) && n <= |s.queues|
  {
    if n == 0 then "" else QueuesText(s, names, n - 1) + QueueText(s, names, s.queues[n - 1])
  }

  ghost function CurrentText(s: T.Sched<Q.TaskBlock>, names: map<Q.TaskBlock, string>): string
    requires AllNamed(s, names)
  {
    if s.current.Some? then LineText(s.tasks[s.current.value], names[s.current.value]) else ""
  }

  /** The whole of /proc/ps: header, the current task, the queued tasks. */
  ghost function PsText(s: T.Sched<Q.TaskBlock>, names: map<Q.TaskBlock, string>): string
    requires AllNamed(s, names)
  {
    PS_HEADER + CurrentText(s, names) + QueuesText(s, names, |s.queues|)
  }

  ghost function Names(sched: Q.Scheduler): map<Q.TaskBlock, string>
    reads sched`s, sched.s.tasks.Keys
  {
    map t | t in sched.s.tasks :: t.name
  }

  lemma ValidIsNamed(sched: Q.Scheduler)
    requires sched.Valid()
    ensures AllNamed(sched.s, Names(sched))
  {
    forall i: nat, t | i < |sched.s.queues| && t in sched.s.queues[i] ensures t in sched.s.tasks {
      assert T.QueueOk(sched.s, i);
    }
  }

  method AppendTask(buf: array<char>, size: nat, offset: nat, t: Q.TaskBlock, ghost text: string) returns (next: nat)
    requires Filled(buf[..], size, offset, text)
    modifies buf
    ensures Filled(buf[..], size, next, text + LineText(Q.Record(t), t.name))
  {
    var args := [IntArg(AsInt(t.pid)), StrArg(StateName(t.state)), StrArg(t.name),
                 IntArg(AsInt(t.priority)), IntArg(AsInt(t.totalRuntime))];
    assert args == LineArgs(Q.Record(t), t.name);
    var format := PS_LINE;
    LineRenders(Q.Record(t), t.name, format);
    next := Append(buf, size, offset, format, args, text);
  }

  /** One task of a queue, after the first k. */
  method AppendQueued(t: Q.TaskBlock, buf: array<char>, size: nat, offset: nat, ghost text: string,
                      ghost s: T.Sched<Q.TaskBlock>, ghost names: map<Q.TaskBlock, string>,
                      ghost q: seq<Q.TaskBlock>, ghost k: nat) returns (next: nat)
    requires k < |q| && q[k] == t && t in s.tasks && s.tasks[t] == Q.Record(t) && t in names && names[t] == t.name
    requires AllNamed(s, names) && forall x | x in q :: x in s.tasks
    requires Filled(buf[..], size, offset, text + QueueText(s, names, q[..k]))
    modifies buf
    ensures Filled(buf[..], size, next, text + QueueText(s, names, q[..k + 1]))
  {
    next := AppendTask(buf, size, offset, t, text + QueueText(s, names, q[..k]));
    assert q[..k + 1][..k] == q[..k] && q[..k + 1][k] == t;
    Regroup(text, QueueText(s, names, q[..k]), LineText(s.tasks[t], names[t]));
  }

  /** Walks one ready queue. */
  method AppendQueue(sched: Q.Scheduler, i: nat, buf: array<char>, size: nat, offset: nat, ghost text: string) returns (next: nat)
    requires sched.Valid() && i < T.MAX_PRIORITY && AllNamed(sched.s, Names(sched))
    requires Filled(buf[..], size, offset, text)
    modifies buf
    ensures Filled(buf[..], size, next, text + QueueText(sched.s, Names(sched), sched.s.queues[i]))
  {
    ghost var s, names, q := sched.s, Names(sched), sched.s.queues[i];
    assert sched.ListOk(i) && T.QueueOk(s, i);
    var task := sched.readyQueue[i];
    next := offset;
    ghost var k := 0;
    assert text + QueueText(s, names, q[..0]) == text;
    while task != null
      invariant 0 <= k <= |q| && task == if k < |q| then q[k] else null
      invariant Filled(buf[..], size, next, text + QueueText(s, names, q[..k]))
      decreases |q| - k
    {
      assert task in q && s.tasks[task] == Q.Record(task) && names[task] == task.name;
      next := AppendQueued(task, buf, size, next, text, s, names, q, k);
      task := task.siblingNext;
      k := k + 1;
    }
    assert q[..k] == q;
  }

  /** The first snprintf of a file, with nothing to convert. */
  method StartFile(buf: array<char>, size: nat, header: string) returns (offset: nat)
    requires 1 <= size <= buf.Length && '%' !in header
    modifies buf
    ensures Filled(buf[..], size, offset, header)
  {
    RenderPlain(header);
    offset := Snprintf(buf, 0, size, header, []);
  }

  /** The header and the line of the current task. */
  method StartPs(sched: Q.Scheduler, buf: array<char>, size: nat) returns (offset: nat)
    requires sched.Valid() && 1 <= size <= buf.Length && AllNamed(sched.s, Names(sched))
    modifies buf
    ensures Filled(buf[..], size, offset, PS_HEADER + CurrentText(sched.s, Names(sched)))
  {
    offset := StartFile(buf, size, PS_HEADER);
    assert PS_HEADER + "" == PS_HEADER;
    if sched.currentTask != null {
      var current := sched.currentTask;
      assert sched.s.tasks[current] == Q.Record(current) && Names(sched)[current] == current.name;
      offset := AppendTask(buf, size, offset, current, PS_HEADER);
    }
  }

  /** The file is the longest prefix of the process list that fits. */
  method GeneratePs(sched: Q.Scheduler, buf: array<char>, size: nat) returns (offset: nat)
    requires sched.Valid() && 1 <= size <= buf.Length
    modifies buf
    ensures AllNamed(sched.s, Names(sched)) && Filled(buf[..], size, offset, PsText(sched.s, Names(sched)))
  {
    ValidIsNamed(sched);
    offset := StartPs(sched, buf, size);
    ghost var s, names := sched.s, Names(sched);
    ghost var text, done := PS_HEADER + CurrentText(s, names), QueuesText(s, names, 0);
    assert text + done == text;
    var i: nat := 0;
    while i < T.MAX_PRIORITY
      invariant sched.Valid() && sched.s == s && Names(sched) == names
      invariant i <= T.MAX_PRIORITY && done == QueuesText(s, names, i) && Filled(buf[..], size, offset, text + done)
    {
      offset := AppendQueue(sched, i, buf, size, offset, text + done);
      ghost var line := QueueText(s, names, s.queues[i]);
      Regroup(text, done, line);
      done := done + line;
      i := i + 1;
    }
  }

  // ---- /proc/meminfo ---------------------------------------------------------------------

  lemma {:induction false} RenderPrefix(pre: string, format: string, args: seq<Arg>)
    requires '%' !in pre && Matches(format, args)
    ensures Matches(pre + format, args) && Render(pre + format, args) == pre + Render(format, args)
  {
    if pre == [] {
      assert pre + format == format;
    } else {
      RenderPrefix(pre[1..], format, args);
      RenderChar(pre[0], pre[1..] + format, args);
      assert [pre[0]] + (pre[1..] + format) == pre + format;
    }
  }

  lemma RenderOneNumber(pre: string, v: int, post: string)
    requires '%' !in pre && '%' !in post && INT_MIN <= v <= INT_MAX
    ensures Matches(pre + ("%d" + post), [IntArg(v)])
    ensures Render(pre + ("%d" + post), [IntArg(v)]) == pre + (DecimalText(v) + post)
  {
    RenderPlain(post);
    RenderNumber(v, post, []);
    assert [IntArg(v)] + [] == [IntArg(v)];
    RenderPrefix(pre, "%d" + post, [IntArg(v)]);
  }

  lemma RenderPercent(pre: string, post: string)
    requires '%' !in pre && '%' !in post
    ensures Matches(pre + ("%%" + post), []) && Render(pre + ("%%" + post), []) == pre + ("%" + post)
  {
    RenderPlain(post);
    assert ("%%" + post)[2..] == post;
    assert ['%', '%'][2..] == [];
    RenderUnfolds("%%" + post, []);
    RenderPrefix(pre, "%%" + post, []);
  }

  const TOTAL_MEM := 32 * 1024 * 1024

  method AppendNumber(buf: array<char>, size: nat, offset: nat, pre: string, v: int, post: string, ghost text: string)
    returns (next: nat)
    requires Filled(buf[..], size, offset, text)
    requires '%' !in pre && '%' !in post && INT_MIN <= v <= INT_MAX
    modifies buf
    ensures Filled(buf[..], size, next, text + (pre + (DecimalText(v) + post)))
  {
    RenderOneNumber(pre, v, post);
    next := Append(buf, size, offset, pre + ("%d" + post), [IntArg(v)], text);
  }

  method AppendPercent(buf: array<char>, size: nat, offset: nat, pre: string, post: string, ghost text: string)
    returns (next: nat)
    requires Filled(buf[..], size, offset, text) && '%' !in pre && '%' !in post
    modifies buf
    ensures Filled(buf[..], size, next, text + (pre + ("%" + post)))
  {
    RenderPercent(pre, post);
    next := Append(buf, size, offset, pre + ("%%" + post), [], text);
  }

  function MemLine(key: string, kb: int): string { key + (DecimalText(kb) + " kB\n") }

  function LevelLine(key: string): string { key + ("%" + "\n") }

  /** The first three lines of /proc/meminfo: what is free and what is used add up to
      the assumed total, modulo 2^32. */
  function MemText(freeMem: nat): string {
    var used := (TOTAL_MEM - freeMem) % WORD;
    "" + MemLine("MemTotal:     ", TOTAL_MEM / 1024) + MemLine("MemFree:      ", freeMem / 1024) + MemLine("MemUsed:      ", used / 1024)
  }

  const FRAGMENTATION := "\nBuddy Allocator Fragmentation:\n"

  function MeminfoText(freeMem: nat): string {
    MemText(freeMem) + FRAGMENTATION + LevelLine("  Level 0: 10") + LevelLine("  Level 1: 15")
      + LevelLine("  Level 2: 8") + LevelLine("  Level 3: 5")
  }

  /** The file is the longest prefix of the memory report that fits. */
  method GenerateMeminfo(freeMem: nat, buf: array<char>, size: nat) returns (offset: nat)
    requires freeMem < WORD && 1 <= size <= buf.Length
    modifies buf
    ensures Filled(buf[..], size, offset, MeminfoText(freeMem))
  {
    offset := GenerateMemory(freeMem, buf, size);
    offset := AppendText(buf, size, offset, FRAGMENTATION, MemText(freeMem));
    ghost var t0 := MemText(freeMem) + FRAGMENTATION;
    offset := AppendPercent(buf, size, offset, "  Level 0: 10", "\n", t0);
    ghost var t1 := t0 + LevelLine("  Level 0: 10");
    offset := AppendPercent(buf, size, offset, "  Level 1: 15", "\n", t1);
    ghost var t2 := t1 + LevelLine("  Level 1: 15");
    offset := AppendPercent(buf, size, offset, "  Level 2: 8", "\n", t2);
    ghost var t3 := t2 + LevelLine("  Level 2: 8");
    offset := AppendPercent(buf, size, offset, "  Level 3: 5", "\n", t3);
  }

  method GenerateMemory(freeMem: nat, buf: array<char>, size: nat) returns (offset: nat)
    requires freeMem < WORD && 1 <= size <= buf.Length
    modifies buf
    ensures Filled(buf[..], size, offset, MemText(freeMem))
  {
    var used := (TOTAL_MEM - freeMem) % WORD;
    offset := StartFile(buf, size, "");
    offset := AppendNumber(buf, size, offset, "MemTotal:     ", TOTAL_MEM / 1024, " kB\n", "");
    ghost var t1 := "" + MemLine("MemTotal:     ", TOTAL_MEM / 1024);
    offset := AppendNumber(buf, size, offset, "MemFree:      ", freeMem / 1024, " kB\n", t1);
    ghost var t2 := t1 + MemLine("MemFree:      ", freeMem / 1024);
    offset := AppendNumber(buf, size, offset, "MemUsed:      ", used / 1024, " kB\n", t2);
  }

  method AppendText(buf: array<char>, size: nat, offset: nat, line: string, ghost text: string) returns (next: nat)
    requires Filled(buf[..], size, offset, text) && '%' !in line
    modifies buf
    ensures Filled(buf[..], size, next, text + line)
  {
    RenderPlain(line);
    next := Append(buf, size, offset, line, [], text);
  }
}
