/** Runs of map_page, unmap_page, mmap and munmap after init_paging. */
module PageRuns {
  import opened Frames
  import opened PageMap
  import Paging

  datatype Op =
    | DoMap(page: nat, frame: nat, flags: nat)
    | DoUnmap(page: nat)
    | DoMmap(page: nat, pages: nat, flags: nat)
    | DoMunmap(page: nat, pages: nat)

  predicate InBounds(op: Op) {
    && op.page < PAGES
    && (op.DoMmap? || op.DoMunmap? ==> op.pages <= PAGES)
    && (op.DoMap? || op.DoMmap? ==> op.flags < PAGE_SIZE)
  }

  ghost function Step(vm: Vm, op: Op): Vm {
    match op
    case DoMap(p, frame, flags) => MapPage(vm, p, EntryFor(frame, flags))
    case DoUnmap(p) => UnmapPage(vm, p)
    case DoMmap(p, n, flags) => Mmap(vm, p, n, flags).0
    case DoMunmap(p, n) => Munmap(vm, p, n)
  }

  /** The call unmaps no page of a table, of the directory or of frame 0. */
  ghost predicate Spares(vm: Vm, op: Op) {
    match op
    case DoUnmap(p) => p in vm.pages ==> FrameOf(vm.pages[p]) !in Kept(vm)
    case DoMunmap(p, n) => RangeFrames(vm.pages, p, n) !! Kept(vm)
    case _ => true
  }

  /** Every call leaves the directory and the tables in place, and keeps their frames in use
      exactly when it spares them. */
  lemma StepExact(vm: Vm, op: Op)
    requires Valid(vm) && AllTables(vm) && InBounds(op)
    ensures Step(vm, op).tables == vm.tables && Step(vm, op).dir == vm.dir
    ensures Valid(Step(vm, op)) <==> Spares(vm, op)
  {
    match op
    case DoMap(p, frame, flags) => MapPageKeepsValid(vm, p, EntryFor(frame, flags));
    case DoUnmap(p) => UnmapPageTranslates(vm, p, 0);
    case DoMmap(p, n, flags) =>
      MmapKeepsTables(vm, p, n, flags);
      MmapValid(vm, p, n, flags);
    case DoMunmap(p, n) =>
      MunmapEffect(vm, p, n);
      MunmapKeepsDir(vm, p, n);
      MunmapKeepsValid(vm, p, n);
  }

  ghost predicate Legal(vm: Vm, ops: seq<Op>)
    decreases |ops|
  {
    ops == [] || (InBounds(ops[0]) && Spares(vm, ops[0]) && Legal(Step(vm, ops[0]), ops[1..]))
  }

  ghost function Exec(vm: Vm, ops: seq<Op>): Vm
    decreases |ops|
  {
    if ops == [] then vm else Exec(Step(vm, ops[0]), ops[1..])
  }

  lemma {:induction false} RunKeepsTables(vm: Vm, ops: seq<Op>)
    requires Valid(vm) && AllTables(vm) && Legal(vm, ops)
    ensures var vm' := Exec(vm, ops); Valid(vm') && vm'.tables == vm.tables && vm'.dir == vm.dir
    decreases |ops|
  {
    if ops != [] {
      StepExact(vm, ops[0]);
      RunKeepsTables(Step(vm, ops[0]), ops[1..]);
    }
  }

  /** After init_paging and any run, frame 0, the directory and the 1024 tables are in use and
      in place; mmap of n pages fails exactly when fewer than n frames are free; and after a
      success munmap of the same range restores the frames in use exactly. */
  lemma EveryRun(ops: seq<Op>, p: nat, n: nat, flags: nat)
    requires Legal(Paging.InitialVm(), ops) && p < PAGES && n <= PAGES && flags < PAGE_SIZE
    ensures var vm := Exec(Paging.InitialVm(), ops);
            var (vm', ok) := Mmap(vm, p, n, flags);
            && Valid(vm) && AllTables(vm) && vm.dir == Paging.DIR_FRAME
            && (ok <==> FreeFrames(vm.used) >= n)
            && (ok ==> Munmap(vm', p, n).used == vm.used)
  {
    var init := Paging.InitialVm();
    Paging.IdentityIsValid(init);
    RunKeepsTables(init, ops);
    MmapWithTables(Exec(init, ops), p, n, flags);
  }

  /** From such a state the next alloc_frame never returns a frame of the directory or of a
      table. */
  lemma KeptNeverHandedOut(ops: seq<Op>)
    requires Legal(Paging.InitialVm(), ops)
    ensures var vm := Exec(Paging.InitialVm(), ops);
            !Full(vm.used) ==> Alloc(vm.used).1 !in Kept(vm)
  {
    var init := Paging.InitialVm();
    Paging.IdentityIsValid(init);
    RunKeepsTables(init, ops);
    var vm := Exec(init, ops);
    LeastFreeIsLeast(vm.used);
    assert forall f | f in vm.tables.Values :: f in vm.used;
  }

  /** unmap_page of the page at 0x100000, which init_paging maps to the directory itself, gives
      the directory's frame away: the next alloc_frame hands it out. */
  lemma DirectoryGivenAway()
    ensures var vm := UnmapPage(Paging.InitialVm(), Paging.DIR_FRAME);
            !Valid(vm) && Alloc(vm.used).1 == vm.dir
  {
    var init := Paging.InitialVm();
    var p := Paging.DIR_FRAME;
    Paging.IdentityIsValid(init);
    assert Paging.IsPage(p) && FrameOf(init.pages[p]) == p;
    UnmapPageTranslates(init, p, 0);
    InFirstFrames(Paging.INIT_FRAMES);
    LeastFreeIs(UnmapPage(init, p).used, p);
  }
}
