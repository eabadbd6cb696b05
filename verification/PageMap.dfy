/** Virtual memory as a flat partial map from page numbers to entries, with the
    frames in use and the frame of each page table; and what mmap and munmap do. */
module PageMap {
  import opened Machine
  import opened Frames

  const PAGES := 0x10_0000       // 2^20 pages of 4 KB
  const PRESENT := 1

  /** The address part of an entry is its frame number times 4096, the low twelve
      bits are flags. */
  function FrameOf(entry: nat): nat { entry / PAGE_SIZE }

  /** (physical_addr & 0xFFFFF000) | flags | PAGE_PRESENT for flags below 4096. */
  function EntryFor(frame: nat, flags: nat): nat {
    frame * PAGE_SIZE + if flags % 2 == 1 then flags else flags + 1
  }

  lemma EntryParts(frame: nat, flags: nat)
    requires flags < PAGE_SIZE
    ensures FrameOf(EntryFor(frame, flags)) == frame && EntryFor(frame, flags) % 2 == 1
  {}

  /** `dir` is the frame of the page directory, `tables` the frame of each page table. */
  datatype Vm = Vm(used: set<nat>, dir: nat, tables: map<nat, nat>, pages: map<nat, nat>)

  function DirOf(p: nat): nat { p / 1024 }

  ghost predicate Injective(m: map<nat, nat>) {
    forall d, e | d in m && e in m && d != e :: m[d] != m[e]
  }

  /** Table frames exist and are distinct, and only pages of existing tables are mapped. */
  ghost predicate Sound(vm: Vm) {
    match vm
    case Vm(_, _, tables, pages) =>
      && (forall d | d in tables :: d < 1024 && tables[d] < TOTAL_FRAMES)
      && Injective(tables)
      && (forall p | p in pages :: p < PAGES && DirOf(p) in tables)
  }

  /** Moreover frame 0, the directory's and the tables' frames are in use and different, so
      none of them is ever handed out. */
  ghost predicate Valid(vm: Vm) {
    match vm
    case Vm(used, dir, tables, _) =>
      && Sound(vm)
      && (forall f | f in used :: f < TOTAL_FRAMES) && 0 in used && dir in used && dir != 0
      && (forall d | d in tables :: tables[d] in used && tables[d] != 0 && tables[d] != dir)
  }

  /** The frames that no unmapping may free. */
  ghost function Kept(vm: Vm): set<nat> { {0, vm.dir} + vm.tables.Values }

  ghost function MapPage(vm: Vm, p: nat, entry: nat): Vm {
    if DirOf(p) in vm.tables then vm.(pages := vm.pages[p := entry])
    else if Full(vm.used) then vm
    else
      var f := LeastFree(vm.used);
      Vm(vm.used + {f}, vm.dir, vm.tables[DirOf(p) := f], vm.pages[p := entry])
  }

  function UnmapPage(vm: Vm, p: nat): Vm {
    if p in vm.pages then vm.(used := vm.used - {FrameOf(vm.pages[p])}, pages := vm.pages - {p}) else vm
  }

  /** get_physical_addr: 0 stands for "not mapped". */
  function Translate(vm: Vm, addr: nat): nat {
    var p := addr / PAGE_SIZE;
    if p in vm.pages then FrameOf(vm.pages[p]) * PAGE_SIZE + addr % PAGE_SIZE else 0
  }

  lemma MapPageKeepsValid(vm: Vm, p: nat, entry: nat)
    requires Valid(vm) && p < PAGES
    ensures Valid(MapPage(vm, p, entry))
  {}

  /** map_page makes exactly one page translate to the given frame plus offset,
      unless it needed a page table and no frame was left. */
  lemma MapPageTranslates(vm: Vm, p: nat, frame: nat, flags: nat, addr: nat)
    requires flags < PAGE_SIZE
    ensures var vm' := MapPage(vm, p, EntryFor(frame, flags));
            Translate(vm', addr) ==
              if addr / PAGE_SIZE == p && (DirOf(p) in vm.tables || !Full(vm.used))
              then frame * PAGE_SIZE + addr % PAGE_SIZE else Translate(vm, addr)
  {
    EntryParts(frame, flags);
  }

  /** The low twelve bits of an entry: flags | 1. */
  predicate LowBits(entry: nat, flags: nat) { entry % 4096 == flags + (if flags % 2 == 0 then 1 else 0) }

  /** map_page writes one entry, with the frame asked for and flags | 1 below it, unless it
      needed a page table and no frame was left; no other entry changes. */
  lemma MapPageEntry(vm: Vm, p: nat, frame: nat, flags: nat)
    requires flags < 4096
    ensures var pages := MapPage(vm, p, EntryFor(frame, flags)).pages;
            if DirOf(p) in vm.tables || !Full(vm.used) then
              && pages.Keys == vm.pages.Keys + {p} && pages[p] / 4096 == frame && LowBits(pages[p], flags)
              && forall q | q in vm.pages && q != p :: pages[q] == vm.pages[q]
            else
              pages == vm.pages
  {
    EntryParts(frame, flags);
  }

  /** unmap_page removes exactly one page from the translation; it keeps the state
      valid exactly when that page did not map a table, the directory or frame 0. */
  lemma UnmapPageTranslates(vm: Vm, p: nat, addr: nat)
    requires Valid(vm)
    ensures Translate(UnmapPage(vm, p), addr) == if addr / PAGE_SIZE == p then 0 else Translate(vm, addr)
    ensures Valid(UnmapPage(vm, p)) <==> (p in vm.pages ==> FrameOf(vm.pages[p]) !in Kept(vm))
  {
    if p in vm.pages && FrameOf(vm.pages[p]) in vm.tables.Values {
      var d :| d in vm.tables && vm.tables[d] == FrameOf(vm.pages[p]);
      assert UnmapPage(vm, p).tables[d] !in UnmapPage(vm, p).used;
    }
  }

  // ---- mmap and munmap -----------------------------------------------------------

  /** (length + PAGE_SIZE - 1) / PAGE_SIZE on a 32-bit size_t. */
  function PageCount(length: nat): nat {
    (length + PAGE_SIZE - 1) % WORD / PAGE_SIZE
  }

  /** The count is the least that covers the length, exactly when the rounding did not wrap;
      past that point mmap maps nothing and still reports success. */
  lemma PageCountCovers(length: nat)
    requires length < WORD
    ensures PageCount(length) < PAGES
    ensures PageCount(length) * PAGE_SIZE >= length <==> length <= WORD - PAGE_SIZE
    ensures 0 < length <= WORD - PAGE_SIZE ==> (PageCount(length) - 1) * PAGE_SIZE < length
    ensures length == 0 ==> PageCount(length) == 0
    ensures length > WORD - PAGE_SIZE ==> PageCount(length) == 0
  {}

  function NextPage(p: nat): nat { (p + 1) % PAGES }

  /** One page of mmap, with its data frame. */
  ghost function MapNew(vm: Vm, p: nat, flags: nat): Vm {
    var f := LeastFree(vm.used);
    MapPage(vm.(used := vm.used + {f}), p, EntryFor(f, flags))
  }

  /** Map n pages from p on to new frames; false if a frame was missing. */
  ghost function Mmap(vm: Vm, p: nat, n: nat, flags: nat): (Vm, bool)
    decreases n
  {
    if n == 0 then (vm, true)
    else if Full(vm.used) then (vm, false)
    else Mmap(MapNew(vm, p, flags), NextPage(p), n - 1, flags)
  }

  lemma MmapUnfolds(vm: Vm, p: nat, n: nat, flags: nat)
    requires n > 0
    ensures Full(vm.used) ==> Mmap(vm, p, n, flags) == (vm, false)
    ensures !Full(vm.used) ==> Mmap(vm, p, n, flags) == Mmap(MapNew(vm, p, flags), NextPage(p), n - 1, flags)
  {}

  function Munmap(vm: Vm, p: nat, n: nat): Vm
    decreases n
  {
    if n == 0 then vm else Munmap(UnmapPage(vm, p), NextPage(p), n - 1)
  }

  /** Frames a mapping of n pages needs: one a page and one a missing table. */
  function Cost(dirs: set<nat>, p: nat, n: nat): nat
    decreases n
  {
    if n == 0 then 0
    else 1 + (if DirOf(p) in dirs then 0 else 1) + Cost(dirs + {DirOf(p)}, NextPage(p), n - 1)
  }

  function FreeFrames(used: set<nat>): int { TOTAL_FRAMES - |used| }

  /** The pages of the range, and whether p is one of them. */
  predicate InRange(p: nat, n: nat, q: nat) { q < PAGES && (q - p) % PAGES < n }

  lemma FullCount(used: set<nat>)
    requires forall f | f in used :: f < TOTAL_FRAMES
    ensures Full(used) <==> FreeFrames(used) == 0
    ensures FreeFrames(used) >= 0
  {
    var all := FirstFrames(TOTAL_FRAMES);
    InFirstFrames(TOTAL_FRAMES);
    FirstFramesCount(TOTAL_FRAMES);
    assert used <= all;
    SubsetCount(used, all);
    LeastFreeIsLeast(used);
    if Full(used) {
      assert used == all;
    } else {
      assert LeastFree(used) in all - used;
      assert |all - used| + |used| == |all| by { assert all == (all - used) + used; }
    }
  }

  lemma SubsetCount(a: set<nat>, b: set<nat>)
    requires a <= b
    ensures |a| <= |b|
  {
    assert b == a + (b - a);
  }

  lemma RangeUnfolds(p: nat, n: nat, q: nat)
    requires p < PAGES && 0 < n <= PAGES
    ensures InRange(p, n, q) <==> q == p || InRange(NextPage(p), n - 1, q)
    ensures !InRange(NextPage(p), n - 1, p)
  {
    var next := NextPage(p);
    assert (p - next) % PAGES == PAGES - 1;
    if q < PAGES && q != p {
      var d := (q - p) % PAGES;
      assert d == if q > p then q - p else q - p + PAGES;
      assert (q - next) % PAGES == d - 1;
    }
  }

  /** Frames that the mapped pages of a range point to. */
  function RangeFrames(pages: map<nat, nat>, p: nat, n: nat): set<nat>
    decreases n
  {
    if n == 0 then {}
    else (if p in pages then {FrameOf(pages[p])} else {}) + RangeFrames(pages, NextPage(p), n - 1)
  }

  lemma {:induction false} RangeFramesAgree(a: map<nat, nat>, b: map<nat, nat>, p: nat, n: nat)
    requires p < PAGES && n <= PAGES
    requires forall q | InRange(p, n, q) :: (q in a <==> q in b) && (q in a ==> a[q] == b[q])
    ensures RangeFrames(a, p, n) == RangeFrames(b, p, n)
    decreases n
  {
    if n > 0 {
      forall q | q == p || InRange(NextPage(p), n - 1, q) ensures InRange(p, n, q) { RangeUnfolds(p, n, q); }
      RangeFramesAgree(a, b, NextPage(p), n - 1);
    }
  }

  /** munmap frees the frames its range maps and unmaps the range, nothing else. */
  lemma {:induction false} MunmapEffect(vm: Vm, p: nat, n: nat)
    requires p < PAGES && n <= PAGES
    ensures var vm' := Munmap(vm, p, n);
            && vm'.used == vm.used - RangeFrames(vm.pages, p, n)
            && vm'.tables == vm.tables
            && vm'.pages == map q | q in vm.pages && !InRange(p, n, q) :: vm.pages[q]
    decreases n
  {
    if n == 0 {
      assert vm.pages == map q | q in vm.pages && !InRange(p, n, q) :: vm.pages[q];
    } else {
      var u := UnmapPage(vm, p);
      MunmapEffect(u, NextPage(p), n - 1);
      forall q ensures InRange(p, n, q) <==> q == p || InRange(NextPage(p), n - 1, q) { RangeUnfolds(p, n, q); }
      RangeUnfolds(p, n, p);
      RangeFramesAgree(u.pages, vm.pages, NextPage(p), n - 1);
    }
  }

  /** munmap keeps the state valid exactly when its range maps neither a table, nor the
      directory, nor frame 0. */
  lemma MunmapKeepsValid(vm: Vm, p: nat, n: nat)
    requires Valid(vm) && p < PAGES && n <= PAGES
    ensures Valid(Munmap(vm, p, n)) <==> RangeFrames(vm.pages, p, n) !! Kept(vm)
  {
    var vm', fs := Munmap(vm, p, n), RangeFrames(vm.pages, p, n);
    MunmapEffect(vm, p, n);
    MunmapKeepsDir(vm, p, n);
    if !(fs !! Kept(vm)) {
      var f :| f in fs && f in Kept(vm);
      if f in vm.tables.Values {
        var d :| d in vm.tables && vm.tables[d] == f;
        assert vm'.tables[d] !in vm'.used;
      }
    }
  }

  lemma {:induction false} MunmapKeepsDir(vm: Vm, p: nat, n: nat)
    ensures Munmap(vm, p, n).dir == vm.dir
    decreases n
  {
    if n > 0 { MunmapKeepsDir(UnmapPage(vm, p), NextPage(p), n - 1); }
  }

  ghost function NewTables(vm: Vm, vm': Vm): set<nat> { vm'.tables.Values - vm.tables.Values }

  /** From vm to vm' the frames in use grew by the data frames fs and by new
      tables, all previously free and all different. */
  ghost predicate Grew(vm: Vm, vm': Vm, fs: set<nat>) {
    && vm.tables.Values <= vm'.tables.Values
    && vm'.used == vm.used + fs + NewTables(vm, vm')
    && NewTables(vm, vm') !! vm.used && fs !! vm.used + NewTables(vm, vm')
  }

  lemma GrewCompose(a: Vm, b: Vm, c: Vm, fs: set<nat>, gs: set<nat>)
    requires Grew(a, b, fs) && Grew(b, c, gs)
    ensures Grew(a, c, fs + gs)
  {
    assert NewTables(a, c) == NewTables(a, b) + NewTables(b, c);
  }

  lemma AddTable(tables: map<nat, nat>, d: nat, g: nat)
    requires d !in tables && g !in tables.Values
    ensures tables[d := g].Values == tables.Values + {g}
  {
    var t := tables[d := g];
    assert d in t && t[d] == g;
    forall x | x in tables.Values ensures x in t.Values {
      var e :| e in tables && tables[e] == x;
      assert e in t && t[e] == x;
    }
  }

  /** One page of mmap takes one data frame and, if the page needs one, a table. */
  lemma MapNewGrows(vm: Vm, p: nat, flags: nat)
    requires Valid(vm) && p < PAGES && !Full(vm.used)
    ensures var vm' := MapNew(vm, p, flags);
            Valid(vm') && Grew(vm, vm', {LeastFree(vm.used)})
  {
    var f := LeastFree(vm.used);
    var v0 := vm.(used := vm.used + {f});
    MapPageKeepsValid(v0, p, EntryFor(f, flags));
    assert forall t | t in vm.tables.Values :: t in vm.used;
    if DirOf(p) !in vm.tables && !Full(v0.used) {
      AddTable(vm.tables, DirOf(p), LeastFree(v0.used));
    }
  }

  lemma MapNewValid(vm: Vm, p: nat, flags: nat)
    requires Valid(vm) && p < PAGES && !Full(vm.used)
    ensures Valid(MapNew(vm, p, flags))
  {
    MapNewGrows(vm, p, flags);
  }

  lemma MapNewOther(vm: Vm, p: nat, flags: nat, q: nat)
    requires q != p
    ensures var vm' := MapNew(vm, p, flags);
            (q in vm'.pages <==> q in vm.pages) && (q in vm.pages ==> vm'.pages[q] == vm.pages[q])
  {}

  /** The page is lost exactly when its table is missing and its data frame was the last. */
  ghost predicate Loses(vm: Vm, p: nat) {
    DirOf(p) !in vm.tables && Full(vm.used + {LeastFree(vm.used)})
  }

  lemma MapNewPage(vm: Vm, p: nat, flags: nat)
    requires Valid(vm) && p < PAGES && flags < PAGE_SIZE && !Full(vm.used)
    ensures var vm' := MapNew(vm, p, flags);
            if Loses(vm, p) then p !in vm'.pages && vm' == vm.(used := vm.used + {LeastFree(vm.used)})
            else p in vm'.pages && FrameOf(vm'.pages[p]) == LeastFree(vm.used)
  {
    EntryParts(LeastFree(vm.used), flags);
  }

  /** Every page of the range can be given a frame and a table in turn. */
  ghost predicate Enough(vm: Vm, p: nat, n: nat, flags: nat)
    decreases n
  {
    n == 0 || (!Full(vm.used) && !Loses(vm, p) && Enough(MapNew(vm, p, flags), NextPage(p), n - 1, flags))
  }

  lemma MapNewCount(vm: Vm, p: nat, flags: nat)
    requires Valid(vm) && p < PAGES && !Full(vm.used)
    ensures var vm' := MapNew(vm, p, flags);
            var k := if DirOf(p) in vm.tables then 1 else 2;
            && FreeFrames(vm.used) >= 1
            && (Loses(vm, p) <==> FreeFrames(vm.used) < k)
            && (!Loses(vm, p) ==> FreeFrames(vm'.used) == FreeFrames(vm.used) - k
                                  && vm'.tables.Keys == vm.tables.Keys + {DirOf(p)})
  {
    var used' := vm.used + {LeastFree(vm.used)};
    assert |used'| == |vm.used| + 1;
    FullCount(vm.used);
    FullCount(used');
    if DirOf(p) !in vm.tables && !Full(used') {
      assert |used' + {LeastFree(used')}| == |used'| + 1;
    }
  }

  /** A caller can tell in advance: count the free frames. */
  lemma {:induction false} EnoughIsCounted(vm: Vm, p: nat, n: nat, flags: nat)
    requires Valid(vm) && p < PAGES
    ensures Enough(vm, p, n, flags) <==> FreeFrames(vm.used) >= Cost(vm.tables.Keys, p, n)
    decreases n
  {
    FullCount(vm.used);
    if n > 0 && !Full(vm.used) {
      MapNewCount(vm, p, flags);
      MapNewValid(vm, p, flags);
      if !Loses(vm, p) { EnoughIsCounted(MapNew(vm, p, flags), NextPage(p), n - 1, flags); }
    }
  }

  lemma {:induction false} MmapOutside(vm: Vm, p: nat, n: nat, flags: nat, q: nat)
    requires p < PAGES && n <= PAGES && !InRange(p, n, q) && q < PAGES
    ensures var vm' := Mmap(vm, p, n, flags).0;
            (q in vm'.pages <==> q in vm.pages) && (q in vm.pages ==> vm'.pages[q] == vm.pages[q])
    decreases n
  {
    if n > 0 && !Full(vm.used) {
      RangeUnfolds(p, n, q);
      MapNewOther(vm, p, flags, q);
      MmapOutside(MapNew(vm, p, flags), NextPage(p), n - 1, flags, q);
    }
  }

  /** After a successful mmap every page of the range that has its table is mapped to a frame
      that was free, with flags | 1 below it. */
  lemma {:induction false} MmapEntries(vm: Vm, p: nat, n: nat, flags: nat, q: nat)
    requires Valid(vm) && p < PAGES && n <= PAGES && flags < 4096 && InRange(p, n, q) && Mmap(vm, p, n, flags).1
    ensures var vm' := Mmap(vm, p, n, flags).0;
            && (q in vm'.pages <==> DirOf(q) in vm'.tables)
            && (q in vm'.pages ==> LowBits(vm'.pages[q], flags) && vm'.pages[q] / 4096 !in vm.used)
    decreases n
  {
    var a := MapNew(vm, p, flags);
    RangeUnfolds(p, n, q);
    MapNewGrows(vm, p, flags);
    MapNewPage(vm, p, flags);
    if q == p {
      MmapOutside(a, NextPage(p), n - 1, flags, p);
      MapNewEntry(vm, p, n, flags);
    } else {
      MmapEntries(a, NextPage(p), n - 1, flags, q);
    }
  }

  /** Its first page: mapped at once, or, without a table, only if it is the last. */
  lemma MapNewEntry(vm: Vm, p: nat, n: nat, flags: nat)
    requires Valid(vm) && p < PAGES && 0 < n <= PAGES && flags < 4096 && Mmap(vm, p, n, flags).1
    ensures var a := MapNew(vm, p, flags);
            && (p in a.pages <==> DirOf(p) in Mmap(vm, p, n, flags).0.tables)
            && (p in a.pages ==> LowBits(a.pages[p], flags) && a.pages[p] / 4096 !in vm.used)
  {
    var a, f := MapNew(vm, p, flags), LeastFree(vm.used);
    LeastFreeIsLeast(vm.used);
    EntryParts(f, flags);
    MapNewPage(vm, p, flags);
    if Loses(vm, p) {
      assert n == 1;
    } else {
      TablesStay(a, NextPage(p), n - 1, flags, DirOf(p));
    }
  }

  lemma {:induction false} TablesStay(vm: Vm, p: nat, n: nat, flags: nat, d: nat)
    requires d in vm.tables
    ensures d in Mmap(vm, p, n, flags).0.tables
    decreases n
  {
    if n > 0 && !Full(vm.used) { TablesStay(MapNew(vm, p, flags), NextPage(p), n - 1, flags, d); }
  }

  /** With enough frames every page gets a new frame, and the frames in use grow by
      exactly those and the new tables. */
  lemma {:induction false} MmapGrows(vm: Vm, p: nat, n: nat, flags: nat)
    requires Valid(vm) && p < PAGES && n <= PAGES && flags < PAGE_SIZE && Enough(vm, p, n, flags)
    ensures var (vm', ok) := Mmap(vm, p, n, flags);
            ok && Grew(vm, vm', RangeFrames(vm'.pages, p, n))
    decreases n
  {
    if n > 0 {
      var f, a := LeastFree(vm.used), MapNew(vm, p, flags);
      MapNewGrows(vm, p, flags);
      MapNewPage(vm, p, flags);
      MmapGrows(a, NextPage(p), n - 1, flags);
      MmapKeepsFirst(a, p, n, flags);
      var vm' := Mmap(vm, p, n, flags).0;
      GrewCompose(vm, a, vm', {f}, RangeFrames(vm'.pages, NextPage(p), n - 1));
    }
  }

  /** Mapping the rest of the range leaves its first page alone. */
  lemma MmapKeepsFirst(a: Vm, p: nat, n: nat, flags: nat)
    requires p < PAGES && 0 < n <= PAGES
    ensures var vm' := Mmap(a, NextPage(p), n - 1, flags).0;
            RangeFrames(vm'.pages, p, n) ==
              (if p in a.pages then {FrameOf(a.pages[p])} else {}) + RangeFrames(vm'.pages, NextPage(p), n - 1)
  {
    RangeUnfolds(p, n, p);
    MmapOutside(a, NextPage(p), n - 1, flags, p);
  }

  /** Short of frames, a call that still reports success has lost the data frame of
      its last page: it is in use, no table, and mapped nowhere in the range. */
  lemma {:induction false} MmapLoses(vm: Vm, p: nat, n: nat, flags: nat) returns (x: nat)
    requires Valid(vm) && p < PAGES && n <= PAGES && flags < PAGE_SIZE
    requires !Enough(vm, p, n, flags) && Mmap(vm, p, n, flags).1
    ensures var vm' := Mmap(vm, p, n, flags).0;
            x in vm'.used && x !in vm.used && x !in vm'.tables.Values && x !in RangeFrames(vm'.pages, p, n)
    decreases n
  {
    var a := MapNew(vm, p, flags);
    MapNewGrows(vm, p, flags);
    MapNewPage(vm, p, flags);
    if Loses(vm, p) {
      assert n == 1;
      assert forall t | t in vm.tables.Values :: t in vm.used;
      x := LeastFree(vm.used);
    } else {
      x := MmapLoses(a, NextPage(p), n - 1, flags);
      MmapKeepsFirst(a, p, n, flags);
    }
  }

  /** mmap succeeds and munmap of the same range then restores the frames in use,
      apart from page tables newly created, exactly when there were enough free
      frames for the pages and the missing tables. */
  lemma MmapThenMunmap(vm: Vm, p: nat, n: nat, flags: nat)
    requires Valid(vm) && p < PAGES && n <= PAGES && flags < PAGE_SIZE
    ensures var (vm', ok) := Mmap(vm, p, n, flags);
            ok && Munmap(vm', p, n).used == vm.used + NewTables(vm, vm') <==>
            FreeFrames(vm.used) >= Cost(vm.tables.Keys, p, n)
  {
    EnoughIsCounted(vm, p, n, flags);
    RoundTripIfEnough(vm, p, n, flags);
  }

  lemma RoundTripIfEnough(vm: Vm, p: nat, n: nat, flags: nat)
    requires Valid(vm) && p < PAGES && n <= PAGES && flags < PAGE_SIZE
    ensures var (vm', ok) := Mmap(vm, p, n, flags);
            ok && Munmap(vm', p, n).used == vm.used + NewTables(vm, vm') <==> Enough(vm, p, n, flags)
  {
    var (vm', ok) := Mmap(vm, p, n, flags);
    MunmapEffect(vm', p, n);
    if Enough(vm, p, n, flags) {
      MmapGrows(vm, p, n, flags);
    } else if ok {
      var _ := MmapLoses(vm, p, n, flags);
    }
  }

  /** Whether or not mmap succeeded, after munmap no page of the range is mapped and
      every other page translates as before both calls. */
  lemma MmapThenMunmapPages(vm: Vm, p: nat, n: nat, flags: nat)
    requires Valid(vm) && p < PAGES && n <= PAGES
    ensures var vm' := Mmap(vm, p, n, flags).0;
            && Munmap(vm', p, n).tables == vm'.tables
            && Munmap(vm', p, n).pages == map q | q in vm.pages && !InRange(p, n, q) :: vm.pages[q]
  {
    var vm' := Mmap(vm, p, n, flags).0;
    MunmapEffect(vm', p, n);
    MmapValid(vm, p, n, flags);
    forall q: nat | q < PAGES && !InRange(p, n, q)
      ensures (q in vm'.pages <==> q in vm.pages) && (q in vm.pages ==> vm'.pages[q] == vm.pages[q])
    {
      MmapOutside(vm, p, n, flags, q);
    }
  }

  lemma {:induction false} MmapValid(vm: Vm, p: nat, n: nat, flags: nat)
    requires Valid(vm) && p < PAGES
    ensures Valid(Mmap(vm, p, n, flags).0)
    decreases n
  {
    if n > 0 && !Full(vm.used) {
      MapNewGrows(vm, p, flags);
      MmapValid(MapNew(vm, p, flags), NextPage(p), n - 1, flags);
    }
  }

  // ---- Once every directory entry has its table --------------------------------------------

  ghost predicate AllTables(vm: Vm) { forall d: nat | d < 1024 :: d in vm.tables }

  lemma {:induction false} CostIsPages(dirs: set<nat>, p: nat, n: nat)
    requires (forall d: nat | d < 1024 :: d in dirs) && p < PAGES
    ensures Cost(dirs, p, n) == n
    decreases n
  {
    if n > 0 {
      assert dirs + {DirOf(p)} == dirs;
      CostIsPages(dirs, NextPage(p), n - 1);
    }
  }

  lemma {:induction false} MmapKeepsTables(vm: Vm, p: nat, n: nat, flags: nat)
    requires AllTables(vm) && p < PAGES
    ensures var vm' := Mmap(vm, p, n, flags).0; vm'.tables == vm.tables && vm'.dir == vm.dir
    decreases n
  {
    if n > 0 && !Full(vm.used) { MmapKeepsTables(MapNew(vm, p, flags), NextPage(p), n - 1, flags); }
  }

  lemma {:induction false} MmapIsEnough(vm: Vm, p: nat, n: nat, flags: nat)
    requires AllTables(vm) && p < PAGES
    ensures Mmap(vm, p, n, flags).1 <==> Enough(vm, p, n, flags)
    decreases n
  {
    if n > 0 && !Full(vm.used) { MmapIsEnough(MapNew(vm, p, flags), NextPage(p), n - 1, flags); }
  }

  /** Then mmap fails exactly when there are fewer free frames than pages, and after a
      success munmap of the same range restores the frames in use exactly. */
  lemma MmapWithTables(vm: Vm, p: nat, n: nat, flags: nat)
    requires Valid(vm) && AllTables(vm) && p < PAGES && n <= PAGES && flags < PAGE_SIZE
    ensures var (vm', ok) := Mmap(vm, p, n, flags);
            && (ok <==> FreeFrames(vm.used) >= n)
            && (ok ==> Munmap(vm', p, n).used == vm.used)
            && Munmap(vm', p, n).tables == vm.tables && Munmap(vm', p, n).dir == vm.dir
  {
    var vm' := Mmap(vm, p, n, flags).0;
    CostIsPages(vm.tables.Keys, p, n);
    EnoughIsCounted(vm, p, n, flags);
    MmapIsEnough(vm, p, n, flags);
    MmapKeepsTables(vm, p, n, flags);
    RoundTripIfEnough(vm, p, n, flags);
    MunmapEffect(vm', p, n);
    MunmapKeepsDir(vm', p, n);
  }
}
