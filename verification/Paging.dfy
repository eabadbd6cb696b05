/** The two-level page tables in physical memory, and the operations on them. */
module Paging {
  import opened Machine
  import opened Frames
  import PM = PageMap

  const WRITABLE := 2
  const USER := 4

  /** The frames init_paging takes: one for the directory, then one for each table. */
  const DIR_FRAME := RESERVED_FRAMES
  const FIRST_TABLE := DIR_FRAME + 1
  const INIT_FRAMES := FIRST_TABLE + 1024

  // ---- Reading the tables as a flat map ------------------------------------------

  predicate ShapeOk(dir: seq<int>, ram: seq<seq<int>>) {
    && |dir| == 1024 && |ram| == TOTAL_FRAMES
    && (forall d | 0 <= d < 1024 :: 0 <= dir[d] && (dir[d] % 2 == 1 ==> dir[d] / PAGE_SIZE < TOTAL_FRAMES))
    && (forall f | 0 <= f < TOTAL_FRAMES :: |ram[f]| == 1024)
    && (forall f, j | 0 <= f < TOTAL_FRAMES && 0 <= j < 1024 :: 0 <= ram[f][j])
  }

  predicate Present(dir: seq<int>, d: nat)
    requires d < |dir|
  {
    dir[d] % 2 == 1
  }

  /** The table entry of page v, 0 if its directory entry is not present. */
  function TableWord(dir: seq<int>, ram: seq<seq<int>>, v: nat): nat
    requires ShapeOk(dir, ram) && v < PM.PAGES
  {
    if Present(dir, v / 1024) then ram[dir[v / 1024] / PAGE_SIZE][v % 1024] else 0
  }

  /** The tables in memory hold exactly the flat map of vm. */
  ghost predicate Shows(dir: seq<int>, ram: seq<seq<int>>, vm: PM.Vm) {
    match vm
    case Vm(_, _, tables, pages) =>
      && ShapeOk(dir, ram)
      && (forall d: nat {:trigger Present(dir, d)} | d < 1024 ::
            (Present(dir, d) <==> d in tables) && (d in tables ==> tables[d] == dir[d] / PAGE_SIZE))
      && (forall v: nat {:trigger TableWord(dir, ram, v)} | v < PM.PAGES ::
            (TableWord(dir, ram, v) % 2 == 1 <==> v in pages) && (v in pages ==> pages[v] == TableWord(dir, ram, v)))
  }

  const EMPTY_TABLE := seq(1024, _ => 0)

  /** Installing an empty table in an absent directory entry maps no page. */
  lemma InstallTable(dir: seq<int>, ram: seq<seq<int>>, vm: PM.Vm, d: nat, frame: nat, flags: nat)
    requires Shows(dir, ram, vm) && d < 1024 && !Present(dir, d)
    requires frame < TOTAL_FRAMES && flags < PAGE_SIZE && frame !in vm.tables.Values
    ensures Shows(dir[d := PM.EntryFor(frame, flags)], ram[frame := EMPTY_TABLE], vm.(tables := vm.tables[d := frame]))
  {
    PM.EntryParts(frame, flags);
    var dir', ram' := dir[d := PM.EntryFor(frame, flags)], ram[frame := EMPTY_TABLE];
    forall e: nat | e < 1024 && e != d ensures Present(dir', e) == Present(dir, e) {}
    forall v: nat | v < PM.PAGES
      ensures TableWord(dir', ram', v) == TableWord(dir, ram, v)
    {
      if v / 1024 != d && Present(dir, v / 1024) {
        assert vm.tables[v / 1024] != frame;
      }
    }
  }

  /** Writing word t of the table of entry d changes the entry of one page. */
  lemma WriteWord(dir: seq<int>, ram: seq<seq<int>>, vm: PM.Vm, d: nat, t: nat, w: nat)
    requires Shows(dir, ram, vm) && d < 1024 && t < 1024 && Present(dir, d) && PM.Injective(vm.tables)
    ensures var f, p := dir[d] / PAGE_SIZE, d * 1024 + t;
            Shows(dir, ram[f := ram[f][t := w]],
                  vm.(pages := if w % 2 == 1 then vm.pages[p := w] else vm.pages - {p}))
  {
    var f := dir[d] / PAGE_SIZE;
    var ram' := ram[f := ram[f][t := w]];
    forall v: nat | v < PM.PAGES
      ensures TableWord(dir, ram', v) == if v == d * 1024 + t then w else TableWord(dir, ram, v)
    {
      if v / 1024 != d && Present(dir, v / 1024) {
        assert vm.tables[v / 1024] != vm.tables[d];
      }
    }
  }

  lemma PageIndices(addr: nat)
    requires addr < WORD
    ensures var d, t, p := addr / 0x40_0000, addr / PAGE_SIZE % 1024, addr / PAGE_SIZE;
            d < 1024 && p < PM.PAGES && d == p / 1024 == PM.DirOf(p) && t == p % 1024 && p == d * 1024 + t
  {}

  // ---- The operations ---------------------------------------------------------------

  class AddressSpace {
    const frames: FrameAllocator
    /** `kernel_page_dir`. */
    const dir: array<int>
    /** Physical memory as 1024 words a frame; page tables live here. */
    var ram: seq<seq<int>>
    /** The flat map the tables hold. */
    ghost var vm: PM.Vm

    /** The directory does not lie where the bitmap is. */
    ghost predicate Apart() { (dir as object) != (frames.bitmap as object) }

    ghost predicate WellFormed()
      reads this, frames, frames.bitmap, dir
    {
      frames.Valid() && Apart() && vm.used == frames.used && Shows(dir[..], ram, vm)
    }

    ghost predicate Sound()
      reads this, frames, frames.bitmap, dir
    {
      WellFormed() && PM.Sound(vm)
    }

    ghost predicate Valid()
      reads this, frames, frames.bitmap, dir
    {
      WellFormed() && PM.Valid(vm)
    }

    /** Boot state: the reserved frames in use, the directory empty. */
    constructor Boot()
      ensures WellFormed() && fresh(frames) && fresh(frames.bitmap) && fresh(dir)
      ensures vm == PM.Vm(Reserved(), 0, map[], map[])
    {
      frames := new FrameAllocator();
      dir := new int[1024](_ => 0);
      ram := seq(TOTAL_FRAMES, _ => EMPTY_TABLE);
      vm := PM.Vm(Reserved(), 0, map[], map[]);
      new;
      BlankShows(dir[..], ram, vm);
    }

    /** Every address translates to itself afterwards, at the price of the reserved
        frames, one for the directory and 1024 for the tables. Other frames keep their
        contents, so the bitmap survives if it lies in one of those. */
    method InitPaging()
      requires WellFormed() && vm.used == Reserved()
      modifies this`ram, this`vm, frames, frames.bitmap, dir
      ensures Valid() && IsIdentity(vm) && vm.used == FirstFrames(INIT_FRAMES)
      ensures vm == InitialVm() && forall v: nat | v < 0x10_0000 :: v in vm.pages && vm.pages[v] == v * 4096 + 3
      ensures forall d | 0 <= d < 1024 :: dir[d] == (257 + d) * 4096 + 3
      ensures forall f | 0 <= f < TOTAL_FRAMES && !InitWrites(f) :: ram[f] == old(ram)[f]
    {
      TakeDirectoryFrame();
      MapEverything();
      vm := InitialVm();
      IdentityShows(dir[..], ram, vm);
      IdentityIsValid(vm);
    }

    method TakeDirectoryFrame()
      requires frames.Valid() && frames.used == Reserved()
      modifies frames, frames.bitmap
      ensures frames.Valid() && frames.used == FirstFrames(FIRST_TABLE)
    {
      AllocNext(DIR_FRAME);
      var dirFrame := frames.AllocFrame();
    }

    method MapEverything()
      requires frames.Valid() && Apart() && ShapeOk(dir[..], ram) && frames.used == FirstFrames(FIRST_TABLE)
      modifies this`ram, frames, frames.bitmap, dir
      ensures frames.Valid() && ShapeOk(dir[..], ram) && frames.used == FirstFrames(INIT_FRAMES)
      ensures IdentityUpTo(dir[..], ram, 1024)
      ensures forall f | 0 <= f < TOTAL_FRAMES && !InitWrites(f) :: ram[f] == old(ram)[f]
    {
      var i: nat := 0;
      while i < 1024
        invariant i <= 1024 && frames.Valid() && ShapeOk(dir[..], ram)
        invariant frames.used == FirstFrames(FIRST_TABLE + i)
        invariant IdentityUpTo(dir[..], ram, i)
        invariant forall f | 0 <= f < TOTAL_FRAMES && !InitWrites(f) :: ram[f] == old(ram)[f]
      {
        MapTable(i);
        i := i + 1;
      }
    }

    /** Creates the table of directory entry i, in the next free frame. */
    method MapTable(i: nat)
      requires frames.Valid() && Apart() && ShapeOk(dir[..], ram) && IdentityUpTo(dir[..], ram, i)
      requires i < 1024 && frames.used == FirstFrames(FIRST_TABLE + i)
      modifies this`ram, frames, frames.bitmap, dir
      ensures frames.Valid() && ShapeOk(dir[..], ram) && IdentityUpTo(dir[..], ram, i + 1)
      ensures frames.used == FirstFrames(FIRST_TABLE + i + 1)
      ensures ram == old(ram)[FIRST_TABLE + i := ram[FIRST_TABLE + i]]
    {
      ghost var words, ram0 := dir[..], ram;
      AllocNext(FIRST_TABLE + i);
      InFirstFrames(FIRST_TABLE + i);
      var table := CreatePageTable();
      FillTable(table, i);
      dir[i] := table * PAGE_SIZE + 3;
      IdentityGrows(words, ram0, i, ram[table]);
      assert dir[..] == words[i := (257 + i) * PAGE_SIZE + 3];
      assert ram == ram0[257 + i := ram[table]];
    }

    /** Maps all pages of table i to the frames of the same numbers. */
    method FillTable(table: nat, i: nat)
      requires table < |ram| && |ram[table]| == 1024
      modifies this`ram
      ensures |ram| == |old(ram)| && IdentityRow(ram[table], i) && ram == old(ram)[table := ram[table]]
    {
      var j := 0;
      while j < 1024
        invariant 0 <= j <= 1024 && |ram| == |old(ram)| && |ram[table]| == 1024
        invariant forall k | 0 <= k < j :: ram[table][k] == (i * 1024 + k) * PAGE_SIZE + 3
        invariant ram == old(ram)[table := ram[table]]
      {
        ram := ram[table := ram[table][j := (i * 1024 + j) * PAGE_SIZE + 3]];
        j := j + 1;
      }
    }

    /** A zeroed frame for a page table, 0 if there is none. */
    method CreatePageTable() returns (frame: nat)
      requires frames.Valid() && 0 in frames.used && |ram| == TOTAL_FRAMES
      modifies this`ram, frames, frames.bitmap
      ensures frames.Valid() && (frames.used, frame) == Alloc(old(frames.used))
      ensures frame < TOTAL_FRAMES
      ensures ram == if frame == 0 then old(ram) else old(ram)[frame := EMPTY_TABLE]
    {
      ghost var used := frames.used;
      LeastFreeIsLeast(used);
      frame := frames.AllocFrame();
      if frame == 0 {
        return;
      }
      ram := ram[frame := EMPTY_TABLE];
    }

    /** Gives directory entry d a new empty table, if a frame is left. */
    method AddTable(d: nat, flags: nat)
      requires Valid() && d < 1024 && dir[d] % 2 == 0 && flags < PAGE_SIZE
      modifies this`ram, this`vm, frames, frames.bitmap, dir
      ensures WellFormed()
      ensures vm == if Full(old(vm).used) then old(vm)
                    else old(vm).(used := old(vm).used + {LeastFree(old(vm).used)},
                                  tables := old(vm).tables[d := LeastFree(old(vm).used)])
      ensures dir[d] % 2 == 1 <==> !Full(old(vm).used)
      ensures forall e | 0 <= e < 1024 && (e != d || Full(old(vm).used)) :: dir[e] == old(dir[e])
      ensures !Full(old(vm).used) ==> PM.LowBits(dir[d], flags)
    {
      ghost var words, ram0 := dir[..], ram;
      ZeroMeansExhausted(vm.used);
      LeastFreeIsLeast(vm.used);
      assert forall t | t in vm.tables.Values :: t in vm.used;
      var frame := CreatePageTable();
      if frame == 0 {
        return;
      }
      InstallTable(words, ram0, vm, d, frame, flags);
      PM.EntryParts(frame, flags);
      dir[d] := PM.EntryFor(frame, flags);
      assert dir[..] == words[d := PM.EntryFor(frame, flags)];
      vm := vm.(used := frames.used, tables := vm.tables[d := frame]);
    }

    /** Writes word t of the table of directory entry d. */
    method WriteEntry(d: nat, t: nat, w: nat, ghost p: nat)
      requires WellFormed() && PM.Injective(vm.tables)
      requires d < 1024 && t < 1024 && dir[d] % 2 == 1 && p == d * 1024 + t
      modifies this`ram, this`vm
      ensures WellFormed()
      ensures w % 2 == 1 ==> vm == old(vm).(pages := old(vm).pages[p := w])
      ensures w % 2 == 0 ==> vm == old(vm).(pages := old(vm).pages - {p})
    {
      assert Present(dir[..], d);
      WriteWord(dir[..], ram, vm, d, t, w);
      var table := dir[d] / PAGE_SIZE;
      ram := ram[table := ram[table][t := w]];
      vm := vm.(pages := if w % 2 == 1 then vm.pages[p := w] else vm.pages - {p});
    }

    method MapPage(addr: nat, phys: nat, flags: nat)
      requires Valid() && addr < WORD && phys < WORD && flags < PAGE_SIZE
      modifies this`ram, this`vm, frames, frames.bitmap, dir
      ensures Valid()
      ensures vm == PM.MapPage(old(vm), addr / PAGE_SIZE, PM.EntryFor(phys / PAGE_SIZE, flags))
      ensures var d := addr / 0x40_0000;
              && (forall e | 0 <= e < 1024 && e != d :: dir[e] == old(dir[e]))
              && (old(dir[d]) % 2 == 1 ==> dir[d] == old(dir[d]))
              && (old(dir[d]) % 2 == 0 ==> if Full(old(vm).used) then dir[d] == old(dir[d]) else PM.LowBits(dir[d], flags))
      ensures var d := addr / 0x40_0000;
              dir[d] % 2 == 1 ==>
                && dir[d] / 4096 < |ram| && |ram[dir[d] / 4096]| == 1024
                && var w := ram[dir[d] / 4096][addr / 4096 % 1024]; w / 4096 == phys / 4096 && PM.LowBits(w, flags)
    {
      var d := addr / 0x40_0000;
      var t := addr / PAGE_SIZE % 1024;
      var entry := PM.EntryFor(phys / PAGE_SIZE, flags);
      ghost var p := addr / PAGE_SIZE;
      PageIndices(addr);
      PM.EntryParts(phys / PAGE_SIZE, flags);
      PM.MapPageKeepsValid(vm, p, entry);
      assert d in vm.tables <==> Present(dir[..], d);
      if dir[d] % 2 == 0 {
        AddTable(d, flags);
        if dir[d] % 2 == 0 {
          return;
        }
      }
      WriteEntry(d, t, entry, p);
      assert vm.pages[p] == entry && TableWord(dir[..], ram, p) == entry;
    }

    method UnmapPage(addr: nat)
      requires Sound() && addr < WORD
      modifies this`ram, this`vm, frames, frames.bitmap
      ensures Sound() && vm == PM.UnmapPage(old(vm), addr / PAGE_SIZE)
    {
      var d := addr / 0x40_0000;
      var t := addr / PAGE_SIZE % 1024;
      ghost var p: nat := addr / PAGE_SIZE;
      PageIndices(addr);
      UnmapKeepsSound(vm, p);
      assert p in vm.pages <==> TableWord(dir[..], ram, p) % 2 == 1;
      if dir[d] % 2 == 0 {
        return;
      }
      var table := dir[d] / PAGE_SIZE;
      var entry := ram[table][t];
      if entry % 2 == 1 {
        frames.FreeFrame(entry / PAGE_SIZE);
        vm := vm.(used := frames.used);
        WriteEntry(d, t, 0, p);
      }
    }

    /** 0 stands for "not mapped". */
    method GetPhysicalAddr(addr: nat) returns (phys: nat)
      requires WellFormed() && addr < WORD
      ensures phys == PM.Translate(vm, addr)
    {
      var d := addr / 0x40_0000;
      var t := addr / PAGE_SIZE % 1024;
      PageIndices(addr);
      ghost var word := TableWord(dir[..], ram, addr / PAGE_SIZE);
      if dir[d] % 2 == 0 {
        return 0;
      }
      var table := dir[d] / PAGE_SIZE;
      if ram[table][t] % 2 == 0 {
        return 0;
      }
      return ram[table][t] / PAGE_SIZE * PAGE_SIZE + addr % PAGE_SIZE;
    }

    /** Maps PageCount(length) pages at addr, or at 0x80000000 for addr 0. NULL when a
        page found no frame; the pages already mapped then stay. */
    method Mmap(addr: nat, length: nat, prot: int) returns (result: nat)
      requires Valid() && addr < WORD && length < WORD
      modifies this`ram, this`vm, frames, frames.bitmap, dir
      ensures Valid()
      ensures var start := if addr == 0 then 0x8000_0000 else addr;
              var (vm', ok) := PM.Mmap(old(vm), start / PAGE_SIZE, PM.PageCount(length), FlagsFor(prot));
              vm == vm' && result == if ok then start else 0
      ensures PM.AllTables(old(vm)) ==> (result == 0 <==> PM.FreeFrames(old(vm).used) < PM.PageCount(length))
      ensures result == 0 || result == if addr == 0 then 0x8000_0000 else addr
      ensures result != 0 ==>
                forall q | PM.InRange(result / 4096, PM.PageCount(length), q) ::
                  && (q in vm.pages <==> PM.DirOf(q) in vm.tables)
                  && (q in vm.pages ==> Permits(vm.pages[q], prot) && vm.pages[q] / 4096 !in old(vm).used)
    {
      PM.PageCountCovers(length);
      var virtualPage := if addr == 0 then 0x8000_0000 else addr;
      if PM.AllTables(vm) { PM.MmapWithTables(vm, virtualPage / PAGE_SIZE, PM.PageCount(length), FlagsFor(prot)); }
      var ok := MmapRange(virtualPage, PM.PageCount(length), FlagsFor(prot));
      if ok { EntriesPermit(old(vm), virtualPage / PAGE_SIZE, PM.PageCount(length), prot); }
      return if ok then virtualPage else 0;
    }

    /** The loop of mmap. */
    method MmapRange(start: nat, pages: nat, flags: nat) returns (ok: bool)
      requires Valid() && start < WORD && flags < PAGE_SIZE
      modifies this`ram, this`vm, frames, frames.bitmap, dir
      ensures Valid() && (vm, ok) == PM.Mmap(old(vm), start / PAGE_SIZE, pages, flags)
    {
      ghost var goal := PM.Mmap(vm, start / PAGE_SIZE, pages, flags);
      var i: nat := 0;
      ghost var p, left := start / PAGE_SIZE, pages;
      while i < pages
        invariant left == pages - i && p == PageAt(start, i) && Valid()
        invariant goal == PM.Mmap(vm, p, left, flags)
      {
        ok := MmapOne(start, i, flags, left);
        if !ok {
          return;
        }
        i := i + 1;
        p := PageAt(start, i);
        left := left - 1;
      }
      assert goal == (vm, true);
      return true;
    }

    /** The i-th of its steps, with n pages to go. */
    method MmapOne(start: nat, i: nat, flags: nat, ghost n: nat) returns (ok: bool)
      requires Valid() && start < WORD && flags < PAGE_SIZE && n > 0
      modifies this`ram, this`vm, frames, frames.bitmap, dir
      ensures Valid() && ok == !Full(old(vm).used)
      ensures vm == if ok then PM.MapNew(old(vm), PageAt(start, i), flags) else old(vm)
      ensures PM.Mmap(old(vm), PageAt(start, i), n, flags)
              == if ok then PM.Mmap(vm, PageAt(start, i + 1), n - 1, flags) else (vm, false)
    {
      PM.MmapUnfolds(vm, PageAt(start, i), n, flags);
      ZeroMeansExhausted(vm.used);
      LeastFreeIsLeast(vm.used);
      var frame := frames.AllocFrame();
      if frame == 0 {
        return false;
      }
      AddKeepsValid(vm, frame);
      vm := vm.(used := frames.used);
      PageAtIs(start, i);
      assert frame * PAGE_SIZE / PAGE_SIZE == frame;
      MapPage((start + i * PAGE_SIZE) % WORD, frame * PAGE_SIZE, flags);
      return true;
    }

    /** Frees each frame twice, once itself and once in UnmapPage; the second is
        rejected, so the effect is that of unmapping each page. */
    method Munmap(addr: nat, length: nat)
      requires Sound() && addr < WORD && length < WORD
      modifies this`ram, this`vm, frames, frames.bitmap
      ensures Sound() && vm == PM.Munmap(old(vm), addr / PAGE_SIZE, PM.PageCount(length))
      ensures old(Valid()) ==>
                (Valid() <==> PM.RangeFrames(old(vm).pages, addr / PAGE_SIZE, PM.PageCount(length)) !! PM.Kept(old(vm)))
    {
      PM.PageCountCovers(length);
      if Valid() { PM.MunmapKeepsValid(vm, addr / PAGE_SIZE, PM.PageCount(length)); }
      var pages := PM.PageCount(length);
      var i: nat := 0;
      while i < pages
        invariant i <= pages && Sound()
        invariant PM.Munmap(old(vm), addr / PAGE_SIZE, pages) == PM.Munmap(vm, PageAt(addr, i), pages - i)
      {
        MunmapOne(addr, i);
        i := i + 1;
      }
    }

    method MunmapOne(start: nat, i: nat)
      requires Sound() && start < WORD
      modifies this`ram, this`vm, frames, frames.bitmap
      ensures Sound() && vm == PM.UnmapPage(old(vm), PageAt(start, i))
    {
      ghost var p := PageAt(start, i);
      PageAtIs(start, i);
      var virt := (start + i * PAGE_SIZE) % WORD;
      var phys := GetPhysicalAddr(virt);
      var frame := phys / PAGE_SIZE;
      if frame != 0 {
        frames.FreeFrame(frame);
        assert p in vm.pages && frame == PM.FrameOf(vm.pages[p]);
        vm := vm.(used := frames.used);
      }
      UnmapPage(virt);
    }
  }

  lemma AddKeepsValid(vm: PM.Vm, f: nat)
    requires PM.Valid(vm) && f < TOTAL_FRAMES
    ensures PM.Valid(vm.(used := vm.used + {f}))
  {
  }

  /** PAGE_PRESENT, with PAGE_WRITABLE and PAGE_USER as `prot` asks. */
  function FlagsFor(prot: int): nat {
    PM.PRESENT + (if prot / 2 % 2 == 1 then WRITABLE else 0) + (if prot / 4 % 2 == 1 then USER else 0)
  }

  /** A present entry that allows writing and user access as bits 1 and 2 of `prot` ask, with
      no other flag. */
  predicate Permits(entry: nat, prot: int) {
    && entry % 2 == 1 && entry / 2 % 2 == prot / 2 % 2 && entry / 4 % 2 == prot / 4 % 2
    && entry % 4096 < 8
  }

  lemma FlagsPermit(entry: nat, prot: int)
    requires PM.LowBits(entry, FlagsFor(prot))
    ensures Permits(entry, prot)
  {}

  lemma EntriesPermit(vm: PM.Vm, p: nat, n: nat, prot: int)
    requires PM.Valid(vm) && p < PM.PAGES && n <= PM.PAGES && PM.Mmap(vm, p, n, FlagsFor(prot)).1
    ensures var vm' := PM.Mmap(vm, p, n, FlagsFor(prot)).0;
            forall q | PM.InRange(p, n, q) ::
              && (q in vm'.pages <==> PM.DirOf(q) in vm'.tables)
              && (q in vm'.pages ==> Permits(vm'.pages[q], prot) && vm'.pages[q] / 4096 !in vm.used)
  {
    var vm' := PM.Mmap(vm, p, n, FlagsFor(prot)).0;
    forall q | PM.InRange(p, n, q)
      ensures q in vm'.pages <==> PM.DirOf(q) in vm'.tables
      ensures q in vm'.pages ==> Permits(vm'.pages[q], prot) && vm'.pages[q] / 4096 !in vm.used
    {
      PM.MmapEntries(vm, p, n, FlagsFor(prot), q);
      if q in vm'.pages { FlagsPermit(vm'.pages[q], prot); }
    }
  }

  /** Page number of the i-th page of a mapping. */
  function PageAt(start: nat, i: nat): nat {
    if i == 0 then start / PAGE_SIZE else PM.NextPage(PageAt(start, i - 1))
  }

  lemma NextAddress(x: nat)
    ensures (x + PAGE_SIZE) % WORD / PAGE_SIZE == PM.NextPage(x % WORD / PAGE_SIZE)
    ensures x % WORD / PAGE_SIZE < PM.PAGES
  {
    var a := x % WORD;
    assert (x + PAGE_SIZE) % WORD == (a + PAGE_SIZE) % WORD;
    if a + PAGE_SIZE < WORD {
      assert (a + PAGE_SIZE) / PAGE_SIZE == a / PAGE_SIZE + 1;
    } else {
      assert a / PAGE_SIZE == PM.PAGES - 1;
    }
  }

  /** The page that the 32-bit sum start + i * 4096 lies in. */
  lemma {:induction false} PageAtIs(start: nat, i: nat)
    requires start < WORD
    ensures (start + i * PAGE_SIZE) % WORD / PAGE_SIZE == PageAt(start, i) < PM.PAGES
  {
    if i > 0 {
      PageAtIs(start, i - 1);
      NextAddress(start + (i - 1) * PAGE_SIZE);
    }
  }

  // ---- The identity mapping -----------------------------------------------------------

  /** Every directory entry has a table and every address translates to itself. */
  ghost predicate IsIdentity(vm: PM.Vm) {
    && (forall d: nat | d < 1024 :: d in vm.tables)
    && (forall addr: nat | addr < WORD :: PM.Translate(vm, addr) == addr)
  }

  predicate IsDir(d: nat) { d < 1024 }

  predicate IsPage(v: nat) { v < PM.PAGES }

  ghost function IdentityTables(): map<nat, nat> { map d: nat | d < 1024 && IsDir(d) :: 257 + d }

  ghost function IdentityPages(): map<nat, nat> { map v: nat | v < PM.PAGES && IsPage(v) :: v * PAGE_SIZE + 3 }

  predicate IdentityRow(row: seq<int>, d: nat) {
    |row| == 1024 && forall j | 0 <= j < 1024 :: row[j] == (d * 1024 + j) * PAGE_SIZE + 3
  }

  /** The table of directory entry d, in frame 257 + d, maps each of its pages to the
      frame of the same number. */
  predicate IdentityTable(ram: seq<seq<int>>, d: nat) { 257 + d < |ram| && IdentityRow(ram[257 + d], d) }

  /** The first n directory entries are those of the identity mapping. */
  predicate IdentityUpTo(dir: seq<int>, ram: seq<seq<int>>, n: nat) {
    && n <= |dir|
    && (forall d: nat | d < n :: dir[d] == (257 + d) * PAGE_SIZE + 3)
    && (forall d: nat | d < n :: IdentityTable(ram, d))
  }

  lemma IdentityGrows(dir: seq<int>, ram: seq<seq<int>>, n: nat, row: seq<int>)
    requires ShapeOk(dir, ram) && IdentityUpTo(dir, ram, n) && n < 1024 && IdentityRow(row, n)
    ensures var dir', ram' := dir[n := (257 + n) * PAGE_SIZE + 3], ram[257 + n := row];
            ShapeOk(dir', ram') && IdentityUpTo(dir', ram', n + 1)
  {
    var ram' := ram[257 + n := row];
    forall d: nat | d <= n ensures IdentityTable(ram', d) {
      if d < n { assert IdentityTable(ram, d); }
    }
  }

  lemma IdentityShows(dir: seq<int>, ram: seq<seq<int>>, vm: PM.Vm)
    requires ShapeOk(dir, ram) && IdentityUpTo(dir, ram, 1024)
    requires vm.tables == IdentityTables() && vm.pages == IdentityPages()
    ensures Shows(dir, ram, vm)
  {
    forall v: nat | v < PM.PAGES
      ensures TableWord(dir, ram, v) % 2 == 1 && v in vm.pages && vm.pages[v] == TableWord(dir, ram, v)
    {
      IdentityWord(dir, ram, v);
      assert IsPage(v);
      OddWord(v);
    }
    forall d: nat | d < 1024
      ensures Present(dir, d) && d in vm.tables && vm.tables[d] == dir[d] / PAGE_SIZE
    {
      IdentityEntry(dir, ram, d);
      assert IsDir(d);
    }
  }

  lemma OddWord(v: nat)
    ensures (v * PAGE_SIZE + 3) % 2 == 1
  {}

  lemma IdentityEntry(dir: seq<int>, ram: seq<seq<int>>, d: nat)
    requires IdentityUpTo(dir, ram, 1024) && d < 1024
    ensures Present(dir, d) && dir[d] / PAGE_SIZE == 257 + d && IdentityTable(ram, d)
  {}

  lemma IdentityWord(dir: seq<int>, ram: seq<seq<int>>, v: nat)
    requires ShapeOk(dir, ram) && IdentityUpTo(dir, ram, 1024) && v < PM.PAGES
    ensures TableWord(dir, ram, v) == v * PAGE_SIZE + 3
  {
    var d, t := v / 1024, v % 1024;
    IdentityEntry(dir, ram, d);
    IdentityWordAt(ram, d, t);
    assert v == d * 1024 + t;
  }

  lemma IdentityWordAt(ram: seq<seq<int>>, d: nat, t: nat)
    requires t < 1024 && IdentityTable(ram, d)
    ensures |ram[257 + d]| == 1024 && ram[257 + d][t] == (d * 1024 + t) * PAGE_SIZE + 3
  {}

  ghost function InitialVm(): PM.Vm { PM.Vm(FirstFrames(INIT_FRAMES), DIR_FRAME, IdentityTables(), IdentityPages()) }

  lemma IdentityIsValid(vm: PM.Vm)
    requires vm == InitialVm()
    ensures PM.Valid(vm) && IsIdentity(vm)
  {
    IdentityTablesHeld(vm);
    forall addr: nat | addr < WORD ensures PM.Translate(vm, addr) == addr {
      IdentityTranslates(vm, addr);
    }
  }

  lemma IdentityTranslates(vm: PM.Vm, addr: nat)
    requires vm.pages == IdentityPages() && addr < WORD
    ensures PM.Translate(vm, addr) == addr
  {
    assert IsPage(addr / PAGE_SIZE);
  }

  lemma TablesAre(vm: PM.Vm)
    requires vm.tables == IdentityTables()
    ensures forall d: nat | d < 1024 :: d in vm.tables
    ensures forall d | d in vm.tables :: d < 1024 && vm.tables[d] == FIRST_TABLE + d
  {
    forall d: nat | d < 1024 ensures d in vm.tables { assert IsDir(d); }
  }

  lemma IdentityTablesHeld(vm: PM.Vm)
    requires vm.used == FirstFrames(INIT_FRAMES) && vm.tables == IdentityTables() && vm.dir == DIR_FRAME
    requires forall v | v in vm.pages :: v < PM.PAGES
    ensures PM.Valid(vm) && PM.AllTables(vm)
  {
    TablesAre(vm);
    InFirstFrames(INIT_FRAMES);
    assert PM.Injective(vm.tables);
  }

  /** The frames whose contents init_paging overwrites. */
  predicate InitWrites(f: int) { DIR_FRAME <= f < INIT_FRAMES }

  /** They are those of the directory and the tables; the bitmap, where the source puts it, is
      in one of them. */
  lemma InitWritesExactly(f: nat)
    ensures InitWrites(f) <==> f == InitialVm().dir || f in InitialVm().tables.Values
    ensures InitWrites(BITMAP_ADDR / PAGE_SIZE)
  {
    var vm := InitialVm();
    TablesAre(vm);
    if InitWrites(f) && f != DIR_FRAME {
      assert IsDir(f - FIRST_TABLE) && f - FIRST_TABLE in vm.tables && vm.tables[f - FIRST_TABLE] == f;
    }
  }

  lemma BlankShows(dir: seq<int>, ram: seq<seq<int>>, vm: PM.Vm)
    requires |dir| == 1024 && forall d | 0 <= d < 1024 :: dir[d] == 0
    requires |ram| == TOTAL_FRAMES && forall f | 0 <= f < TOTAL_FRAMES :: ram[f] == EMPTY_TABLE
    requires vm.tables == map[] && vm.pages == map[]
    ensures Shows(dir, ram, vm)
  {}

  lemma UnmapKeepsSound(vm: PM.Vm, p: nat)
    requires PM.Sound(vm)
    ensures PM.Sound(PM.UnmapPage(vm, p))
  {}
}
