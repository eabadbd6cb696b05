/** The physical frame allocator: a bitmap that refines a set of frame numbers. */
module Frames {
  import opened WordBits

  const PAGE_SIZE := 4096
  const TOTAL_FRAMES := 32768   // 128 MB
  const RESERVED_FRAMES := 256  // the first 1 MB
  const BITMAP_ADDR := 0x10_0000

  // ---- The set the bitmap stands for ----------------------------------------

  /** Every frame below f is in use. */
  predicate AllBelow(used: set<nat>, f: nat) { f == 0 || (f - 1 in used && AllBelow(used, f - 1)) }

  lemma {:induction false} AllBelowIs(used: set<nat>, f: nat)
    ensures AllBelow(used, f) <==> forall j: nat | j < f :: j in used
  {
    if f > 0 { AllBelowIs(used, f - 1); }
  }

  ghost predicate IsLeastFree(used: set<nat>, f: nat) {
    f <= TOTAL_FRAMES && AllBelow(used, f) && (f < TOTAL_FRAMES ==> f !in used)
  }

  lemma LeastFreeExists(used: set<nat>)
    ensures exists f: nat :: IsLeastFree(used, f)
  {
    var f: nat := 0;
    while f < TOTAL_FRAMES && f in used
      invariant f <= TOTAL_FRAMES && AllBelow(used, f)
    {
      f := f + 1;
    }
    assert IsLeastFree(used, f);
  }

  /** Least frame outside `used`, TOTAL_FRAMES if none. */
  ghost function LeastFree(used: set<nat>): nat {
    LeastFreeExists(used);
    var f: nat :| IsLeastFree(used, f);
    f
  }

  lemma LeastFreeIsLeast(used: set<nat>)
    ensures LeastFree(used) <= TOTAL_FRAMES && (LeastFree(used) < TOTAL_FRAMES ==> LeastFree(used) !in used)
    ensures forall j: nat | j < LeastFree(used) :: j in used
  {
    LeastFreeExists(used);
    AllBelowIs(used, LeastFree(used));
  }

  ghost predicate Full(used: set<nat>) { LeastFree(used) == TOTAL_FRAMES }

  /** The frame `alloc_frame` returns, 0 for failure, and the frames then in use. */
  ghost function Alloc(used: set<nat>): (set<nat>, nat) {
    if Full(used) then (used, 0) else (used + {LeastFree(used)}, LeastFree(used))
  }

  predicate IsBelow(f: nat, n: nat) { f < n }

  function FirstFrames(n: nat): set<nat> { set f: nat | f < n && IsBelow(f, n) }

  lemma InFirstFrames(n: nat)
    ensures forall f: nat :: f in FirstFrames(n) <==> f < n
  {
    forall f: nat | f < n ensures f in FirstFrames(n) { assert IsBelow(f, n); }
  }

  lemma {:induction false} FirstFramesCount(n: nat)
    ensures |FirstFrames(n)| == n
  {
    InFirstFrames(n);
    if n > 0 {
      FirstFramesCount(n - 1);
      InFirstFrames(n - 1);
      assert FirstFrames(n) == FirstFrames(n - 1) + {n - 1};
    }
  }

  function Reserved(): set<nat> { FirstFrames(RESERVED_FRAMES) }

  lemma LeastFreeIs(used: set<nat>, f: nat)
    requires f <= TOTAL_FRAMES && (forall j: nat | j < f :: j in used)
    requires f < TOTAL_FRAMES ==> f !in used
    ensures LeastFree(used) == f
  {
    LeastFreeIsLeast(used);
  }

  /** 0 means exhaustion exactly as long as frame 0 is in use: otherwise the first
      call hands out frame 0 itself, which every caller takes for failure. */
  lemma ZeroMeansExhausted(used: set<nat>)
    ensures (Alloc(used).1 == 0 <==> Full(used)) <==> 0 in used
  {
    LeastFreeIsLeast(used);
    if 0 !in used { LeastFreeIs(used, 0); }
  }

  datatype FrameOp = DoAlloc | DoFree(f: nat)

  /** Frames in use and frames handed out and not given back, after a run. */
  ghost function Run(used: set<nat>, held: set<nat>, ops: seq<FrameOp>): (set<nat>, set<nat>)
    decreases |ops|
  {
    if ops == [] then (used, held) else
    match ops[0]
    case DoAlloc =>
      var (used', f) := Alloc(used);
      Run(used', if f == 0 then held else held + {f}, ops[1..])
    case DoFree(f) => Run(used - {f}, held - {f}, ops[1..])
  }

  lemma {:induction false} RunSplits(held: set<nat>, ops: seq<FrameOp>)
    requires held !! Reserved()
    requires forall f: nat | DoFree(f) in ops :: f >= RESERVED_FRAMES
    ensures var (used', held') := Run(Reserved() + held, held, ops);
            used' == Reserved() + held' && held' !! Reserved()
    decreases |ops|
  {
    InFirstFrames(RESERVED_FRAMES);
    if ops != [] {
      var used := Reserved() + held;
      match ops[0]
      case DoAlloc =>
        var (used', f) := Alloc(used);
        ZeroMeansExhausted(used);
        LeastFreeIsLeast(used);
        var held' := if f == 0 then held else held + {f};
        assert used' == Reserved() + held';
        RunSplits(held', ops[1..]);
      case DoFree(f) =>
        assert used - {f} == Reserved() + (held - {f});
        RunSplits(held - {f}, ops[1..]);
    }
  }

  /** Over every run from boot that frees no reserved frame, the frames in use are
      the reserved ones and those handed out and not yet given back; a further
      alloc_frame returns one outside both, and 0 exactly when there is none. */
  lemma HeldFramesAreTheRest(ops: seq<FrameOp>)
    requires forall f: nat | DoFree(f) in ops :: f >= RESERVED_FRAMES
    ensures var (used, held) := Run(Reserved(), {}, ops);
            && used == Reserved() + held && held !! Reserved()
            && (Alloc(used).1 == 0 <==> Full(used))
            && (!Full(used) ==> Alloc(used).1 !in held && Alloc(used).1 >= RESERVED_FRAMES)
  {
    InFirstFrames(RESERVED_FRAMES);
    assert Reserved() + {} == Reserved();
    RunSplits({}, ops);
    ZeroMeansExhausted(Run(Reserved(), {}, ops).0);
    LeastFreeIsLeast(Run(Reserved(), {}, ops).0);
  }

  lemma AllocNext(n: nat)
    requires 0 < n < TOTAL_FRAMES
    ensures Alloc(FirstFrames(n)) == (FirstFrames(n + 1), n)
  {
    InFirstFrames(n);
    InFirstFrames(n + 1);
    LeastFreeIs(FirstFrames(n), n);
    assert FirstFrames(n) + {n} == FirstFrames(n + 1);
  }

  /** k calls of alloc_frame. */
  function Allocs(k: nat): seq<FrameOp> { if k == 0 then [] else [DoAlloc] + Allocs(k - 1) }

  lemma {:induction false} AllocsFrom(n: nat, held: set<nat>, k: nat)
    requires 0 < n && n + k <= TOTAL_FRAMES
    ensures Run(FirstFrames(n), held, Allocs(k)).0 == FirstFrames(n + k)
    decreases k
  {
    if k > 0 {
      AllocNext(n);
      assert Allocs(k)[1..] == Allocs(k - 1);
      AllocsFrom(n + 1, held + {n}, k - 1);
    }
  }

  /** From boot, the calls of alloc_frame return 256, 257, ... up to 32767, then 0. */
  lemma SuccessiveFrames(k: nat)
    requires k <= 32512
    ensures Alloc(Run(Reserved(), {}, Allocs(k)).0).1 == if k < 32512 then 256 + k else 0
  {
    AllocsFrom(RESERVED_FRAMES, {}, k);
    if k < 32512 {
      AllocNext(256 + k);
    } else {
      InFirstFrames(TOTAL_FRAMES);
      LeastFreeIs(FirstFrames(TOTAL_FRAMES), TOTAL_FRAMES);
    }
  }

  /** alloc_frame then free_frame of the result is the identity. */
  lemma AllocThenFree(used: set<nat>)
    requires !Full(used)
    ensures Alloc(used).0 - {Alloc(used).1} == used
  {
    LeastFreeIsLeast(used);
  }

  /** The frame the page directory gets is the one that holds the bitmap, so the
      clearing of the new directory clears the bitmap; and from a cleared bitmap
      the next frame is 0, which reads as failure. */
  lemma DirectoryLandsOnBitmap()
    ensures Alloc(Reserved()).1 * PAGE_SIZE == BITMAP_ADDR
    ensures Alloc({}).1 == 0
  {
    InFirstFrames(RESERVED_FRAMES);
    LeastFreeIs(Reserved(), RESERVED_FRAMES);
    LeastFreeIs({}, 0);
  }

  // ---- The allocator --------------------------------------------------------------

  const WORDS := 1024

  /** Bit i % 32 of word i / 32 of the map. */
  ghost predicate BitAt(bitmap: array<bv32>, i: nat)
    reads bitmap
    requires bitmap.Length == WORDS && i < TOTAL_FRAMES
  {
    Bit(bitmap[i / 32], Mask(i % 32))
  }

  class FrameAllocator {
    const bitmap: array<bv32>
    var usedFrames: nat
    /** The frames whose bit is set. */
    ghost var used: set<nat>

    /** The bitmap holds the set. */
    ghost predicate Bits()
      reads this`used, bitmap
    {
      && bitmap.Length == WORDS
      && (forall i: nat {:trigger BitAt(bitmap, i)} | i < TOTAL_FRAMES :: BitAt(bitmap, i) <==> i in used)
      && (forall i | i in used :: i < TOTAL_FRAMES)
    }

    ghost predicate Valid()
      reads this, bitmap
    {
      Bits() && usedFrames == |used|
    }

    /** `init_frame_allocator`. */
    constructor ()
      ensures Valid() && fresh(bitmap) && used == Reserved()
    {
      bitmap := new bv32[WORDS](_ => 0);
      usedFrames, used := 0, {};
      new;
      forall j: nat | j < TOTAL_FRAMES ensures !BitAt(bitmap, j) { ZeroWord(Mask(j % 32)); }
      var i := 0;
      InFirstFrames(0);
      while i < RESERVED_FRAMES
        invariant 0 <= i <= RESERVED_FRAMES && bitmap.Length == WORDS
        invariant used == FirstFrames(i) && Bits()
      {
        SetOneBit(i, true);
        InFirstFrames(i);
        InFirstFrames(i + 1);
        used := FirstFrames(i + 1);
        i := i + 1;
      }
      usedFrames := RESERVED_FRAMES;
      FirstFramesCount(RESERVED_FRAMES);
    }

    /** The least free frame, or 0 and no change when there is none. The counter goes up by
        one with every frame found. */
    method AllocFrame() returns (frame: nat)
      requires Bits()
      modifies this, bitmap
      ensures Bits() && (used, frame) == Alloc(old(used))
      ensures usedFrames == old(usedFrames) + if Full(old(used)) then 0 else 1
      ensures old(Valid()) ==> Valid()
    {
      var i := 0;
      while i < TOTAL_FRAMES
        invariant 0 <= i <= TOTAL_FRAMES && Bits() && used == old(used) && usedFrames == old(usedFrames)
        invariant forall j: nat | j < i :: j in used
      {
        assert BitAt(bitmap, i) <==> i in used;
        if !Bit(bitmap[i / 32], Mask(i % 32)) {
          LeastFreeIs(used, i);
          SetOneBit(i, true);
          usedFrames := usedFrames + 1;
          used := used + {i};
          return i;
        }
        i := i + 1;
      }
      LeastFreeIs(used, TOTAL_FRAMES);
      return 0;
    }

    /** frame_bitmap[i / 32] |= 1 << (i % 32), or &= ~(1 << (i % 32)). */
    method SetOneBit(i: nat, on: bool)
      requires bitmap.Length == WORDS && i < TOTAL_FRAMES
      modifies bitmap
      ensures forall j: nat {:trigger BitAt(bitmap, j)} | j < TOTAL_FRAMES ::
                BitAt(bitmap, j) == if j == i then on else old(BitAt(bitmap, j))
    {
      var w := bitmap[i / 32];
      bitmap[i / 32] := SetTo(w, Mask(i % 32), on);
      forall j: nat | j < TOTAL_FRAMES
        ensures BitAt(bitmap, j) == if j == i then on else old(BitAt(bitmap, j))
      {
        OneBitChanges(w, i % 32, j % 32, on);
      }
    }

    /** Out-of-range and free frames are rejected, so freeing twice frees once. */
    method FreeFrame(frame: nat)
      requires Valid()
      modifies this, bitmap
      ensures Valid() && used == old(used) - {frame}
    {
      if frame >= TOTAL_FRAMES {
        return;
      }
      assert BitAt(bitmap, frame) <==> frame in used;
      if !Bit(bitmap[frame / 32], Mask(frame % 32)) {
        return;
      }
      SetOneBit(frame, false);
      usedFrames := usedFrames - 1;
      used := used - {frame};
    }

    /** The start of init_paging with the bitmap where the source puts it: the directory gets
        the frame of the bitmap, clearing the directory clears the bitmap, and the first
        page table gets frame 0, which reads as failure, so that nothing is mapped. What is
        left in the directory is the present bit of entry 0, over a table at address 0. */
    method InitPagingAsPlaced() returns (directory: nat, table: nat)
      requires Valid() && used == Reserved()
      modifies this, bitmap
      ensures directory * PAGE_SIZE == BITMAP_ADDR && table == 0
      ensures bitmap.Length == WORDS && forall i: nat | i < TOTAL_FRAMES :: BitAt(bitmap, i) <==> i == 0
      ensures usedFrames == RESERVED_FRAMES + 2
    {
      DirectoryLandsOnBitmap();
      FirstFramesCount(RESERVED_FRAMES);
      NotFullBelow(Reserved(), RESERVED_FRAMES);
      directory := AllocFrame();
      forall w | 0 <= w < WORDS { bitmap[w] := 0; }
      forall j: nat | j < TOTAL_FRAMES ensures !BitAt(bitmap, j) { ZeroWord(Mask(j % 32)); }
      used := {};
      NotFullBelow({}, 0);
      table := AllocFrame();
    }
  }

  lemma NotFullBelow(used: set<nat>, f: nat)
    requires f < TOTAL_FRAMES && f !in used
    ensures !Full(used)
  {
    LeastFreeIsLeast(used);
  }
}
