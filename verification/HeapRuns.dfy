/** What holds over whole runs of kmalloc and kfree. */
module HeapRuns {
  import opened Machine
  import opened HeapLayout

  const BOOT := Heap(INITIAL, 0)

  datatype Op = DoMalloc(n: int) | DoFree(p: int)

  /** Requests small enough for the size arithmetic, and frees of NULL or of a block. */
  predicate Allowed(h: Heap, op: Op) {
    match op
    case DoMalloc(n) => 0 <= n <= MAX_REQUEST
    case DoFree(p) => p == NULL || IsBlock(h.blocks, p)
  }

  function Step(h: Heap, op: Op): Heap
    requires Allowed(h, op)
  {
    match op
    case DoMalloc(n) => Malloc(h, n).0
    case DoFree(p) => Free(h, p)
  }

  predicate Legal(h: Heap, ops: seq<Op>)
    decreases |ops|
  {
    ops == [] || (Allowed(h, ops[0]) && Legal(Step(h, ops[0]), ops[1..]))
  }

  function Exec(h: Heap, ops: seq<Op>): Heap
    requires Legal(h, ops)
    decreases |ops|
  {
    if ops == [] then h else Exec(Step(h, ops[0]), ops[1..])
  }

  // ---- The invariant over every run -----------------------------------------

  lemma StepKeepsInv(h: Heap, op: Op)
    requires Inv(h.blocks) && Allowed(h, op)
    ensures Inv(Step(h, op).blocks)
  {
    match op
    case DoMalloc(n) =>
      var k := FirstFit(h.blocks, Need(n));
      if n != 0 && k < |h.blocks| {
        NeedCoversRequest(n);
        TakeKeepsInv(h.blocks, k, Need(n));
      }
    case DoFree(p) =>
      if IsLive(h.blocks, p) { ReleaseKeepsInv(h.blocks, IndexOf(h.blocks, p - HEADER)); }
  }

  /** Every reachable block list tiles the heap and has no two neighbouring free blocks. */
  lemma {:induction false} RunKeepsInv(h: Heap, ops: seq<Op>)
    requires Inv(h.blocks) && Legal(h, ops)
    ensures Inv(Exec(h, ops).blocks)
    decreases |ops|
  {
    if ops != [] {
      StepKeepsInv(h, ops[0]);
      RunKeepsInv(Step(h, ops[0]), ops[1..]);
    }
  }

  // ---- Live allocations --------------------------------------------------------

  lemma StepKeepsLive(h: Heap, op: Op, b: Block)
    requires Tiles(h.blocks) && Allowed(h, op) && b in Live(h.blocks)
    requires op != DoFree(b.addr + HEADER)
    ensures b in Live(Step(h, op).blocks)
  {
    match op
    case DoMalloc(n) =>
      var k := FirstFit(h.blocks, Need(n));
      if n != 0 && k < |h.blocks| { TakeLive(h.blocks, k, Need(n)); }
    case DoFree(p) =>
      if p != NULL && IsLive(h.blocks, p) { ReleaseLive(h.blocks, IndexOf(h.blocks, p - HEADER)); }
  }

  lemma {:induction false} LiveSurvives(h: Heap, ops: seq<Op>, b: Block)
    requires Inv(h.blocks) && Legal(h, ops) && b in Live(h.blocks)
    requires DoFree(b.addr + HEADER) !in ops
    ensures b in Live(Exec(h, ops).blocks)
    decreases |ops|
  {
    if ops != [] {
      StepKeepsInv(h, ops[0]);
      StepKeepsLive(h, ops[0], b);
      LiveSurvives(Step(h, ops[0]), ops[1..], b);
    }
  }

  lemma LiveApart(bs: Layout, b: Block, c: Block)
    requires Tiles(bs) && b in bs && c in bs && b != c
    ensures b.End() <= c.addr || c.End() <= b.addr
  {
    var i :| 0 <= i < |bs| && bs[i] == b;
    var j :| 0 <= j < |bs| && bs[j] == c;
    if i < j { Ordered(bs, i, j); } else { Ordered(bs, j, i); }
  }

  /** The block a successful kmalloc(n) takes. */
  lemma {:induction false} MallocTakes(h: Heap, n: int) returns (b: Block)
    requires Inv(h.blocks) && 0 <= n <= MAX_REQUEST && Malloc(h, n).1 != NULL
    ensures var (h', p) := Malloc(h, n);
            && b.addr + HEADER == p && p % 8 == 0 && b.size - HEADER >= n
            && HEAP_START <= b.addr && b.End() <= HEAP_END && b !in h.blocks && b in Live(h'.blocks)
  {
    var k := FirstFit(h.blocks, Need(n));
    NeedCoversRequest(n);
    TakeLive(h.blocks, k, Need(n));
    b := Taken(h.blocks[k], Need(n))[0];
    Aligned(h.blocks, k);
    if b in h.blocks {
      LiveApart(h.blocks, b, h.blocks[k]);
    }
  }

  /** A successful kmalloc(n) in any reachable state gives an 8-aligned block inside
      the heap that holds n bytes behind its header; whatever runs afterwards
      without freeing it, the block keeps its address and size and overlaps no
      other block. */
  lemma {:induction false} AllocationHonoured(h: Heap, n: int, h': Heap, p: int, later: seq<Op>) returns (b: Block)
    requires Inv(h.blocks) && 0 <= n <= MAX_REQUEST && (h', p) == Malloc(h, n) && p != NULL
    requires Legal(h', later) && DoFree(p) !in later
    ensures var bs := Exec(h', later).blocks;
            && b.addr + HEADER == p && p % 8 == 0 && b.size - HEADER >= n
            && HEAP_START <= b.addr && b.End() <= HEAP_END
            && b !in h.blocks && b in Live(h'.blocks) && b in Live(bs)
            && forall c | c in bs && c != b :: b.End() <= c.addr || c.End() <= b.addr
  {
    b := MallocTakes(h, n);
    StepKeepsInv(h, DoMalloc(n));
    StaysApart(h', later, b);
  }

  /** A live block survives a run that does not free it, apart from all others. */
  lemma {:induction false} StaysApart(h: Heap, ops: seq<Op>, b: Block)
    requires Inv(h.blocks) && Legal(h, ops) && b in Live(h.blocks) && DoFree(b.addr + HEADER) !in ops
    ensures var bs := Exec(h, ops).blocks;
            b in Live(bs) && forall c | c in bs && c != b :: b.End() <= c.addr || c.End() <= b.addr
  {
    LiveSurvives(h, ops, b);
    RunKeepsInv(h, ops);
    var bs := Exec(h, ops).blocks;
    forall c | c in bs && c != b ensures b.End() <= c.addr || c.End() <= b.addr {
      LiveApart(bs, b, c);
    }
  }

  // ---- Undoing --------------------------------------------------------------------

  /** Properly nested use: allocate n, run `inner`, free it, run `next`. A failed
      allocation is simply not freed. */
  datatype Nested = Done | Bracket(n: int, inner: Nested, next: Nested)

  predicate Sized(t: Nested) {
    t.Bracket? ==> 0 <= t.n <= MAX_REQUEST && Sized(t.inner) && Sized(t.next)
  }

  function Unwind(h: Heap, t: Nested): Heap
    requires Sized(t)
    decreases t
  {
    match t
    case Done => h
    case Bracket(n, inner, next) =>
      var (h', p) := Malloc(h, n);
      Unwind(Free(Unwind(h', inner), p), next)
  }

  lemma MallocFails(h: Heap, n: int)
    requires Inv(h.blocks) && 0 <= n <= MAX_REQUEST && Malloc(h, n).1 == NULL
    ensures Malloc(h, n).0 == h
  {
    var k := FirstFit(h.blocks, Need(n));
    if k < |h.blocks| { Aligned(h.blocks, k); }
  }

  lemma {:induction false} FreeAt(u: Heap, k: nat)
    requires Tiles(u.blocks) && k < |u.blocks| && !u.blocks[k].free
    ensures Free(u, u.blocks[k].addr + HEADER).blocks == Release(u.blocks, k)
  {
    Aligned(u.blocks, k);
    IndexOfBlock(u.blocks, k);
  }

  lemma TakeAt(bs: Layout, k: nat, need: int)
    requires k < |bs|
    ensures var t := Take(bs, k, need); k < |t| && t[k].addr == bs[k].addr && !t[k].free
  {
    assert Take(bs, k, need)[k] == Taken(bs[k], need)[0];
  }

  lemma {:induction false} MallocIsTake(h: Heap, n: int, k: nat)
    requires 0 < n <= MAX_REQUEST && k == FirstFit(h.blocks, Need(n)) < |h.blocks|
    ensures Malloc(h, n) == (Heap(Take(h.blocks, k, Need(n)), (h.used + Need(n)) % WORD), h.blocks[k].addr + HEADER)
  {}

  lemma {:induction false} FreeIsRelease(h: Heap, p: int, k: nat, size: int)
    requires p != NULL && IsLive(h.blocks, p) && k == IndexOf(h.blocks, p - HEADER) && size == h.blocks[k].size
    ensures Free(h, p) == Heap(Release(h.blocks, k), (h.used - size) % WORD)
  {}

  lemma {:induction false} MallocThenFree(h: Heap, n: int, h': Heap, p: int, u: Heap)
    requires Inv(h.blocks) && 0 <= n <= MAX_REQUEST && (h', p) == Malloc(h, n) && p != NULL
    requires u.blocks == h'.blocks && Tiles(u.blocks)
    ensures Free(u, p).blocks == h.blocks
  {
    var k := FirstFit(h.blocks, Need(n));
    MallocIsTake(h, n, k);
    TakeThenFree(h.blocks, k, Need(n), u);
  }

  lemma {:induction false} TakeThenFree(bs: Layout, k: nat, need: int, u: Heap)
    requires Inv(bs) && k < |bs| && Fits(bs[k], need) && Tiles(u.blocks) && u.blocks == Take(bs, k, need)
    ensures Free(u, bs[k].addr + HEADER).blocks == bs
  {
    TakeThenRelease(bs, k, need);
    TakeAt(bs, k, need);
    FreeAt(u, k);
  }

  /** Any nested use restores the exact block list: in particular kmalloc then
      kfree, and the failure paths that free in reverse what they allocated. */
  lemma {:induction false} NestedUseRestores(h: Heap, t: Nested)
    requires Inv(h.blocks) && Sized(t)
    ensures Unwind(h, t).blocks == h.blocks
    decreases t
  {
    match t
    case Done =>
    case Bracket(n, inner, next) =>
      var (h', p) := Malloc(h, n);
      StepKeepsInv(h, DoMalloc(n));
      NestedUseRestores(h', inner);
      var u := Unwind(h', inner);
      if p == NULL {
        MallocFails(h, n);
      } else {
        MallocThenFree(h, n, h', p, u);
      }
      assert Unwind(h, t) == Unwind(Free(u, p), next);
      NestedUseRestores(Free(u, p), next);
  }

  function FreeAll(h: Heap, ps: seq<int>): Heap
    decreases |ps|
  {
    if ps == [] then h else FreeAll(Free(h, ps[0]), ps[1..])
  }

  ghost function Pointers(bs: set<Block>): set<int> { set b | b in bs :: b.addr + HEADER }

  ghost function LivePointers(bs: Layout): set<int> { Pointers(Live(bs)) }

  lemma LivePointer(bs: Layout, p: int) returns (k: nat)
    requires Tiles(bs) && p in LivePointers(bs)
    ensures k < |bs| && bs[k].addr + HEADER == p && !bs[k].free
    ensures IndexOf(bs, p - HEADER) == k && p != NULL
  {
    var b :| b in Live(bs) && b.addr + HEADER == p;
    k :| 0 <= k < |bs| && bs[k] == b;
    Aligned(bs, k);
    IndexOfBlock(bs, k);
  }

  lemma SameAddressSameBlock(bs: Layout, b: Block, c: Block)
    requires Tiles(bs) && b in bs && c in bs && b.addr == c.addr
    ensures b == c
  {
    var i :| 0 <= i < |bs| && bs[i] == b;
    var j :| 0 <= j < |bs| && bs[j] == c;
    if i != j { Distinct(bs, i, j); }
  }

  lemma OnlyBlockAt(bs: Layout, b: Block)
    requires Tiles(bs) && b in bs
    ensures forall c | c in Live(bs) && c.addr == b.addr :: c == b
  {
    forall c | c in Live(bs) && c.addr == b.addr ensures c == b {
      SameAddressSameBlock(bs, b, c);
    }
  }

  lemma PointersMinus(s: set<Block>, b: Block)
    requires b in s && forall c | c in s && c.addr == b.addr :: c == b
    ensures Pointers(s - {b}) == Pointers(s) - {b.addr + HEADER}
  {
    forall q | q in Pointers(s) - {b.addr + HEADER} ensures q in Pointers(s - {b}) {
      var c :| c in s && c.addr + HEADER == q;
      assert c in s - {b};
    }
  }

  lemma ReleaseDropsPointer(bs: Layout, k: nat)
    requires Tiles(bs) && k < |bs| && !bs[k].free
    ensures LivePointers(Release(bs, k)) == LivePointers(bs) - {bs[k].addr + HEADER}
  {
    ReleaseLive(bs, k);
    OnlyBlockAt(bs, bs[k]);
    PointersMinus(Live(bs), bs[k]);
  }

  lemma {:induction false} FreeDropsPointer(h: Heap, p: int)
    requires Inv(h.blocks) && p in LivePointers(h.blocks)
    ensures IsLive(h.blocks, p) && p != NULL
    ensures LivePointers(Free(h, p).blocks) == LivePointers(h.blocks) - {p}
  {
    var k := LivePointer(h.blocks, p);
    ReleaseDropsPointer(h.blocks, k);
  }

  lemma {:induction false} FreeAllEmpties(h: Heap, ps: seq<int>)
    requires Inv(h.blocks)
    requires (set p | p in ps) == LivePointers(h.blocks)
    requires forall i, j | 0 <= i < j < |ps| :: ps[i] != ps[j]
    ensures FreeAll(h, ps).blocks == INITIAL
    decreases |ps|
  {
    if ps == [] {
      assert forall b | b in Live(h.blocks) :: b.addr + HEADER in LivePointers(h.blocks);
      NothingLive(h.blocks);
    } else {
      FreeDropsPointer(h, ps[0]);
      StepKeepsInv(h, DoFree(ps[0]));
      assert (set p | p in ps[1..]) == (set p | p in ps) - {ps[0]};
      FreeAllEmpties(Free(h, ps[0]), ps[1..]);
    }
  }

  /** After any run, freeing the live allocations in any order restores the one
      free block the heap started with. */
  lemma FreeingAllRestores(ops: seq<Op>, ps: seq<int>)
    requires Legal(BOOT, ops)
    requires (set p | p in ps) == LivePointers(Exec(BOOT, ops).blocks)
    requires forall i, j | 0 <= i < j < |ps| :: ps[i] != ps[j]
    ensures FreeAll(Exec(BOOT, ops), ps).blocks == INITIAL
  {
    RunKeepsInv(BOOT, ops);
    FreeAllEmpties(Exec(BOOT, ops), ps);
  }

  /** After any run, kmalloc(n) fails exactly when no run of bytes outside the live
      blocks has room for the aligned request and its header. */
  lemma OutOfMemoryIsReal(ops: seq<Op>, n: int)
    requires Legal(BOOT, ops) && 0 < n <= MAX_REQUEST
    ensures var h := Exec(BOOT, ops);
            Malloc(h, n).1 == NULL <==> !exists lo :: IsGap(h.blocks, lo, Need(n))
  {
    var h := Exec(BOOT, ops);
    RunKeepsInv(BOOT, ops);
    NeedCoversRequest(n);
    FailureIsComplete(h.blocks, Need(n));
    var k := FirstFit(h.blocks, Need(n));
    if k < |h.blocks| { Aligned(h.blocks, k); }
  }

  // ---- The used_size counter --------------------------------------------------------

  ghost function SumSizes(s: set<Block>): int {
    if s == {} then 0 else var b :| b in s; b.size + SumSizes(s - {b})
  }

  lemma {:induction false} SumSizesRemove(s: set<Block>, x: Block)
    requires x in s
    ensures SumSizes(s) == x.size + SumSizes(s - {x})
  {
    var b :| b in s && SumSizes(s) == b.size + SumSizes(s - {b});
    if b != x {
      SumSizesRemove(s - {b}, x);
      SumSizesRemove(s - {x}, b);
      assert s - {b} - {x} == s - {x} - {b};
    }
  }

  ghost function SumLive(bs: Layout): int { SumSizes(Live(bs)) }

  /** Bytes a step adds to live blocks beyond what `used_size` counts: the leftover
      of a block taken whole because the split was declined. */
  function SlackOf(h: Heap, op: Op): int
    requires Allowed(h, op)
  {
    match op
    case DoFree(_) => 0
    case DoMalloc(n) =>
      var k := FirstFit(h.blocks, Need(n));
      if n != 0 && k < |h.blocks| && SplitDeclined(h.blocks[k], Need(n))
      then h.blocks[k].size - Need(n) else 0
  }

  function Slack(h: Heap, ops: seq<Op>): int
    requires Legal(h, ops)
    decreases |ops|
  {
    if ops == [] then 0 else SlackOf(h, ops[0]) + Slack(Step(h, ops[0]), ops[1..])
  }

  lemma TakeSum(bs: Layout, k: nat, need: int)
    requires Tiles(bs) && k < |bs| && bs[k].free
    ensures SumLive(Take(bs, k, need)) == SumLive(bs) + Taken(bs[k], need)[0].size
  {
    var b := Taken(bs[k], need)[0];
    TakeLive(bs, k, need);
    if b in bs { SameAddressSameBlock(bs, b, bs[k]); }
    SumSizesRemove(Live(bs) + {b}, b);
    assert Live(bs) + {b} - {b} == Live(bs);
  }

  lemma ReleaseSum(bs: Layout, k: nat)
    requires Tiles(bs) && k < |bs| && !bs[k].free
    ensures SumLive(Release(bs, k)) == SumLive(bs) - bs[k].size
  {
    ReleaseLive(bs, k);
    SumSizesRemove(Live(bs), bs[k]);
  }

  lemma {:induction false} MallocUsed(h: Heap, n: int) returns (q: int)
    requires Inv(h.blocks) && 0 <= n <= MAX_REQUEST
    ensures var h', slack := Malloc(h, n).0, SlackOf(h, DoMalloc(n));
            slack in {0, 8, 16} && h'.used == h.used + SumLive(h'.blocks) - SumLive(h.blocks) - slack + q * WORD
  {
    var bs, need := h.blocks, Need(n);
    var k := FirstFit(bs, need);
    q := 0;
    if n != 0 && k < |bs| {
      NeedCoversRequest(n);
      TakeSum(bs, k, need);
      SlackIsSmall(bs[k], need);
      q := -((h.used + need) / WORD);
    }
  }

  lemma {:induction false} FreeUsed(h: Heap, p: int) returns (q: int)
    requires Inv(h.blocks)
    ensures var h' := Free(h, p); h'.used == h.used + SumLive(h'.blocks) - SumLive(h.blocks) + q * WORD
  {
    q := 0;
    if p != NULL && IsLive(h.blocks, p) {
      var k := IndexOf(h.blocks, p - HEADER);
      ReleaseSum(h.blocks, k);
      q := -((h.used - h.blocks[k].size) / WORD);
    }
  }

  /** One step moves `used_size` by the change of the live total minus its slack. */
  lemma {:induction false} StepUsed(h: Heap, op: Op) returns (q: int)
    requires Inv(h.blocks) && Allowed(h, op)
    ensures SlackOf(h, op) in {0, 8, 16}
    ensures Step(h, op).used == h.used + SumLive(Step(h, op).blocks) - SumLive(h.blocks) - SlackOf(h, op) + q * WORD
  {
    match op
    case DoMalloc(n) => q := MallocUsed(h, n);
    case DoFree(p) => q := FreeUsed(h, p);
  }

  lemma SlackIsSmall(b: Block, need: int)
    requires SizeOk(b) && need % 8 == 0 && b.size >= need
    ensures SplitDeclined(b, need) ==> b.size - need in {0, 8, 16}
  {
    assert (b.size - need) % 8 == 0;
  }

  lemma {:induction false} UsedOverRun(h: Heap, ops: seq<Op>) returns (q: int)
    requires Inv(h.blocks) && Legal(h, ops)
    ensures var h' := Exec(h, ops);
            h'.used == h.used + SumLive(h'.blocks) - SumLive(h.blocks) - Slack(h, ops) + q * WORD
    decreases |ops|
  {
    if ops == [] { return 0; }
    var q0 := StepUsed(h, ops[0]);
    StepKeepsInv(h, ops[0]);
    var q1 := UsedOverRun(Step(h, ops[0]), ops[1..]);
    return q0 + q1;
  }

  /** After any run from boot, `used_size` is the sum of the live blocks minus all
      slack ever taken, modulo 2^32; so it is the intended sum exactly when the
      total slack is a multiple of 2^32, in particular when no split with
      leftover was ever declined. */
  lemma UsedSizeLaw(ops: seq<Op>)
    requires Legal(BOOT, ops)
    ensures var h := Exec(BOOT, ops);
            && h.used == (SumLive(h.blocks) - Slack(BOOT, ops)) % WORD
            && (h.used == SumLive(h.blocks) % WORD <==> Slack(BOOT, ops) % WORD == 0)
  {
    var h := Exec(BOOT, ops);
    var q := UsedOverRun(BOOT, ops);
    UsedInRange(BOOT, ops);
    assert Live(INITIAL) == {};
    ModShift(h.used, SumLive(h.blocks) - Slack(BOOT, ops), q);
    ModDifference(SumLive(h.blocks), Slack(BOOT, ops));
  }

  lemma {:induction false} UsedInRange(h: Heap, ops: seq<Op>)
    requires 0 <= h.used < WORD && Legal(h, ops)
    ensures 0 <= Exec(h, ops).used < WORD
    decreases |ops|
  {
    if ops != [] { UsedInRange(Step(h, ops[0]), ops[1..]); }
  }

  lemma ModShift(u: int, x: int, q: int)
    requires 0 <= u < WORD && u == x + q * WORD
    ensures u == x % WORD
  {}

  lemma ModDifference(x: int, y: int)
    ensures (x - y) % WORD == x % WORD <==> y % WORD == 0
  {
    var a, b := x % WORD, y % WORD;
    var d := x / WORD - y / WORD;
    assert x - y == a - b + d * WORD;
    if a >= b {
      ModShift(a - b, x - y, -d);
    } else {
      ModShift(a - b + WORD, x - y, 1 - d);
    }
  }
}
