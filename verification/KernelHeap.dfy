/** The allocator itself: headers in memory at their addresses, linked by
    `next` and `prev`, and the global `kheap` record. */
module KernelHeap {
  import opened Machine
  import opened HeapLayout
  import HeapRuns
  import HeapExact

  datatype Header = Header(size: int, next: int, prev: int, isFree: bool)

  function NextAddr(bs: Layout, i: int): int
    requires 0 <= i < |bs|
  {
    if i + 1 < |bs| then bs[i + 1].addr else NULL
  }

  function PrevAddr(bs: Layout, i: int): int
    requires 0 <= i < |bs|
  {
    if i > 0 then bs[i - 1].addr else NULL
  }

  /** The header at bs[i].addr holds block i, linked to both its neighbours. */
  predicate Holds(mem: map<int, Header>, bs: Layout, i: int)
    requires 0 <= i < |bs|
  {
    && bs[i].addr in mem
    && mem[bs[i].addr] == Header(bs[i].size, NextAddr(bs, i), PrevAddr(bs, i), bs[i].free)
  }

  predicate Linked(mem: map<int, Header>, bs: Layout) {
    forall i | 0 <= i < |bs| :: Holds(mem, bs, i)
  }

  /** Writing headers of some blocks leaves the header of any other block alone. */
  lemma HeadersApart(bs: Layout, k: nat)
    requires Tiles(bs) && k < |bs|
    ensures forall i | 0 <= i < |bs| && i != k :: bs[i].addr != bs[k].addr
    ensures forall i | 0 <= i < |bs| && i != k :: bs[i].addr < bs[k].addr || bs[k].End() <= bs[i].addr
    ensures forall i | 0 <= i < |bs| :: bs[i].addr != NULL
  {
    forall i | 0 <= i < |bs| && i != k
      ensures bs[i].addr < bs[k].addr || bs[k].End() <= bs[i].addr
    {
      assert SizeOk(bs[i]) && SizeOk(bs[k]);
      if i < k { Ordered(bs, i, k); } else { Ordered(bs, k, i); }
    }
    forall i | 0 <= i < |bs| ensures bs[i].addr != NULL { Aligned(bs, i); }
    assert SizeOk(bs[k]);
  }

  lemma NextIsApart(bs: Layout, k: nat)
    requires Tiles(bs) && k < |bs|
    ensures NextAddr(bs, k) != NULL <==> k + 1 < |bs|
    ensures NextAddr(bs, k) != NULL ==> NextAddr(bs, k) == bs[k].End()
    ensures PrevAddr(bs, k) != NULL <==> k > 0
    ensures PrevAddr(bs, k) < bs[k].addr
  {
    HeadersApart(bs, k);
    if k > 0 { Ordered(bs, k - 1, k); assert SizeOk(bs[k - 1]); }
  }

  /** A list stays linked when a run of blocks is replaced, if the new blocks and
      the two around them are linked and no other header was written. */
  lemma LinkedSplice(mem: map<int, Header>, bs: Layout, mem': map<int, Header>, lo: nat, hi: nat, mid: Layout)
    requires Linked(mem, bs) && lo < hi <= |bs|
    requires var r := Splice(bs, lo, hi, mid);
             forall i | lo - 1 <= i <= lo + |mid| && 0 <= i < |r| :: Holds(mem', r, i)
    requires forall i | 0 <= i < |bs| && (i < lo - 1 || i > hi) ::
               Holds(mem, bs, i) ==> bs[i].addr in mem' && mem'[bs[i].addr] == mem[bs[i].addr]
    ensures Linked(mem', Splice(bs, lo, hi, mid))
  {
    var r := Splice(bs, lo, hi, mid);
    forall i | 0 <= i < |r| ensures Holds(mem', r, i) {
      if i < lo - 1 {
        assert Holds(mem, bs, i);
      } else if i > lo + |mid| {
        assert Holds(mem, bs, i - |mid| + (hi - lo));
      }
    }
  }

  /** `mem'` differs from `mem` only in the headers at `keep`. */
  predicate SameElsewhere(mem: map<int, Header>, mem': map<int, Header>, keep: set<int>) {
    forall a | a in mem && a !in keep :: a in mem' && mem'[a] == mem[a]
  }

  lemma SplitTiles(bs: Layout, k: nat, size: int)
    requires Tiles(bs) && k < |bs| && Fits(bs[k], size) && size % 8 == 0 && size >= MIN_BLOCK
    ensures Tiles(Split(bs, k, size))
  {
    TakenIsTiled(bs[k], size);
    if !SplitDeclined(bs[k], size) {
      SpliceTiles(bs, k, k + 1, [Block(bs[k].addr, size, true), Block(bs[k].addr + size, bs[k].size - size, true)]);
    }
  }

  lemma SplitLinked(mem: map<int, Header>, bs: Layout, mem': map<int, Header>, k: nat, size: int)
    requires Tiles(bs) && Linked(mem, bs) && k < |bs| && Holds(mem, bs, k)
    requires Fits(bs[k], size) && size % 8 == 0 && size >= MIN_BLOCK && !SplitDeclined(bs[k], size)
    requires var rest, next := bs[k].addr + size, NextAddr(bs, k);
             && bs[k].addr in mem' && mem'[bs[k].addr] == Header(size, rest, PrevAddr(bs, k), true)
             && rest in mem' && mem'[rest] == Header(bs[k].size - size, next, bs[k].addr, true)
             && SameElsewhere(mem, mem', {bs[k].addr, rest, next})
             && (next != NULL ==> next in mem && next in mem' && mem'[next] == mem[next].(prev := rest))
    ensures Linked(mem', Split(bs, k, size))
  {
    var rest := bs[k].addr + size;
    var mid := [Block(bs[k].addr, size, true), Block(rest, bs[k].size - size, true)];
    var r := Split(bs, k, size);
    assert r == Splice(bs, k, k + 1, mid);
    NextIsApart(bs, k);
    if k + 1 < |bs| {
      assert Holds(mem, bs, k + 1) && r[k + 2] == bs[k + 1];
      assert Holds(mem', r, k + 2);
    }
    if k > 0 {
      assert Holds(mem, bs, k - 1) && bs[k - 1].addr < bs[k].addr;
      assert Holds(mem', r, k - 1);
    }
    SplitElsewhere(mem, bs, mem', k, rest);
    assert Holds(mem', r, k) && Holds(mem', r, k + 1);
    LinkedSplice(mem, bs, mem', k, k + 1, mid);
  }

  /** Blocks further away keep their headers. */
  lemma SplitElsewhere(mem: map<int, Header>, bs: Layout, mem': map<int, Header>, k: nat, rest: int)
    requires Tiles(bs) && k < |bs| && bs[k].addr < rest < bs[k].End()
    requires SameElsewhere(mem, mem', {bs[k].addr, rest, NextAddr(bs, k)})
    ensures forall i | 0 <= i < |bs| && (i < k - 1 || i > k + 1) ::
              Holds(mem, bs, i) ==> bs[i].addr in mem' && mem'[bs[i].addr] == mem[bs[i].addr]
  {
    forall i | 0 <= i < |bs| && (i < k - 1 || i > k + 1) && Holds(mem, bs, i)
      ensures bs[i].addr in mem' && mem'[bs[i].addr] == mem[bs[i].addr]
    {
      FarApart(bs, i, k);
    }
  }

  lemma FarApart(bs: Layout, i: nat, k: nat)
    requires Tiles(bs) && i < |bs| && k < |bs| && i != k
    ensures bs[i].addr < bs[k].addr || bs[k].End() <= bs[i].addr
    ensures i != k + 1 ==> bs[i].addr != NextAddr(bs, k)
    ensures i != k - 1 ==> bs[i].addr != PrevAddr(bs, k)
  {
    HeadersApart(bs, k);
    if k + 1 < |bs| && i != k + 1 { Distinct(bs, i, k + 1); }
    if k > 0 && i != k - 1 { Distinct(bs, i, k - 1); }
  }

  class KHeap {
    var mem: map<int, Header>
    var freeList: int
    var usedSize: int
    const totalSize := HEAP_SIZE
    /** The block list that `mem` holds. */
    ghost var blocks: Layout

    ghost predicate WellFormed()
      reads this
    {
      && Tiles(blocks)
      && freeList == HEAP_START
      && Linked(mem, blocks)
      && 0 <= usedSize < WORD
    }

    ghost predicate Valid()
      reads this
    {
      WellFormed() && Coalesced(blocks)
    }

    ghost function Abs(): Heap
      reads this
    {
      Heap(blocks, usedSize)
    }

    constructor Init()
      ensures Valid() && blocks == INITIAL && usedSize == 0
    {
      freeList := HEAP_START;
      usedSize := 0;
      mem := map[HEAP_START := Header(HEAP_SIZE, NULL, NULL, true)];
      blocks := INITIAL;
    }

    method FindFreeBlock(size: int) returns (current: int)
      requires WellFormed()
      ensures var k := FirstFit(blocks, size);
              current == if k < |blocks| then blocks[k].addr else NULL
    {
      current := freeList;
      ghost var i := 0;
      while current != NULL
        invariant 0 <= i <= |blocks|
        invariant current == if i < |blocks| then blocks[i].addr else NULL
        invariant forall j | 0 <= j < i :: !Fits(blocks[j], size)
        decreases |blocks| - i
      {
        assert Holds(mem, blocks, i);
        if mem[current].isFree && mem[current].size >= size {
          FirstFitIs(blocks, size, i);
          return;
        }
        HeadersApart(blocks, i);
        current := mem[current].next;
        i := i + 1;
      }
      if i < |blocks| { HeadersApart(blocks, i); assert false; }
      FirstFitIs(blocks, size, i);
    }

    method SplitBlock(block: int, size: int, ghost k: nat)
      requires WellFormed() && k < |blocks| && blocks[k].addr == block
      requires Fits(blocks[k], size) && 0 <= size
      modifies this`mem, this`blocks
      ensures block in mem
      ensures mem[block].size == if SplitDeclined(old(blocks)[k], size) then old(blocks)[k].size else size
      ensures size % 8 == 0 && size >= MIN_BLOCK ==>
                WellFormed() && blocks == Split(old(blocks), k, size)
    {
      assert Holds(mem, blocks, k);
      NextIsApart(blocks, k);
      assert k + 1 < |blocks| ==> Holds(mem, blocks, k + 1);
      if mem[block].size - size < HEADER + 8 {
        return;
      }
      var newBlock := block + size;
      ghost var mem0, bs := mem, blocks;
      mem := mem[newBlock := Header(mem[block].size - size, mem[block].next, block, true)];
      var next := mem[block].next;
      if next != NULL {
        mem := mem[next := mem[next].(prev := newBlock)];
      }
      mem := mem[block := mem[block].(next := newBlock)];
      mem := mem[block := mem[block].(size := size)];
      blocks := Split(bs, k, size);
      if size % 8 == 0 && size >= MIN_BLOCK {
        SplitTiles(bs, k, size);
        SplitLinked(mem0, bs, mem, k, size);
      }
    }

    /** Sets `is_free` of one block; the links stay. */
    method SetFree(block: int, free: bool, ghost k: nat)
      requires WellFormed() && k < |blocks| && blocks[k].addr == block
      modifies this`mem, this`blocks
      ensures WellFormed() && blocks == old(blocks)[k := old(blocks)[k].(free := free)]
      ensures block in mem && mem == old(mem)[block := mem[block]] && mem[block].isFree == free
    {
      assert Holds(mem, blocks, k);
      SetFreeLinked(mem, blocks, k, free);
      mem := mem[block := mem[block].(isFree := free)];
      blocks := blocks[k := blocks[k].(free := free)];
    }

    /** Block i takes over the addresses of block i + 1, whose header stays behind in memory. */
    method Absorb(left: int, right: int, ghost i: nat)
      requires WellFormed() && i + 1 < |blocks|
      requires blocks[i].addr == left && blocks[i + 1].addr == right
      modifies this`mem, this`blocks
      ensures WellFormed() && blocks == Join(old(blocks), i)
      ensures mem.Keys == old(mem).Keys
      ensures forall a | a in mem :: mem[a].isFree == old(mem)[a].isFree
    {
      assert Holds(mem, blocks, i) && Holds(mem, blocks, i + 1);
      assert i + 2 < |blocks| ==> Holds(mem, blocks, i + 2);
      NextIsApart(blocks, i + 1);
      assert SizeOk(blocks[i]) && SizeOk(blocks[i + 1]) && blocks[i].End() == blocks[i + 1].addr;
      ghost var mem0, bs := mem, blocks;
      mem := mem[left := mem[left].(size := mem[left].size + mem[right].size)];
      mem := mem[left := mem[left].(next := mem[right].next)];
      var next := mem[left].next;
      if next != NULL {
        mem := mem[next := mem[next].(prev := left)];
      }
      blocks := Join(bs, i);
      JoinTiles(bs, i);
      JoinLinked(mem0, bs, mem, i);
    }

    method MergeNext(block: int, ghost k: nat)
      requires WellFormed() && k < |blocks| && blocks[k].addr == block
      modifies this`mem, this`blocks
      ensures WellFormed() && blocks == JoinNext(old(blocks), k)
      ensures mem.Keys == old(mem).Keys
      ensures forall a | a in mem :: mem[a].isFree == old(mem)[a].isFree
    {
      assert Holds(mem, blocks, k);
      NextIsApart(blocks, k);
      assert k + 1 < |blocks| ==> Holds(mem, blocks, k + 1);
      if mem[block].next != NULL && mem[mem[block].next].isFree {
        Absorb(block, mem[block].next, k);
      }
    }

    method MergePrev(block: int, ghost k: nat)
      requires WellFormed() && k < |blocks| && blocks[k].addr == block
      modifies this`mem, this`blocks
      ensures WellFormed() && blocks == JoinPrev(old(blocks), k)
      ensures mem.Keys == old(mem).Keys
      ensures forall a | a in mem :: mem[a].isFree == old(mem)[a].isFree
    {
      assert Holds(mem, blocks, k);
      NextIsApart(blocks, k);
      assert k > 0 ==> Holds(mem, blocks, k - 1);
      if mem[block].prev != NULL && mem[mem[block].prev].isFree {
        Absorb(mem[block].prev, block, k - 1);
      }
    }

    method MergeBlocks(block: int, ghost k: nat)
      requires WellFormed() && k < |blocks| && blocks[k].addr == block && blocks[k].free
      modifies this`mem, this`blocks
      ensures WellFormed() && blocks == Release(old(blocks), k)
      ensures mem.Keys == old(mem).Keys
      ensures forall a | a in mem :: mem[a].isFree == old(mem)[a].isFree
    {
      assert k + 1 < |blocks| ==> blocks[k].End() == blocks[k + 1].addr;
      assert k > 0 ==> blocks[k - 1].End() == blocks[k].addr;
      JoinsAreRelease(blocks, k);
      MergeNext(block, k);
      MergePrev(block, k);
    }

    /** NULL exactly for a zero request or when no block fits, and then nothing
        changes. The block returned is as large as requested exactly when the
        32-bit size arithmetic did not wrap, and then the call is `Malloc`. */
    method Kmalloc(n: int) returns (ptr: int)
      requires Valid() && 0 <= n < WORD
      modifies this
      ensures ptr == NULL <==> n == 0 || FirstFit(old(blocks), Need(n)) == |old(blocks)|
      ensures ptr == NULL ==> mem == old(mem) && Abs() == old(Abs())
      ensures n <= MAX_REQUEST ==> Valid() && (Abs(), ptr) == Malloc(old(Abs()), n)
      ensures ptr != NULL ==>
                && ptr - HEADER in mem
                && (mem[ptr - HEADER].size - HEADER >= n <==> n <= MAX_REQUEST)
      ensures ptr != NULL && n <= MAX_REQUEST ==>
                var need := (n + 7) / 8 * 8 + 16;
                && ptr - 16 in old(mem) && old(mem)[ptr - 16].isFree && !mem[ptr - 16].isFree
                && var size := old(mem)[ptr - 16].size;
                   mem[ptr - 16].size == if size - need < 24 then size else need
    {
      if n == 0 {
        return NULL;
      }
      var actualSize := Need(n);
      NeedCoversRequest(n);
      var block := FindFreeBlock(actualSize);
      ghost var k := FirstFit(blocks, actualSize);
      FoundIsBlock(blocks, k);
      if block == NULL {
        return NULL;
      }
      assert Holds(mem, blocks, k);
      if n <= MAX_REQUEST {
        HeapRuns.MallocIsTake(Abs(), n, k);
        HeapExact.NeedIsBytes(n);
      }
      TakeBlock(block, actualSize, k);
      return block + HEADER;
    }

    /** Splits the block, marks it as used and counts it. */
    method TakeBlock(block: int, size: int, ghost k: nat)
      requires Valid() && k < |blocks| && blocks[k].addr == block && Fits(blocks[k], size) && 0 <= size
      modifies this
      ensures block in mem && !mem[block].isFree
      ensures mem[block].size == if SplitDeclined(old(blocks)[k], size) then old(blocks)[k].size else size
      ensures usedSize == (old(usedSize) + size) % WORD
      ensures size % 8 == 0 && size >= MIN_BLOCK ==> Valid() && blocks == Take(old(blocks), k, size)
    {
      SplitThenMark(blocks, k, size);
      if size % 8 == 0 && size >= MIN_BLOCK { TakeKeepsInv(blocks, k, size); }
      SplitBlock(block, size, k);
      if size % 8 == 0 && size >= MIN_BLOCK {
        assert Holds(mem, blocks, k);
        SetFreeLinked(mem, blocks, k, false);
      }
      mem := mem[block := mem[block].(isFree := false)];
      if k < |blocks| { blocks := blocks[k := blocks[k].(free := false)]; }
      usedSize := (usedSize + size) % WORD;
    }

    /** The caller passes NULL, a block of the list, or a pointer whose header
        still says free. The header says free afterwards, even when a merge
        absorbed the block, so repeating the call changes nothing. */
    method Kfree(ptr: int)
      requires Valid()
      requires ptr == NULL || (ptr - HEADER in mem && (mem[ptr - HEADER].isFree || IsBlock(blocks, ptr)))
      modifies this
      ensures Valid() && Abs() == Free(old(Abs()), ptr)
      ensures ptr != NULL ==> ptr - HEADER in mem && mem[ptr - HEADER].isFree
      ensures ptr != NULL && old(mem)[ptr - HEADER].isFree ==> mem == old(mem) && Abs() == old(Abs())
    {
      if ptr == NULL {
        return;
      }
      var block := ptr - HEADER;
      ghost var k := IndexOf(blocks, block);
      assert k < |blocks| ==> Holds(mem, blocks, k);
      if mem[block].isFree {
        return;
      }
      HeapRuns.FreeIsRelease(Abs(), ptr, k, blocks[k].size);
      FreeBlock(block, k);
    }

    /** Marks the block, counts it off and merges it. */
    method FreeBlock(block: int, ghost k: nat)
      requires Valid() && k < |blocks| && blocks[k].addr == block && !blocks[k].free
      modifies this
      ensures Valid() && blocks == Release(old(blocks), k) && usedSize == (old(usedSize) - old(blocks)[k].size) % WORD
      ensures block in mem && mem[block].isFree
    {
      ReleaseKeepsInv(blocks, k);
      ReleaseIgnoresMark(blocks, k);
      SetFree(block, true, k);
      assert Holds(mem, blocks, k);
      usedSize := (usedSize - mem[block].size) % WORD;
      MergeBlocks(block, k);
    }

    /** An immediately repeated kfree, absorbed header or not. */
    method KfreeTwice(ptr: int)
      requires Valid() && IsLive(blocks, ptr) && ptr != NULL
      modifies this
      ensures Valid() && Abs() == Free(old(Abs()), ptr)
    {
      assert Holds(mem, blocks, IndexOf(blocks, ptr - HEADER));
      Kfree(ptr);
      Kfree(ptr);
    }

    method GetKheapInfo() returns (total: int, used: int, free: int)
      requires Valid()
      ensures total == HEAP_SIZE && used == usedSize
      ensures 0 <= free < WORD && (used + free) % WORD == total
    {
      total, used, free := totalSize, usedSize, (totalSize - usedSize) % WORD;
    }
  }

  lemma SetFreeLinked(mem: map<int, Header>, bs: Layout, k: nat, free: bool)
    requires Tiles(bs) && Linked(mem, bs) && k < |bs| && Holds(mem, bs, k)
    ensures var bs' := bs[k := bs[k].(free := free)];
            Tiles(bs') && Linked(mem[bs[k].addr := mem[bs[k].addr].(isFree := free)], bs')
  {
    var bs' := bs[k := bs[k].(free := free)];
    var mem' := mem[bs[k].addr := mem[bs[k].addr].(isFree := free)];
    forall i | 0 <= i < |bs'| ensures SizeOk(bs'[i]) { assert SizeOk(bs[i]); }
    forall i | 0 <= i < |bs'| ensures Holds(mem', bs', i) {
      assert Holds(mem, bs, i);
      if i != k { Distinct(bs, i, k); }
    }
  }

  lemma SplitThenMark(bs: Layout, k: nat, need: int)
    requires k < |bs|
    ensures var s := Split(bs, k, need);
            && |s| > k && s[k].addr == bs[k].addr
            && Take(bs, k, need) == s[k := s[k].(free := false)]
  {
    if SplitDeclined(bs[k], need) {
      assert bs[k := bs[k].(free := false)] == bs[..k] + [bs[k].(free := false)] + bs[k + 1..];
    }
  }

  lemma FoundIsBlock(bs: Layout, k: nat)
    requires Tiles(bs)
    ensures k < |bs| ==> HEAP_START <= bs[k].addr && bs[k].size <= HEAP_SIZE
  {
    if k < |bs| { Aligned(bs, k); }
  }

  /** Blocks i and i + 1 become one. */
  function Join(bs: Layout, i: nat): Layout
    requires i + 1 < |bs|
  {
    Splice(bs, i, i + 2, [bs[i].(size := bs[i].size + bs[i + 1].size)])
  }

  lemma JoinTiles(bs: Layout, i: nat)
    requires Tiles(bs) && i + 1 < |bs|
    ensures Tiles(Join(bs, i))
  {
    assert SizeOk(bs[i]) && SizeOk(bs[i + 1]) && bs[i].End() == bs[i + 1].addr;
    SpliceTiles(bs, i, i + 2, [bs[i].(size := bs[i].size + bs[i + 1].size)]);
  }

  lemma JoinLinked(mem: map<int, Header>, bs: Layout, mem': map<int, Header>, i: nat)
    requires Tiles(bs) && Linked(mem, bs) && i + 1 < |bs| && Holds(mem, bs, i)
    requires var next := NextAddr(bs, i + 1);
             && bs[i].addr in mem'
             && mem'[bs[i].addr] == mem[bs[i].addr].(size := bs[i].size + bs[i + 1].size, next := next)
             && SameElsewhere(mem, mem', {bs[i].addr, next})
             && (next != NULL ==> next in mem && next in mem' && mem'[next] == mem[next].(prev := bs[i].addr))
    ensures Linked(mem', Join(bs, i))
  {
    var mid := [bs[i].(size := bs[i].size + bs[i + 1].size)];
    var r := Join(bs, i);
    NextIsApart(bs, i);
    NextIsApart(bs, i + 1);
    assert SizeOk(bs[i]);
    if i + 2 < |bs| {
      assert Holds(mem, bs, i + 2) && r[i + 1] == bs[i + 2];
      assert Holds(mem', r, i + 1);
    }
    if i > 0 {
      assert Holds(mem, bs, i - 1) && bs[i - 1].addr < bs[i].addr;
      assert Holds(mem', r, i - 1);
    }
    forall j | 0 <= j < |bs| && (j < i - 1 || j > i + 2) && Holds(mem, bs, j)
      ensures bs[j].addr in mem' && mem'[bs[j].addr] == mem[bs[j].addr]
    {
      FarApart(bs, j, i);
      FarApart(bs, j, i + 1);
    }
    assert Holds(mem', r, i);
    LinkedSplice(mem, bs, mem', i, i + 2, mid);
  }

  function JoinNext(bs: Layout, k: nat): Layout
    requires k < |bs|
  {
    if k + 1 < |bs| && bs[k + 1].free then Join(bs, k) else bs
  }

  function JoinPrev(bs: Layout, k: nat): Layout
    requires k < |bs|
  {
    if k > 0 && bs[k - 1].free then Join(bs, k - 1) else bs
  }

  lemma JoinNextIsSplice(bs: Layout, k: nat)
    requires k < |bs| && bs[k].free
    requires k + 1 < |bs| ==> bs[k].End() == bs[k + 1].addr
    ensures var hi := MergeHi(bs, k);
            JoinNext(bs, k) == Splice(bs, k, hi, [Block(bs[k].addr, bs[hi - 1].End() - bs[k].addr, true)])
  {
    if MergeHi(bs, k) == k + 1 {
      assert bs == Splice(bs, k, k + 1, [bs[k]]);
    }
  }

  lemma {:induction false} JoinNextKeepsAddress(bs: Layout, k: nat)
    requires k < |bs| && bs[k].free && (k + 1 < |bs| ==> bs[k].End() == bs[k + 1].addr)
    ensures |JoinNext(bs, k)| > k && JoinNext(bs, k)[k].addr == bs[k].addr
  {
    JoinNextIsSplice(bs, k);
  }

  /** The merged block ends at `end` and starts at lo. */
  function Merged(bs: Layout, lo: nat, end: int): Block
    requires lo < |bs|
  {
    Block(bs[lo].addr, end - bs[lo].addr, true)
  }

  lemma {:induction false} JoinsAreSplice(bs: Layout, k: nat, hi: nat, end: int, a: Layout)
    requires k < |bs| && bs[k].free && hi == MergeHi(bs, k) && end == bs[hi - 1].End()
    requires k > 0 ==> bs[k - 1].End() == bs[k].addr
    requires a == Splice(bs, k, hi, [Merged(bs, k, end)])
    ensures |a| > k && JoinPrev(a, k) == Release(bs, k)
  {
    JoinPrevIsSplice(bs, k, hi, end);
  }

  /** Merging forwards and then backwards is what `Release` describes. */
  lemma {:induction false} JoinsAreRelease(bs: Layout, k: nat)
    requires k < |bs| && bs[k].free
    requires k + 1 < |bs| ==> bs[k].End() == bs[k + 1].addr
    requires k > 0 ==> bs[k - 1].End() == bs[k].addr
    ensures |JoinNext(bs, k)| > k && JoinNext(bs, k)[k].addr == bs[k].addr
    ensures Release(bs, k) == JoinPrev(JoinNext(bs, k), k)
  {
    JoinNextKeepsAddress(bs, k);
    JoinNextIsSplice(bs, k);
    var hi := MergeHi(bs, k);
    JoinsAreSplice(bs, k, hi, bs[hi - 1].End(), JoinNext(bs, k));
  }

  lemma JoinPrevIsSplice(bs: Layout, k: nat, hi: nat, end: int)
    requires k < hi <= |bs| && (k > 0 ==> bs[k - 1].End() == bs[k].addr)
    ensures var x, lo := Block(bs[k].addr, end - bs[k].addr, true), MergeLo(bs, k);
            var a := Splice(bs, k, hi, [x]);
            && |a| > k && a[k] == x
            && JoinPrev(a, k) == Splice(bs, lo, hi, [Block(bs[lo].addr, end - bs[lo].addr, true)])
  {
    var x := Block(bs[k].addr, end - bs[k].addr, true);
    SpliceAgain(bs, k, hi, x);
    assert k > 0 ==> bs[k - 1].size + x.size == end - bs[k - 1].addr;
  }

  lemma SpliceAgain(bs: Layout, k: nat, hi: nat, x: Block)
    requires k < hi <= |bs|
    ensures var a := Splice(bs, k, hi, [x]);
            && |a| > k && a[k] == x
            && (k > 0 ==>
                  && a[k - 1] == bs[k - 1]
                  && Join(a, k - 1) == Splice(bs, k - 1, hi, [bs[k - 1].(size := bs[k - 1].size + x.size)]))
  {
    var a := Splice(bs, k, hi, [x]);
    if k > 0 { assert a[..k - 1] == bs[..k - 1] && a[k + 1..] == bs[hi..]; }
  }

  lemma ReleaseIgnoresMark(bs: Layout, k: nat)
    requires k < |bs|
    ensures Release(bs[k := bs[k].(free := true)], k) == Release(bs, k)
  {}

  lemma FirstFitIs(bs: Layout, need: int, i: nat)
    requires i <= |bs| && forall j | 0 <= j < i :: !Fits(bs[j], need)
    requires i < |bs| ==> Fits(bs[i], need)
    ensures FirstFit(bs, need) == i
  {
    var k := FirstFit(bs, need);
    assert k < |bs| ==> Fits(bs[k], need);
  }
}
