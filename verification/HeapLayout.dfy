/** The block list of the kernel heap as a value: the sequence of blocks in
    list order, the two transformations `kmalloc` and `kfree` make on it, and
    the invariant both keep. */
module HeapLayout {
  import opened Machine

  const HEAP_START := 0xC000_0000
  const HEAP_SIZE := 0x100_0000
  const HEAP_END := HEAP_START + HEAP_SIZE
  const HEADER := 16          // sizeof(heap_block_t) on i686
  const MIN_BLOCK := 24       // sizeof(heap_block_t) + 8
  const MAX_REQUEST := WORD - 24

  datatype Block = Block(addr: int, size: int, free: bool) {
    function End(): int { addr + size }
  }

  type Layout = seq<Block>

  const INITIAL: Layout := [Block(HEAP_START, HEAP_SIZE, true)]

  predicate SizeOk(b: Block) { b.size % 8 == 0 && b.size >= MIN_BLOCK }

  /** Consecutive blocks touch. */
  predicate Chained(bs: Layout) {
    forall i, j | 0 <= i && j == i + 1 < |bs| :: bs[i].End() == bs[j].addr
  }

  predicate Tiles(bs: Layout) {
    && |bs| > 0 && bs[0].addr == HEAP_START && bs[|bs| - 1].End() == HEAP_END
    && Chained(bs)
    && forall i | 0 <= i < |bs| :: SizeOk(bs[i])
  }

  predicate Coalesced(bs: Layout) {
    forall i, j | 0 <= i && j == i + 1 < |bs| :: !(bs[i].free && bs[j].free)
  }

  predicate Inv(bs: Layout) { Tiles(bs) && Coalesced(bs) }

  // ---- Sizes -------------------------------------------------------------

  /** `align_size`: (size + 7) & ~7 on a 32-bit size_t. */
  function Align(n: int): (r: int)
    requires 0 <= n < WORD
    ensures 0 <= r < WORD && r % 8 == 0
    ensures n <= r <==> n <= WORD - 8
  {
    var m := (n + 7) % WORD;
    m - m % 8
  }

  /** `actual_size` in `kmalloc`. */
  function Need(n: int): (r: int)
    requires 0 <= n < WORD
    ensures 0 <= r < WORD
  {
    (Align(n) + HEADER) % WORD
  }

  /** The block asked for is large enough exactly when no 32-bit addition wrapped. */
  lemma NeedCoversRequest(n: int)
    requires 0 < n < WORD
    ensures n <= Need(n) - HEADER <==> n <= MAX_REQUEST
    ensures n <= MAX_REQUEST ==> Need(n) % 8 == 0 && Need(n) >= MIN_BLOCK && Need(n) - HEADER - n < 8
    ensures n > MAX_REQUEST ==> Need(n) in {0, 8, 16}
  {
    if n <= WORD - 8 {
      assert (n + 7) % WORD == n + 7;
      if n <= MAX_REQUEST {
        assert Align(n) + HEADER < WORD;
      } else {
        assert Align(n) == WORD - 16 || Align(n) == WORD - 8;
      }
    } else {
      assert (n + 7) % WORD == n + 7 - WORD;
      assert Align(n) == 0;
    }
  }

  // ---- Allocation and release ---------------------------------------------

  predicate Fits(b: Block, need: int) { b.free && b.size >= need }

  /** Index of the first free block of at least `need` bytes, |bs| if none. */
  function FirstFit(bs: Layout, need: int): (k: nat)
    ensures k <= |bs|
    ensures forall i | 0 <= i < k :: !Fits(bs[i], need)
    ensures k < |bs| ==> Fits(bs[k], need)
  {
    if bs == [] || Fits(bs[0], need) then 0 else 1 + FirstFit(bs[1..], need)
  }

  /** bs[lo..hi] replaced by `mid`. */
  function Splice(bs: Layout, lo: nat, hi: nat, mid: Layout): Layout
    requires lo <= hi <= |bs|
  {
    bs[..lo] + mid + bs[hi..]
  }

  predicate SplitDeclined(b: Block, need: int) { b.size - need < MIN_BLOCK }

  /** The blocks that replace the chosen one: it alone, or it and the remainder. */
  function Taken(b: Block, need: int): Layout {
    if SplitDeclined(b, need) then [b.(free := false)]
    else [Block(b.addr, need, false), Block(b.addr + need, b.size - need, true)]
  }

  /** What `split_block` makes of block k, still marked free. */
  function Split(bs: Layout, k: nat, need: int): Layout
    requires k < |bs|
  {
    var b := bs[k];
    if SplitDeclined(b, need) then bs
    else Splice(bs, k, k + 1, [Block(b.addr, need, true), Block(b.addr + need, b.size - need, true)])
  }

  function Take(bs: Layout, k: nat, need: int): Layout
    requires k < |bs|
  {
    Splice(bs, k, k + 1, Taken(bs[k], need))
  }

  /** First and one-past-last index of the blocks that merge when block k is freed. */
  function MergeLo(bs: Layout, k: nat): nat
    requires k < |bs|
  {
    if k > 0 && bs[k - 1].free then k - 1 else k
  }

  function MergeHi(bs: Layout, k: nat): nat
    requires k < |bs|
  {
    if k + 1 < |bs| && bs[k + 1].free then k + 2 else k + 1
  }

  function Release(bs: Layout, k: nat): Layout
    requires k < |bs|
  {
    var lo, hi := MergeLo(bs, k), MergeHi(bs, k);
    Splice(bs, lo, hi, [Block(bs[lo].addr, bs[hi - 1].End() - bs[lo].addr, true)])
  }

  // ---- kmalloc and kfree ---------------------------------------------------

  /** What a caller can observe: the block list and `used_size`. */
  datatype Heap = Heap(blocks: Layout, used: int)

  const NULL := 0

  function Malloc(h: Heap, n: int): (Heap, int)
    requires 0 <= n <= MAX_REQUEST
  {
    var k := FirstFit(h.blocks, Need(n));
    if n == 0 || k == |h.blocks| then (h, NULL)
    else (Heap(Take(h.blocks, k, Need(n)), (h.used + Need(n)) % WORD), h.blocks[k].addr + HEADER)
  }

  /** Index of the block at an address, |bs| if no block starts there. */
  function IndexOf(bs: Layout, addr: int): (k: nat)
    ensures k <= |bs|
    ensures forall i | 0 <= i < k :: bs[i].addr != addr
    ensures k < |bs| ==> bs[k].addr == addr
  {
    if bs == [] || bs[0].addr == addr then 0 else 1 + IndexOf(bs[1..], addr)
  }

  predicate IsBlock(bs: Layout, p: int) { IndexOf(bs, p - HEADER) < |bs| }

  predicate IsLive(bs: Layout, p: int) { IsBlock(bs, p) && !bs[IndexOf(bs, p - HEADER)].free }

  function Free(h: Heap, p: int): Heap {
    if p == NULL || !IsLive(h.blocks, p) then h
    else
      var k := IndexOf(h.blocks, p - HEADER);
      Heap(Release(h.blocks, k), (h.used - h.blocks[k].size) % WORD)
  }

  // ---- The invariant -------------------------------------------------------

  /** Later blocks lie above earlier ones. */
  lemma {:induction false} Ordered(bs: Layout, i: nat, j: nat)
    requires Tiles(bs) && i < j < |bs|
    ensures bs[i].End() <= bs[j].addr
    decreases j - i
  {
    assert SizeOk(bs[j - 1]);
    assert bs[j - 1].End() == bs[j].addr;
    if i < j - 1 { Ordered(bs, i, j - 1); }
  }

  lemma {:induction false} Aligned(bs: Layout, i: nat)
    requires Tiles(bs) && i < |bs|
    ensures HEAP_START <= bs[i].addr && bs[i].End() <= HEAP_END && bs[i].addr % 8 == 0
  {
    if i > 0 {
      Aligned(bs, i - 1);
      assert SizeOk(bs[i - 1]) && bs[i - 1].End() == bs[i].addr;
    }
    if i < |bs| - 1 {
      Ordered(bs, i, |bs| - 1);
      assert SizeOk(bs[|bs| - 1]);
    }
  }

  /** Replacing a run of blocks by blocks that tile the same addresses keeps the tiling. */
  lemma SpliceTiles(bs: Layout, lo: nat, hi: nat, mid: Layout)
    requires Tiles(bs) && lo < hi <= |bs| && |mid| > 0
    requires mid[0].addr == bs[lo].addr && mid[|mid| - 1].End() == bs[hi - 1].End()
    requires Chained(mid) && forall i | 0 <= i < |mid| :: SizeOk(mid[i])
    ensures Tiles(Splice(bs, lo, hi, mid))
  {
    var r := Splice(bs, lo, hi, mid);
    var d := |mid| - (hi - lo);
    forall i, j | 0 <= i && j == i + 1 < |r|
      ensures r[i].End() == r[j].addr
    {
      if j < lo {
        assert r[i] == bs[i] && r[j] == bs[j];
      } else if j == lo {
        assert r[i] == bs[i] && r[j] == mid[0];
      } else if j < lo + |mid| {
        assert r[i] == mid[i - lo] && r[j] == mid[j - lo];
      } else if i < lo + |mid| {
        assert r[i] == mid[|mid| - 1] && r[j] == bs[hi];
      } else {
        assert r[i] == bs[i - d] && r[j] == bs[j - d];
      }
    }
    forall i | 0 <= i < |r| ensures SizeOk(r[i]) {
      if i < lo {
        assert r[i] == bs[i];
      } else if i < lo + |mid| {
        assert r[i] == mid[i - lo];
      } else {
        assert r[i] == bs[i - d];
      }
    }
  }

  lemma TakenIsTiled(b: Block, need: int)
    requires SizeOk(b) && Fits(b, need) && need % 8 == 0 && need >= MIN_BLOCK
    ensures var t := Taken(b, need);
            && t[0].addr == b.addr && t[|t| - 1].End() == b.End() && Chained(t)
            && forall i | 0 <= i < |t| :: SizeOk(t[i])
  {
    assert (b.size - need) % 8 == 0;
  }

  lemma TakeKeepsInv(bs: Layout, k: nat, need: int)
    requires Inv(bs) && k < |bs| && Fits(bs[k], need) && need % 8 == 0 && need >= MIN_BLOCK
    ensures Inv(Take(bs, k, need))
  {
    var t := Taken(bs[k], need);
    TakenIsTiled(bs[k], need);
    SpliceTiles(bs, k, k + 1, t);
    var r := Take(bs, k, need);
    forall i, j | 0 <= i && j == i + 1 < |r|
      ensures !(r[i].free && r[j].free)
    {
      if j < k {
        assert r[i] == bs[i] && r[j] == bs[j];
      } else if i >= k + |t| {
        assert r[i] == bs[i - |t| + 1] && r[j] == bs[j - |t| + 1];
      } else if i == k + |t| - 1 {
        assert r[j] == bs[k + 1] && bs[k].free;
      } else {
        assert r[k] == t[0] && !t[0].free;
      }
    }
  }

  lemma {:induction false} MergedSize(bs: Layout, lo: nat, hi: nat)
    requires Tiles(bs) && lo < hi <= |bs|
    ensures SizeOk(Block(bs[lo].addr, bs[hi - 1].End() - bs[lo].addr, true))
    decreases hi
  {
    assert SizeOk(bs[hi - 1]);
    if hi - 1 > lo {
      MergedSize(bs, lo, hi - 1);
      assert bs[hi - 2].End() == bs[hi - 1].addr;
    }
  }

  lemma ReleaseKeepsInv(bs: Layout, k: nat)
    requires Inv(bs) && k < |bs| && !bs[k].free
    ensures Inv(Release(bs, k))
  {
    ReleaseTiles(bs, k);
    ReleaseCoalesces(bs, k);
  }

  lemma ReleaseTiles(bs: Layout, k: nat)
    requires Tiles(bs) && k < |bs|
    ensures Tiles(Release(bs, k))
  {
    var lo, hi := MergeLo(bs, k), MergeHi(bs, k);
    MergedSize(bs, lo, hi);
    SpliceTiles(bs, lo, hi, [Block(bs[lo].addr, bs[hi - 1].End() - bs[lo].addr, true)]);
  }

  lemma ReleaseCoalesces(bs: Layout, k: nat)
    requires Coalesced(bs) && k < |bs| && !bs[k].free
    ensures Coalesced(Release(bs, k))
  {
    var lo, hi := MergeLo(bs, k), MergeHi(bs, k);
    var r := Release(bs, k);
    forall i, j | 0 <= i && j == i + 1 < |r|
      ensures !(r[i].free && r[j].free)
    {
      var d := hi - lo - 1;
      if j < lo {
        assert r[i] == bs[i] && r[j] == bs[j];
      } else if j == lo {
        assert r[i] == bs[lo - 1];
        assert !bs[lo - 1].free;
      } else if i == lo {
        assert r[j] == bs[hi];
        assert !bs[hi].free;
      } else {
        assert r[i] == bs[i + d] && r[j] == bs[j + d];
      }
    }
  }

  // ---- Which blocks are live ------------------------------------------------

  ghost function Live(bs: Layout): set<Block> { set b | b in bs && !b.free }

  lemma TakeLive(bs: Layout, k: nat, need: int)
    requires k < |bs| && bs[k].free
    ensures Live(Take(bs, k, need)) == Live(bs) + {Taken(bs[k], need)[0]}
  {
    var t := Taken(bs[k], need);
    var r := Take(bs, k, need);
    forall b | b in Live(bs) ensures b in r {
      var i :| 0 <= i < |bs| && bs[i] == b;
      assert i != k;
      assert i < k ==> r[i] == b;
      assert i > k ==> r[i + |t| - 1] == b;
    }
    assert r[k] == t[0];
    assert bs == bs[..k] + [bs[k]] + bs[k + 1..];
  }

  lemma ReleaseLive(bs: Layout, k: nat)
    requires Tiles(bs) && k < |bs| && !bs[k].free
    ensures Live(Release(bs, k)) == Live(bs) - {bs[k]}
  {
    var lo, hi := MergeLo(bs, k), MergeHi(bs, k);
    var r := Release(bs, k);
    forall b | b in Live(bs) && b != bs[k] ensures b in r {
      var i :| 0 <= i < |bs| && bs[i] == b;
      assert i < lo || i >= hi;
      assert i < lo ==> r[i] == b;
      assert i >= hi ==> r[i - (hi - lo) + 1] == b;
    }
    forall b | b in r && !b.free ensures b in bs && b != bs[k] {
      var i :| 0 <= i < |r| && r[i] == b;
      var j := if i < lo then i else i + (hi - lo) - 1;
      assert i != lo && b == bs[j] && j != k;
      Distinct(bs, j, k);
    }
  }

  lemma Distinct(bs: Layout, i: nat, j: nat)
    requires Tiles(bs) && i < |bs| && j < |bs| && i != j
    ensures bs[i].addr != bs[j].addr
  {
    assert SizeOk(bs[i]) && SizeOk(bs[j]);
    if i < j { Ordered(bs, i, j); } else { Ordered(bs, j, i); }
  }

  lemma IndexOfBlock(bs: Layout, k: nat)
    requires Tiles(bs) && k < |bs|
    ensures IndexOf(bs, bs[k].addr) == k
  {
    var i := IndexOf(bs, bs[k].addr);
    if i != k { Distinct(bs, i, k); }
  }

  // ---- Main results about one step -------------------------------------------

  /** The n bytes from lo on lie in the heap and outside every live block. */
  ghost predicate IsGap(bs: Layout, lo: int, n: int) {
    && HEAP_START <= lo && lo + n <= HEAP_END
    && forall b | b in bs && !b.free :: b.End() <= lo || lo + n <= b.addr
  }

  lemma {:induction false} BlockContaining(bs: Layout, x: int, n: nat) returns (k: nat)
    requires Tiles(bs) && n < |bs| && HEAP_START <= x < bs[n].End()
    ensures k <= n && bs[k].addr <= x < bs[k].End()
  {
    if bs[n].addr <= x { return n; }
    assert n > 0 && bs[n - 1].End() == bs[n].addr;
    k := BlockContaining(bs, x, n - 1);
  }

  /** Every gap lies inside one free block: neighbours were all merged. */
  lemma GapInOneBlock(bs: Layout, lo: int, n: int) returns (k: nat)
    requires Inv(bs) && IsGap(bs, lo, n) && n > 0
    ensures k < |bs| && bs[k].free && bs[k].addr <= lo && lo + n <= bs[k].End()
  {
    k := BlockContaining(bs, lo, |bs| - 1);
    assert bs[k] in bs && bs[k].free;
    if k + 1 < |bs| {
      assert bs[k].End() == bs[k + 1].addr && SizeOk(bs[k + 1]);
      assert bs[k + 1] in bs && !bs[k + 1].free;
    }
  }

  /** First fit fails exactly when no run of bytes outside live blocks is long
      enough, so uncoalesced neighbours never cause a failure. */
  lemma FailureIsComplete(bs: Layout, need: int)
    requires Inv(bs) && need > 0
    ensures FirstFit(bs, need) == |bs| <==> !exists lo :: IsGap(bs, lo, need)
  {
    var k := FirstFit(bs, need);
    if k < |bs| {
      Aligned(bs, k);
      forall b | b in bs && !b.free
        ensures b.End() <= bs[k].addr || bs[k].addr + need <= b.addr
      {
        var i :| 0 <= i < |bs| && bs[i] == b;
        if i < k { Ordered(bs, i, k); } else { Ordered(bs, k, i); }
      }
      assert IsGap(bs, bs[k].addr, need);
    } else {
      forall lo ensures !IsGap(bs, lo, need) {
        if IsGap(bs, lo, need) { var _ := GapInOneBlock(bs, lo, need); }
      }
    }
  }

  /** Allocating and at once releasing restores the exact layout. */
  lemma TakeThenRelease(bs: Layout, k: nat, need: int)
    requires Inv(bs) && k < |bs| && Fits(bs[k], need)
    ensures Release(Take(bs, k, need), k) == bs
  {
    var t := Take(bs, k, need);
    assert k > 0 ==> t[k - 1] == bs[k - 1] && !bs[k - 1].free;
    if SplitDeclined(bs[k], need) {
      assert t == bs[k := bs[k].(free := false)];
      assert k + 1 < |bs| ==> !t[k + 1].free;
    } else {
      assert t[k + 1] == Block(bs[k].addr + need, bs[k].size - need, true);
      assert t[k + 2..] == bs[k + 1..];
    }
  }

  lemma NotBothFree(bs: Layout, i: nat)
    requires Coalesced(bs) && i + 1 < |bs|
    ensures !bs[i].free || !bs[i + 1].free
  {}

  /** With nothing live, the heap is the single block it started as. */
  lemma NothingLive(bs: Layout)
    requires Inv(bs) && Live(bs) == {}
    ensures bs == INITIAL
  {
    assert forall b | b in bs && !b.free :: b in Live(bs);
    assert forall i | 0 <= i < |bs| :: bs[i] in bs && bs[i].free;
    if |bs| > 1 { NotBothFree(bs, 0); }
  }
}
