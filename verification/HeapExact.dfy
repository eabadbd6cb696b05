/** What kmalloc and kfree do to the block list, in numbers, and why that leaves no choice:
    the live blocks determine the list. */
module HeapExact {
  import opened Machine
  import opened HeapLayout
  import opened HeapRuns

  /** The request rounded up to a multiple of 8, and 16 bytes of header. */
  function Bytes(n: nat): nat { (n + 7) / 8 * 8 + 16 }

  lemma NeedIsBytes(n: nat)
    requires 0 < n <= 0xFFFF_FFE8
    ensures Need(n) == Bytes(n)
  {
    assert Align(n) == (n + 7) / 8 * 8;
  }

  // ---- The list is determined by the live blocks ----------------------------------------

  lemma LiveAt(a: Layout, b: Layout, i: nat)
    requires Tiles(a) && Tiles(b) && Live(a) == Live(b)
    requires i < |a| && i < |b| && a[i].addr == b[i].addr && !a[i].free
    ensures a[i] == b[i]
  {
    assert a[i] in Live(a);
    var j :| 0 <= j < |b| && b[j] == a[i];
    if j != i { Distinct(b, i, j); }
  }

  /** Of two free blocks at the same place neither can be longer. */
  lemma FreeAtEnds(a: Layout, b: Layout, i: nat)
    requires Inv(a) && Inv(b) && Live(a) == Live(b)
    requires i < |a| && i < |b| && a[i].addr == b[i].addr && a[i].free && b[i].free
    ensures a[i].End() >= b[i].End()
  {
    if a[i].End() < b[i].End() {
      Aligned(b, i);
      assert i + 1 < |a| && a[i].End() == a[i + 1].addr;
      assert SizeOk(a[i]) && a[i + 1] in Live(a);
      var j :| 0 <= j < |b| && b[j] == a[i + 1];
      assert SizeOk(b[j]);
      if j < i { Ordered(b, j, i); } else if i < j { Ordered(b, i, j); }
    }
  }

  lemma SameBlockAt(a: Layout, b: Layout, i: nat)
    requires Inv(a) && Inv(b) && Live(a) == Live(b)
    requires i < |a| && i < |b| && a[i].addr == b[i].addr
    ensures a[i] == b[i]
  {
    if !a[i].free {
      LiveAt(a, b, i);
    } else if !b[i].free {
      LiveAt(b, a, i);
    } else {
      FreeAtEnds(a, b, i);
      FreeAtEnds(b, a, i);
    }
  }

  lemma {:induction false} SamePrefix(a: Layout, b: Layout, n: nat)
    requires Inv(a) && Inv(b) && Live(a) == Live(b) && 0 < n <= |a|
    ensures n <= |b| && a[..n] == b[..n]
  {
    if n > 1 {
      SamePrefix(a, b, n - 1);
      var i := n - 2;
      assert a[i] == a[..n - 1][i] && b[i] == b[..n - 1][i];
      assert a[i].End() == a[i + 1].addr;
      Aligned(a, i + 1);
      assert SizeOk(a[i + 1]);
      assert n <= |b| && b[i].End() == b[i + 1].addr;
      assert a[..n] == a[..n - 1] + [a[n - 1]] && b[..n] == b[..n - 1] + [b[n - 1]];
    }
    SameBlockAt(a, b, n - 1);
  }

  /** Two block lists with the same live blocks are equal: what is not live lies in maximal
      free blocks. */
  lemma LiveBlocksDetermine(a: Layout, b: Layout)
    requires Inv(a) && Inv(b) && Live(a) == Live(b)
    ensures a == b
  {
    SamePrefix(a, b, |a|);
    SamePrefix(b, a, |b|);
  }

  // ---- One call, in numbers ----------------------------------------------------------------

  /** The block that a request is served from: the first in address order that is free and
      large enough. It is taken whole exactly when fewer than 24 bytes would be left; else
      its front is taken and the rest stays free. No other block changes. */
  lemma {:induction false} MallocExact(h: Heap, n: nat, h': Heap, p: int) returns (b: Block)
    requires Inv(h.blocks) && 0 < n <= 0xFFFF_FFE8 && (h', p) == Malloc(h, n) && p != NULL
    ensures b in h.blocks && b.free && b.size >= Bytes(n) && p == b.addr + 16
    ensures forall c | c in h.blocks && c.free && c.size >= Bytes(n) :: b.addr <= c.addr
    ensures var whole := b.size - Bytes(n) < 24;
            forall c :: c in h'.blocks <==>
                     || (c in h.blocks && c != b)
                     || c == Block(b.addr, if whole then b.size else Bytes(n), false)
                     || (!whole && c == Block(b.addr + Bytes(n), b.size - Bytes(n), true))
    ensures h'.used == (h.used + Bytes(n)) % 0x1_0000_0000
  {
    NeedIsBytes(n);
    var bs, need := h.blocks, Bytes(n);
    var k := FirstFit(bs, need);
    MallocIsTake(h, n, k);
    b := bs[k];
    forall c | c in bs && c.free && c.size >= need ensures b.addr <= c.addr {
      var i :| 0 <= i < |bs| && bs[i] == c;
      assert SizeOk(b);
      if k < i { Ordered(bs, k, i); }
    }
    TakeMembers(bs, k, need);
  }

  lemma TakeMembers(bs: Layout, k: nat, need: nat)
    requires Inv(bs) && k < |bs| && Fits(bs[k], need)
    ensures var b := bs[k]; var whole := b.size - need < 24;
            forall c :: c in Take(bs, k, need) <==>
                     || (c in bs && c != b)
                     || c == Block(b.addr, if whole then b.size else need, false)
                     || (!whole && c == Block(b.addr + need, b.size - need, true))
  {
    var b, t, r := bs[k], Taken(bs[k], need), Take(bs, k, need);
    assert r == bs[..k] + t + bs[k + 1..];
    forall c ensures c in r <==> (c in bs && c != b) || c in t {
      OthersOf(bs, k, c);
    }
    assert b.size - need < 24 ==> t == [Block(b.addr, b.size, false)];
    assert b.size - need >= 24 ==> t == [Block(b.addr, need, false), Block(b.addr + need, b.size - need, true)];
  }

  lemma OthersOf(bs: Layout, k: nat, c: Block)
    requires Tiles(bs) && k < |bs|
    ensures c in bs[..k] || c in bs[k + 1..] <==> c in bs && c != bs[k]
  {
    if c in bs {
      var i :| 0 <= i < |bs| && bs[i] == c;
      assert i < k ==> bs[..k][i] == c;
      assert i > k ==> bs[k + 1..][i - k - 1] == c;
    }
    if c in bs[..k] {
      var i :| 0 <= i < k && bs[i] == c;
      Distinct(bs, i, k);
    }
    if c in bs[k + 1..] {
      var i :| 0 <= i < |bs| - k - 1 && bs[k + 1..][i] == c;
      Distinct(bs, i + k + 1, k);
    }
  }

  /** Freeing a live block removes it from the live ones and nothing else, and the list is
      tiled and coalesced again, which by LiveBlocksDetermine says all about it. */
  lemma {:induction false} FreeExact(h: Heap, b: Block, p: int, bs: Layout)
    requires Inv(h.blocks) && b in h.blocks && !b.free && p == b.addr + 16 && bs == Free(h, p).blocks
    ensures Inv(bs) && forall c: Block | !c.free :: c in bs <==> c in h.blocks && c != b
  {
    var k := LiveIndex(h.blocks, b, p);
    FreeIsRelease(h, p, k, b.size);
    ReleaseKeepsInv(h.blocks, k);
    ReleaseMembers(h.blocks, k);
  }

  /** And the counter goes down by the size of the block. */
  lemma {:induction false} FreeCounted(h: Heap, b: Block, p: int)
    requires Inv(h.blocks) && b in h.blocks && !b.free && p == b.addr + 16
    ensures Free(h, p).used == (h.used - b.size) % WORD
  {
    var k := LiveIndex(h.blocks, b, p);
    FreeIsRelease(h, p, k, b.size);
  }

  lemma {:induction false} LiveIndex(bs: Layout, b: Block, p: int) returns (k: nat)
    requires Tiles(bs) && b in bs && !b.free && p == b.addr + 16
    ensures k < |bs| && bs[k] == b && p != NULL && IsLive(bs, p) && IndexOf(bs, p - HEADER) == k
  {
    k :| 0 <= k < |bs| && bs[k] == b;
    IndexOfBlock(bs, k);
    Aligned(bs, k);
  }

  lemma ReleaseMembers(bs: Layout, k: nat)
    requires Tiles(bs) && k < |bs| && !bs[k].free
    ensures forall c: Block | !c.free :: c in Release(bs, k) <==> c in bs && c != bs[k]
  {
    ReleaseLive(bs, k);
    forall c: Block | !c.free ensures c in Release(bs, k) <==> c in bs && c != bs[k] {
      assert c in Release(bs, k) <==> c in Live(Release(bs, k));
      assert c in bs <==> c in Live(bs);
    }
  }

  // ---- Over runs ---------------------------------------------------------------------------

  /** In every reachable state each block has room for its header and at least 8 bytes more,
      in the 16 MB from 0xC0000000 on. */
  lemma BlocksInNumbers(ops: seq<Op>, b: Block)
    requires Legal(BOOT, ops) && b in Exec(BOOT, ops).blocks
    ensures b.size % 8 == 0 && b.size - 16 >= 8
    ensures b.addr % 8 == 0 && 0xC000_0000 <= b.addr && b.addr + b.size <= 0xC100_0000
  {
    RunKeepsInv(BOOT, ops);
    var bs := Exec(BOOT, ops).blocks;
    var i :| 0 <= i < |bs| && bs[i] == b;
    assert SizeOk(bs[i]);
    Aligned(bs, i);
  }

  /** The layout after two allocations of `size` and 24 bytes, the first block free or not. */
  function TwoBlocks(size: nat, free: bool): Layout {
    [Block(HEAP_START, size, free), Block(HEAP_START + size, 24, false),
     Block(HEAP_START + size + 24, HEAP_SIZE - size - 24, true)]
  }

  lemma FirstTwo(n: nat)
    requires 0 < n < 100 && n % 8 == 0
    ensures var h1 := Malloc(BOOT, n).0; Malloc(h1, 8).0 == Heap(TwoBlocks(n + 16, false), n + 40)
    ensures SlackOf(BOOT, DoMalloc(n)) == 0 && SlackOf(Malloc(BOOT, n).0, DoMalloc(8)) == 0
  {
    NeedIsBytes(n);
    NeedIsBytes(8);
    var h1 := Malloc(BOOT, n).0;
    assert FirstFit(BOOT.blocks, n + 16) == 0;
    assert h1 == Heap([Block(HEAP_START, n + 16, false), Block(HEAP_START + n + 16, HEAP_SIZE - n - 16, true)], n + 16);
    assert FirstFit(h1.blocks, 24) == 1;
  }

  lemma FreeFirst(n: nat)
    requires 0 < n < 100
    ensures IsBlock(TwoBlocks(n + 16, false), HEAP_START + 16)
    ensures Free(Heap(TwoBlocks(n + 16, false), n + 40), HEAP_START + 16) == Heap(TwoBlocks(n + 16, true), 24)
  {
    var bs := TwoBlocks(n + 16, false);
    assert IndexOf(bs, HEAP_START) == 0;
    assert Release(bs, 0) == TwoBlocks(n + 16, true);
  }

  lemma TakeFirst(n: nat, m: nat)
    requires 0 < m < n < 100 && n % 8 == 0 && m % 8 == 0 && n - m < 24
    ensures SlackOf(Heap(TwoBlocks(n + 16, true), 24), DoMalloc(m)) == n - m
  {
    NeedIsBytes(m);
    assert FirstFit(TwoBlocks(n + 16, true), m + 16) == 0;
  }

  /** kmalloc(n), kmalloc(8), kfree of the first, kmalloc(m). */
  function Reuse(n: nat, m: nat): seq<Op> { [DoMalloc(n), DoMalloc(8), DoFree(HEAP_START + 16), DoMalloc(m)] }

  /** Such a run leaves used_size n - m below the sum of the live blocks: with 16 and 8, and
      with 32 and 16, the two slacks there are. */
  lemma UsedSizeDrifts(n: nat, m: nat)
    requires 0 < m < n < 100 && n % 8 == 0 && m % 8 == 0 && n - m < 24
    ensures Legal(BOOT, Reuse(n, m)) && Slack(BOOT, Reuse(n, m)) == n - m
    ensures var h := Exec(BOOT, Reuse(n, m)); h.used != SumLive(h.blocks) % 0x1_0000_0000
  {
    var ops := Reuse(n, m);
    LastThree(n, m);
    assert ops[1..] == [DoMalloc(8), DoFree(HEAP_START + 16), DoMalloc(m)];
    FirstTwo(n);
    assert Legal(BOOT, ops) && Slack(BOOT, ops) == n - m;
    NotWhole(ops, n - m);
  }

  lemma NotWhole(ops: seq<Op>, slack: int)
    requires Legal(BOOT, ops) && Slack(BOOT, ops) == slack && 0 < slack < 24
    ensures var h := Exec(BOOT, ops); h.used != SumLive(h.blocks) % 0x1_0000_0000
  {
    UsedSizeLaw(ops);
  }

  lemma LastThree(n: nat, m: nat)
    requires 0 < m < n < 100 && n % 8 == 0 && m % 8 == 0 && n - m < 24
    ensures var h, ops := Malloc(BOOT, n).0, [DoMalloc(8), DoFree(HEAP_START + 16), DoMalloc(m)];
            Legal(h, ops) && Slack(h, ops) == n - m
  {
    FirstTwo(n);
    LastTwo(n, m);
    var ops := [DoMalloc(8), DoFree(HEAP_START + 16), DoMalloc(m)];
    assert ops[1..] == [DoFree(HEAP_START + 16), DoMalloc(m)];
  }

  lemma LastTwo(n: nat, m: nat)
    requires 0 < m < n < 100 && n % 8 == 0 && m % 8 == 0 && n - m < 24
    ensures var h, ops := Heap(TwoBlocks(n + 16, false), n + 40), [DoFree(HEAP_START + 16), DoMalloc(m)];
            Legal(h, ops) && Slack(h, ops) == n - m
  {
    var h3, ops := Heap(TwoBlocks(n + 16, true), 24), [DoFree(HEAP_START + 16), DoMalloc(m)];
    FreeFirst(n);
    TakeFirst(n, m);
    assert ops[1..] == [DoMalloc(m)] && [DoMalloc(m)][1..] == [];
    assert Legal(h3, [DoMalloc(m)]) && Slack(h3, [DoMalloc(m)]) == n - m;
  }
}
