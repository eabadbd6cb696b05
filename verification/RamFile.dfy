/** The contents of a RamFS file as a value, and what any history of writes leaves in it. */
module RamFile {
  import opened Machine

  const PAGE: nat := 4096

  /** `bytes` holds the bytes written so far; those in gaps have no specified value. */
  datatype File = File(bytes: map<nat, bv8>, size: nat, capacity: nat)

  const EMPTY := File(map[], 0, 0)

  /** A call of ramfs_write; `granted` says whether the heap can serve it, if it has to grow. */
  datatype WriteCall = WriteCall(buf: seq<bv8>, offset: nat, granted: bool)

  /** The end as size_t computes it. */
  function NewSize(w: WriteCall): nat { (w.offset + |w.buf|) % WORD }

  /** (size + 4095) & ~4095 on 32 bits. */
  function RoundUp(size: nat): nat { (size + PAGE - 1) % WORD / PAGE * PAGE }

  /** The call reaches the copy: the end fits, or kmalloc, which refuses a size of 0,
      yields a new buffer. */
  predicate Succeeds(f: File, w: WriteCall) {
    NewSize(w) <= f.capacity || (w.granted && RoundUp(NewSize(w)) != 0)
  }

  function NewCapacity(f: File, w: WriteCall): nat {
    if NewSize(w) <= f.capacity then f.capacity else RoundUp(NewSize(w))
  }

  predicate Covers(w: WriteCall, i: nat) { w.offset <= i < w.offset + |w.buf| }

  /** What the call puts at byte i of the file. */
  function ByteAt(w: WriteCall, i: nat): bv8
    requires Covers(w, i)
  {
    w.buf[i - w.offset]
  }

  function Overlay(bytes: map<nat, bv8>, w: WriteCall): map<nat, bv8> {
    bytes + map i: nat | w.offset <= i < w.offset + |w.buf| :: ByteAt(w, i)
  }

  function Write(f: File, w: WriteCall): File {
    if !Succeeds(f, w) then f
    else File(Overlay(f.bytes, w), if NewSize(w) > f.size then NewSize(w) else f.size, NewCapacity(f, w))
  }

  /** What ramfs_read copies at most. */
  function ReadCount(size: nat, count: nat, offset: nat): nat {
    var available := if offset < size then size - offset else 0;
    if count < available then count else available
  }

  ghost predicate Inv(f: File) {
    && f.size <= f.capacity < WORD && f.capacity % PAGE == 0
    && forall i | i in f.bytes :: i < f.size
  }

  /** The range of the call does not pass the end of the address space. */
  predicate InRange(w: WriteCall) { w.offset + |w.buf| < WORD }

  lemma RoundUpCovers(size: nat)
    requires size < WORD
    ensures RoundUp(size) % PAGE == 0 && RoundUp(size) < WORD
    ensures RoundUp(size) == 0 <==> size == 0 || size > WORD - PAGE
    ensures RoundUp(size) != 0 ==> size <= RoundUp(size) < size + PAGE
  {}

  /** A write that succeeds stays inside its buffer exactly when its range does not wrap. */
  lemma StaysInside(f: File, w: WriteCall)
    requires Inv(f) && Succeeds(f, w)
    ensures w.offset + |w.buf| <= NewCapacity(f, w) <==> InRange(w)
  {
    RoundUpCovers(NewSize(w));
  }

  /** Eight bytes at 0xFFFFFFFC into an empty file: the end wraps to 4, one page is allocated,
      and the copy goes to bytes far outside it. */
  lemma WrapsOutside(buf: seq<bv8>)
    requires |buf| == 8
    ensures var w := WriteCall(buf, 0xFFFF_FFFC, true);
            Succeeds(EMPTY, w) && NewSize(w) == 4 && NewCapacity(EMPTY, w) == PAGE && w.offset > NewCapacity(EMPTY, w)
  {}

  lemma WriteKeepsInv(f: File, w: WriteCall)
    requires Inv(f) && InRange(w)
    ensures Inv(Write(f, w)) && f.capacity <= Write(f, w).capacity && f.size <= Write(f, w).size
    ensures !Succeeds(f, w) ==> Write(f, w) == f
  {
    RoundUpCovers(NewSize(w));
  }

  /** A write within the capacity. */
  lemma WriteFits(f: File, w: WriteCall)
    requires Inv(f) && w.offset + |w.buf| <= f.capacity
    ensures var end := w.offset + |w.buf|;
            Write(f, w) == File(Overlay(f.bytes, w), if end > f.size then end else f.size, f.capacity)
    ensures Inv(Write(f, w))
  {}

  /** A write that has to grow is a growth followed by a write that fits. */
  lemma GrowThenWrite(f: File, w: WriteCall)
    requires Inv(f) && InRange(w)
    ensures NewSize(w) == w.offset + |w.buf|
    ensures var c := RoundUp(NewSize(w));
            NewSize(w) > f.capacity && c != 0 ==>
              && NewSize(w) <= c < WORD && c % PAGE == 0
              && (w.granted ==> Write(f, w) == Write(f.(capacity := c), w))
  {
    RoundUpCovers(NewSize(w));
  }

  /** A write succeeds exactly when the end fits the buffer, or the heap serves a size of at most
      2^32 - 4096. A write that fails changes nothing. */
  lemma WriteSucceeds(f: File, w: WriteCall)
    requires Inv(f) && w.offset + |w.buf| < 0x1_0000_0000
    ensures var end := w.offset + |w.buf|;
            Succeeds(f, w) <==> end <= f.capacity || (w.granted && end <= 0xFFFF_F000)
    ensures !Succeeds(f, w) ==> Write(f, w) == f
  {
    RoundUpCovers(NewSize(w));
  }

  /** Then the size is at least the end, and the buffer is as before or the least number of
      pages that holds the end. */
  lemma WriteSizes(f: File, w: WriteCall)
    requires Inv(f) && w.offset + |w.buf| < 0x1_0000_0000 && Succeeds(f, w)
    ensures var end, f' := w.offset + |w.buf|, Write(f, w);
            && f'.size == (if f.size < end then end else f.size) && f'.capacity % 4096 == 0
            && if end <= f.capacity then f'.capacity == f.capacity else end <= f'.capacity < end + 4096
  {
    RoundUpCovers(NewSize(w));
  }

  /** And the bytes of the buffer lie at the offset, in order; all others are as before. */
  lemma WriteBytes(f: File, w: WriteCall, i: nat)
    requires Succeeds(f, w)
    ensures var f' := Write(f, w);
            if w.offset <= i < w.offset + |w.buf| then
              i in f'.bytes && f'.bytes[i] == w.buf[i - w.offset]
            else
              (i in f'.bytes <==> i in f.bytes) && (i in f.bytes ==> f'.bytes[i] == f.bytes[i])
  {
    assert Covers(w, i) ==> ByteAt(w, i) == w.buf[i - w.offset];
  }

  // ---- Reading ------------------------------------------------------------------------------

  /** Where a caller is that reads counts[0], counts[1], ... bytes in turn. */
  function Reached(size: nat, counts: seq<nat>, offset: nat): nat
    decreases counts
  {
    if counts == [] then offset else Reached(size, counts[1..], offset + ReadCount(size, counts[0], offset))
  }

  predicate AllPositive(counts: seq<nat>) {
    counts == [] || (counts[0] >= 1 && AllPositive(counts[1..]))
  }

  /** Reads with positive counts never pass the end, get one byte at least as long as there is
      one, and so reach the end, where they return 0. */
  lemma {:induction false} ReadsReachEnd(size: nat, counts: seq<nat>, offset: nat, count: nat)
    requires offset <= size && AllPositive(counts)
    ensures Reached(size, counts, offset) <= size
    ensures |counts| >= size - offset ==> Reached(size, counts, offset) == size
    ensures ReadCount(size, count, size) == 0
    decreases counts
  {
    if counts != [] {
      ReadsReachEnd(size, counts[1..], offset + ReadCount(size, counts[0], offset), count);
    }
  }

  // ---- Histories ----------------------------------------------------------------------------

  /** The file after a history of writes. */
  function Run(ws: seq<WriteCall>): File {
    if ws == [] then EMPTY else Write(Run(ws[..|ws| - 1]), ws[|ws| - 1])
  }

  /** Call k of the history succeeded. */
  predicate Happened(ws: seq<WriteCall>, k: nat)
    requires k < |ws|
  {
    Succeeds(Run(ws[..k]), ws[k])
  }

  /** Call k of the history wrote byte i. */
  predicate Wrote(ws: seq<WriteCall>, k: nat, i: nat)
    requires k < |ws|
  {
    Covers(ws[k], i) && Happened(ws, k)
  }

  /** Call k is the last that wrote byte i. */
  ghost predicate LastWriter(ws: seq<WriteCall>, k: nat, i: nat)
    requires k < |ws|
  {
    Wrote(ws, k, i) && forall j {:trigger Wrote(ws, j, i)} | k < j < |ws| :: !Wrote(ws, j, i)
  }

  lemma PrefixHappened(ws: seq<WriteCall>, n: nat, k: nat)
    requires k < n <= |ws|
    ensures Happened(ws[..n], k) == Happened(ws, k)
  {
    assert ws[..n][..k] == ws[..k];
  }

  lemma PrefixWrote(ws: seq<WriteCall>, n: nat, k: nat, i: nat)
    requires k < n <= |ws|
    ensures Wrote(ws[..n], k, i) == Wrote(ws, k, i)
  {
    PrefixHappened(ws, n, k);
  }

  lemma {:induction false} RunKeepsInv(ws: seq<WriteCall>)
    requires forall w | w in ws :: InRange(w)
    ensures Inv(Run(ws))
  {
    if ws != [] {
      RunKeepsInv(ws[..|ws| - 1]);
      WriteKeepsInv(Run(ws[..|ws| - 1]), ws[|ws| - 1]);
    }
  }

  /** Capacity and size never shrink. */
  lemma {:induction false} NeverShrinks(ws: seq<WriteCall>, n: nat)
    requires (forall w | w in ws :: InRange(w)) && n <= |ws|
    ensures Run(ws[..n]).capacity <= Run(ws).capacity && Run(ws[..n]).size <= Run(ws).size
  {
    if n < |ws| {
      var front := ws[..|ws| - 1];
      NeverShrinks(front, n);
      RunKeepsInv(front);
      WriteKeepsInv(Run(front), ws[|ws| - 1]);
      assert front[..n] == ws[..n];
    } else {
      assert ws[..n] == ws;
    }
  }

  lemma LastWriterFront(ws: seq<WriteCall>, k: nat, i: nat)
    requires k < |ws| - 1
    ensures var n := |ws| - 1; LastWriter(ws, k, i) <==> LastWriter(ws[..n], k, i) && !Wrote(ws, n, i)
  {
    var n := |ws| - 1;
    forall j | k <= j < n ensures Wrote(ws[..n], j, i) == Wrote(ws, j, i) { PrefixWrote(ws, n, j, i); }
  }

  /** The last call decides a byte if it succeeds and covers it. */
  lemma LastCallByte(ws: seq<WriteCall>, i: nat)
    requires ws != []
    ensures var n := |ws| - 1; var f := Run(ws[..n]);
            if Wrote(ws, n, i) then
              i in Run(ws).bytes && Run(ws).bytes[i] == ByteAt(ws[n], i)
            else
              && (i in Run(ws).bytes <==> i in f.bytes)
              && (i in f.bytes ==> Run(ws).bytes[i] == f.bytes[i])
  {}

  lemma {:induction false} LastWriterByte(ws: seq<WriteCall>, k: nat, i: nat)
    requires (forall w | w in ws :: InRange(w)) && k < |ws| && LastWriter(ws, k, i)
    ensures i in Run(ws).bytes && Run(ws).bytes[i] == ByteAt(ws[k], i)
  {
    LastCallByte(ws, i);
    if k < |ws| - 1 {
      LastWriterFront(ws, k, i);
      LastWriterByte(ws[..|ws| - 1], k, i);
    }
  }

  lemma {:induction false} ByteHasWriter(ws: seq<WriteCall>, i: nat) returns (k: nat)
    requires (forall w | w in ws :: InRange(w)) && i in Run(ws).bytes
    ensures k < |ws| && LastWriter(ws, k, i)
  {
    LastCallByte(ws, i);
    k := |ws| - 1;
    if !Wrote(ws, k, i) {
      k := ByteHasWriter(ws[..k], i);
      LastWriterFront(ws, k, i);
    }
  }

  /** Each byte holds what the latest successful write covering it has at that place. */
  lemma LastWriterWins(ws: seq<WriteCall>, k: nat, i: nat)
    requires (forall w | w in ws :: InRange(w)) && k < |ws| && Happened(ws, k)
    requires ws[k].offset <= i < ws[k].offset + |ws[k].buf|
    requires forall j | k < j < |ws| && Happened(ws, j) :: i < ws[j].offset || ws[j].offset + |ws[j].buf| <= i
    ensures i in Run(ws).bytes && Run(ws).bytes[i] == ws[k].buf[i - ws[k].offset]
  {
    assert LastWriter(ws, k, i);
    LastWriterByte(ws, k, i);
  }

  /** And a byte holds something only if a successful write covered it. */
  lemma WrittenByCall(ws: seq<WriteCall>, i: nat) returns (k: nat)
    requires (forall w | w in ws :: InRange(w)) && i in Run(ws).bytes
    ensures k < |ws| && Happened(ws, k) && ws[k].offset <= i < ws[k].offset + |ws[k].buf|
    ensures Run(ws).bytes[i] == ws[k].buf[i - ws[k].offset]
  {
    k := ByteHasWriter(ws, i);
    LastWriterByte(ws, k, i);
  }

  /** The size is an upper bound of the ends of all successful writes. */
  lemma {:induction false} SizeCoversWrites(ws: seq<WriteCall>, k: nat)
    requires (forall w | w in ws :: InRange(w)) && k < |ws| && Happened(ws, k)
    ensures ws[k].offset + |ws[k].buf| <= Run(ws).size
  {
    NeverShrinks(ws, k + 1);
    RunUnfolds(ws, k);
    assert ws[k] in ws;
    WriteReaches(Run(ws[..k]), ws[k]);
  }

  lemma RunUnfolds(ws: seq<WriteCall>, k: nat)
    requires k < |ws|
    ensures Run(ws[..k + 1]) == Write(Run(ws[..k]), ws[k])
  {
    assert ws[..k + 1][..k] == ws[..k];
  }

  lemma WriteReaches(f: File, w: WriteCall)
    requires InRange(w) && Succeeds(f, w)
    ensures w.offset + |w.buf| <= Write(f, w).size
  {}

  /** And it is the end of one of them, if there is any. */
  lemma {:induction false} SizeIsAnEnd(ws: seq<WriteCall>) returns (k: nat)
    requires (forall w | w in ws :: InRange(w)) && Run(ws).size > 0
    ensures k < |ws| && Happened(ws, k) && Run(ws).size == ws[k].offset + |ws[k].buf|
  {
    var n := |ws| - 1;
    var front := ws[..n];
    assert ws[n] in ws;
    if Happened(ws, n) && NewSize(ws[n]) > Run(front).size { return n; }
    k := SizeIsAnEnd(front);
    PrefixHappened(ws, n, k);
  }
}
