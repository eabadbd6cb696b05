/** Reading a directory as a stream of NUL-terminated names. */
module RamReaddir {
  import opened Machine

  const NUL: char := '\0'

  function Record(name: string): string { name + [NUL] }

  /** All names in ring order, each with its terminator. */
  function Stream(names: seq<string>): string {
    if names == [] then "" else Record(names[0]) + Stream(names[1..])
  }

  /** What one call of ramfs_readdir copies: from the offset to the end of the name it falls
      in, at most count characters. */
  function Chunk(names: seq<string>, count: nat, offset: nat): string {
    if names == [] then ""
    else if |Record(names[0])| > offset then
      Record(names[0])[offset..offset + Min(count, |Record(names[0])| - offset)]
    else Chunk(names[1..], count, offset - |Record(names[0])|)
  }

  /** A call yields the stream from the offset on, never more than count characters, and
      nothing only when asked for nothing or at the end. */
  lemma {:induction false} ChunkIsStream(names: seq<string>, count: nat, offset: nat)
    ensures var c, s := Chunk(names, count, offset), Stream(names);
            && |c| <= count && (offset <= |s| ==> offset + |c| <= |s| && c == s[offset..offset + |c|])
            && (c == "" <==> count == 0 || offset >= |s|)
  {
    if names != [] {
      var first, s := Record(names[0]), Stream(names);
      if |first| <= offset {
        ChunkIsStream(names[1..], count, offset - |first|);
        assert s[|first|..] == Stream(names[1..]);
      }
    }
  }

  /** And it stops at the end of a name, never before unless it has count characters. */
  lemma {:induction false} ChunkExact(names: seq<string>, count: nat, offset: nat)
    requires forall k | 0 <= k < |names| :: NoNul(names[k])
    ensures var c := Chunk(names, count, offset);
            && (forall i | 0 <= i < |c| - 1 :: c[i] != '\0')
            && (0 < |c| < count ==> c[|c| - 1] == '\0')
    decreases |names|
  {
    if names != [] && |Record(names[0])| <= offset {
      ChunkExact(names[1..], count, offset - |Record(names[0])|);
    }
  }

  /** What a caller collects that asks for counts[0], counts[1], ... characters in turn and
      advances the offset by each result. */
  function Collected(names: seq<string>, counts: seq<nat>, offset: nat): string
    decreases counts
  {
    if counts == [] then ""
    else
      var c := Chunk(names, counts[0], offset);
      c + Collected(names, counts[1..], offset + |c|)
  }

  /** Neighbouring slices of s. */
  lemma SlicesJoin(s: string, offset: nat, c: string, rest: string)
    requires offset + |c| + |rest| <= |s|
    requires c == s[offset..offset + |c|] && rest == s[offset + |c|..offset + |c| + |rest|]
    ensures c + rest == s[offset..offset + |c + rest|]
  {}

  lemma {:induction false} CollectedIsStream(names: seq<string>, counts: seq<nat>, offset: nat)
    requires offset <= |Stream(names)|
    ensures var c, s := Collected(names, counts, offset), Stream(names);
            offset + |c| <= |s| && c == s[offset..offset + |c|]
    decreases counts
  {
    if counts != [] {
      var c := Chunk(names, counts[0], offset);
      ChunkIsStream(names, counts[0], offset);
      CollectedIsStream(names, counts[1..], offset + |c|);
      SlicesJoin(Stream(names), offset, c, Collected(names, counts[1..], offset + |c|));
    }
  }

  predicate AllPositive(counts: seq<nat>) {
    counts == [] || (counts[0] >= 1 && AllPositive(counts[1..]))
  }

  /** How many characters each of the calls gets. */
  function Lengths(names: seq<string>, counts: seq<nat>, offset: nat): seq<nat>
    decreases counts
  {
    if counts == [] then []
    else
      var n := |Chunk(names, counts[0], offset)|;
      [n] + Lengths(names, counts[1..], offset + n)
  }

  function Sum(ns: seq<nat>): nat { if ns == [] then 0 else ns[0] + Sum(ns[1..]) }

  /** From the offset on, no call passes the total, and each gets something unless at the end. */
  predicate Progress(ns: seq<nat>, offset: nat, total: nat) {
    ns == [] ||
    (offset + ns[0] <= total && (offset < total ==> ns[0] >= 1) && Progress(ns[1..], offset + ns[0], total))
  }

  lemma {:induction false} ProgressReaches(ns: seq<nat>, offset: nat, total: nat)
    requires Progress(ns, offset, total) && offset <= total
    ensures Sum(ns) >= |ns| || Sum(ns) >= total - offset
  {
    if ns != [] { ProgressReaches(ns[1..], offset + ns[0], total); }
  }

  lemma {:induction false} LengthsProgress(names: seq<string>, counts: seq<nat>, offset: nat, total: nat)
    requires total == |Stream(names)| && offset <= total && AllPositive(counts)
    ensures Progress(Lengths(names, counts, offset), offset, total)
    decreases counts
  {
    if counts != [] {
      var n := |Chunk(names, counts[0], offset)|;
      ChunkIsStream(names, counts[0], offset);
      LengthsProgress(names, counts[1..], offset + n, total);
      assert Lengths(names, counts, offset)[1..] == Lengths(names, counts[1..], offset + n);
    }
  }

  lemma {:induction false} LengthsSum(names: seq<string>, counts: seq<nat>, offset: nat)
    ensures |Lengths(names, counts, offset)| == |counts|
    ensures Sum(Lengths(names, counts, offset)) == |Collected(names, counts, offset)|
    decreases counts
  {
    if counts != [] {
      var n := |Chunk(names, counts[0], offset)|;
      LengthsSum(names, counts[1..], offset + n);
      assert Lengths(names, counts, offset)[1..] == Lengths(names, counts[1..], offset + n);
    }
  }

  lemma CollectedGrows(names: seq<string>, counts: seq<nat>, offset: nat, total: nat)
    requires total == |Stream(names)| && offset <= total && AllPositive(counts)
    ensures var n := |Collected(names, counts, offset)|; n >= |counts| || n >= total - offset
  {
    LengthsProgress(names, counts, offset, total);
    LengthsSum(names, counts, offset);
    ProgressReaches(Lengths(names, counts, offset), offset, total);
  }

  /** Enough calls with positive counts yield exactly the stream, and then 0. */
  lemma WholeDirectory(names: seq<string>, counts: seq<nat>, count: nat)
    requires |counts| >= |Stream(names)| && AllPositive(counts)
    ensures Collected(names, counts, 0) == Stream(names)
    ensures Chunk(names, count, |Collected(names, counts, 0)|) == ""
  {
    CollectedIsStream(names, counts, 0);
    CollectedGrows(names, counts, 0, |Stream(names)|);
    ChunkIsStream(names, count, |Stream(names)|);
  }

  // ---- The stream determines the names ------------------------------------------------------

  predicate NoNul(name: string) { forall i | 0 <= i < |name| :: name[i] != NUL }

  /** Cuts a stream at its terminators. */
  function Names(s: string, acc: string): seq<string>
    decreases |s|
  {
    if s == "" then [] else if s[0] == NUL then [acc] + Names(s[1..], "") else Names(s[1..], acc + [s[0]])
  }

  lemma {:induction false} CutsAtTerminator(name: string, rest: string, acc: string)
    requires NoNul(name)
    ensures Names(Record(name) + rest, acc) == [acc + name] + Names(rest, "")
    decreases |name|
  {
    var s := Record(name) + rest;
    if name == "" {
      assert s[1..] == rest && acc + name == acc;
    } else {
      CutsAtTerminator(name[1..], rest, acc + [name[0]]);
      assert s[1..] == Record(name[1..]) + rest && acc + [name[0]] + name[1..] == acc + name;
    }
  }

  /** A caller who collects the stream recovers the names, in ring order. */
  lemma {:induction false} NamesOfStream(names: seq<string>)
    requires forall k | 0 <= k < |names| :: NoNul(names[k])
    ensures Names(Stream(names), "") == names
  {
    if names != [] {
      NamesOfStream(names[1..]);
      CutsAtTerminator(names[0], Stream(names[1..]), "");
      assert "" + names[0] == names[0];
    }
  }

  // ---- The walk of ramfs_readdir ------------------------------------------------------------

  /** Skipping the first i names. */
  lemma {:induction false} ChunkSkips(names: seq<string>, i: nat, count: nat, offset: nat)
    requires i <= |names| && |Stream(names[..i])| <= offset
    ensures Chunk(names, count, offset) == Chunk(names[i..], count, offset - |Stream(names[..i])|)
  {
    if i == 0 {
      assert names[..0] == [] && names[0..] == names;
    } else {
      assert names[..i][0] == names[0] && names[..i][1..] == names[1..][..i - 1] && names[1..][i - 1..] == names[i..];
      ChunkSkips(names[1..], i - 1, count, offset - |Record(names[0])|);
    }
  }

  lemma {:induction false} StreamAppends(names: seq<string>, name: string)
    ensures Stream(names + [name]) == Stream(names) + Record(name)
  {
    if names == [] {
      assert [name][1..] == [];
    } else {
      StreamAppends(names[1..], name);
      assert (names + [name])[1..] == names[1..] + [name];
    }
  }

  /** At name i, when the names before it end at or before the offset. */
  lemma WalkStep(names: seq<string>, i: nat, count: nat, offset: nat)
    requires i < |names| && |Stream(names[..i])| <= offset
    ensures var start := |Stream(names[..i])|; var text := Record(names[i]);
            && |Stream(names[..i + 1])| == start + |text|
            && (start + |text| > offset ==>
                  Chunk(names, count, offset) == text[offset - start..offset - start + Min(count, start + |text| - offset)])
  {
    ChunkSkips(names, i, count, offset);
    assert names[..i + 1] == names[..i] + [names[i]];
    StreamAppends(names[..i], names[i]);
  }
}
