/** Inode numbers: when they are distinct, given that the counter has 32 bits. */
module RamFsNumbers {
  import opened Machine
  import opened RamFsTree
  import opened RamFsRuns
  import opened Rings

  ghost predicate NumbersDistinct<T>(fs: Fs<T>) {
    forall x, y | x in fs.inodes && y in fs.inodes && x != y :: Number(fs.inodes[x]) != Number(fs.inodes[y])
  }

  /** Creating an inode keeps the numbers distinct exactly when no inode has the number that
      is next. */
  lemma CreateNumbers<T>(fs: Fs<T>, d: T, name: string, kind: Kind, id: T)
    requires Inv(fs) && NumbersDistinct(fs) && Creates(fs, d, name, id)
    ensures NumbersDistinct(Create(fs, d, name, kind, Created, id).0) <==>
            forall x | x in fs.inodes :: Number(fs.inodes[x]) != fs.made % WORD
  {
    var fs' := Create(fs, d, name, kind, Created, id).0;
    assert Number(fs'.inodes[id]) == fs.made % WORD;
    assert forall x | x in fs.inodes :: x in fs'.inodes && x != id && Number(fs'.inodes[x]) == Number(fs.inodes[x]);
  }

  /** The root was made first, and ranks start with its. */
  ghost predicate RootFirst<T>(fs: Fs<T>) {
    && fs.root in fs.inodes && fs.inodes[fs.root].rank == 1
    && forall x | x in fs.inodes :: 1 <= fs.inodes[x].rank < fs.made
  }

  lemma ShortOfWrap(a: nat, b: nat)
    requires 1 <= a <= WORD && 1 <= b <= WORD && a != b
    ensures a % WORD != b % WORD
  {}

  /** Up to 2^32 inodes have distinct numbers. */
  lemma DistinctUntilWrap<T>(fs: Fs<T>)
    requires Inv(fs) && RootFirst(fs) && fs.made <= WORD + 1
    ensures NumbersDistinct(fs)
  {
    forall x, y | x in fs.inodes && y in fs.inodes && x != y
      ensures Number(fs.inodes[x]) != Number(fs.inodes[y])
    {
      assert RanksDiffer(fs.inodes, x, y);
      ShortOfWrap(fs.inodes[x].rank, fs.inodes[y].rank);
    }
  }

  /** The next one gets the number of the root. */
  lemma WrapRepeatsRoot<T>(fs: Fs<T>, d: T, name: string, kind: Kind, id: T)
    requires Inv(fs) && RootFirst(fs) && fs.made == WORD + 1 && Creates(fs, d, name, id)
    ensures !NumbersDistinct(Create(fs, d, name, kind, Created, id).0)
  {
    DistinctUntilWrap(fs);
    CreateNumbers(fs, d, name, kind, id);
    assert Number(fs.inodes[fs.root]) == fs.made % WORD;
  }

  // ---- Over runs ------------------------------------------------------------------------

  /** A call keeps the ranks of the inodes it leaves, and gives a new one the next rank. */
  lemma StepKeepsRanks<T>(fs: Fs<T>, op: Op<T>)
    requires Inv(fs) && FreshId(fs, op)
    ensures var fs' := Exec(fs, op);
            && fs'.root == fs.root && fs.made <= fs'.made <= fs.made + 1
            && forall x | x in fs'.inodes ::
                 if x in fs.inodes then fs'.inodes[x].rank == fs.inodes[x].rank
                 else fs'.inodes[x].rank == fs.made < fs'.made
  {
    match op
    case CreateOp(d, name, kind, outcome, id) => CreateRanks(fs, d, name, kind, outcome, id);
    case MkdirOp(d, name, outcome, dots, id) => CreateRanks(fs, d, name, Directory, outcome, id);
    case RmdirOp(d, name) =>
    case UnlinkOp(d, name) =>
  }

  lemma CreateRanks<T>(fs: Fs<T>, d: T, name: string, kind: Kind, outcome: Outcome, id: T)
    requires id !in fs.inodes
    ensures var (fs', ok) := Create(fs, d, name, kind, outcome, id);
            && fs'.root == fs.root && fs.made <= fs'.made <= fs.made + 1 && (ok ==> id in fs'.inodes)
            && forall x | x in fs'.inodes ::
                 if x in fs.inodes then fs'.inodes[x].rank == fs.inodes[x].rank
                 else x == id && fs'.inodes[x].rank == fs.made < fs'.made
  {}

  lemma {:induction false} RunKeepsRanks<T>(fs: Fs<T>, ops: seq<Op<T>>)
    requires Inv(fs) && RootFirst(fs) && ProperRun(fs, ops)
    ensures Inv(Run(fs, ops)) && RootFirst(Run(fs, ops))
    decreases ops
  {
    if ops != [] {
      StepExact(fs, ops[0]);
      StepKeepsRanks(fs, ops[0]);
      RunKeepsRanks(Exec(fs, ops[0]), ops[1..]);
    }
  }

  /** After ramfs_create_root and any run, the numbers are distinct as long as at most 2^32
      inodes were made. */
  lemma EveryRunNumbers<T>(root: T, ops: seq<Op<T>>)
    requires ProperRun(Fresh(root), ops) && Run(Fresh(root), ops).made <= WORD + 1
    ensures NumbersDistinct(Run(Fresh(root), ops))
  {
    FreshKeepsInv(root);
    RunKeepsRanks(Fresh(root), ops);
    DistinctUntilWrap(Run(Fresh(root), ops));
  }

  /** k calls of ramfs_create that get an inode and no entry. */
  function Fruitless<T>(d: T, id: T, k: nat): seq<Op<T>> {
    if k == 0 then [] else [CreateOp(d, "f", Regular, NoEntry, id)] + Fruitless(d, id, k - 1)
  }

  lemma {:induction false} FruitlessRun<T>(fs: Fs<T>, d: T, id: T, k: nat, rest: seq<Op<T>>)
    requires Inv(fs) && Creates(fs, d, "f", id)
    requires ProperRun(fs.(made := fs.made + k), rest)
    ensures ProperRun(fs, Fruitless(d, id, k) + rest)
    ensures Run(fs, Fruitless(d, id, k) + rest) == Run(fs.(made := fs.made + k), rest)
    decreases k
  {
    var ops := Fruitless(d, id, k) + rest;
    if k == 0 {
      assert ops == rest && fs.(made := fs.made + 0) == fs;
    } else {
      var fs' := fs.(made := fs.made + 1);
      NextKeepsInv(fs);
      assert fs'.(made := fs'.made + (k - 1)) == fs.(made := fs.made + k);
      FruitlessRun(fs', d, id, k - 1, rest);
      assert ops[0] == CreateOp(d, "f", Regular, NoEntry, id) && ops[1..] == Fruitless(d, id, k - 1) + rest;
      assert !IsDot("f") by { assert "f"[0] == 'f' && DOT[0] == '.' && DOTDOT[0] == '.'; }
    }
  }

  /** A run after which two inodes have the same number: 2^32 inodes are made, all but the
      root and the last without an entry. */
  lemma NumbersRepeat<T>(root: T, id: T) returns (ops: seq<Op<T>>)
    requires id != root
    ensures ProperRun(Fresh(root), ops) && Inv(Run(Fresh(root), ops)) && !NumbersDistinct(Run(Fresh(root), ops))
  {
    var fs := Fresh(root);
    var k := WORD - 1;
    var last := CreateOp(root, "f", Regular, Created, id);
    var late := fs.(made := fs.made + k);
    FreshKeepsInv(root);
    assert !IsDot("f") by { assert "f"[0] == 'f' && DOT[0] == '.' && DOTDOT[0] == '.'; }
    FindNothing(fs.inodes[root].ring, "f");
    assert [last][1..] == [] && ProperRun(late, [last]);
    FruitlessRun(fs, root, id, k, [last]);
    ops := Fruitless(root, id, k) + [last];
    RunKeepsRanks(fs, ops);
    LateInv(fs, k);
    WrapRepeatsRoot(late, root, "f", Regular, id);
    assert Run(late, [last]) == Exec(late, last);
  }

  lemma FindNothing<T>(ring: seq<Entry<T>>, name: string)
    requires forall i | 0 <= i < |ring| :: ring[i].name != name
    ensures Find(ring, name) == |ring|
  {}

  lemma {:induction false} LateInv<T>(fs: Fs<T>, k: nat)
    requires Inv(fs)
    ensures Inv(fs.(made := fs.made + k))
  {
    forall x | x in fs.inodes ensures RankOk(fs.inodes, fs.made + k, x) { assert RankOk(fs.inodes, fs.made, x); }
  }
}
