/** Every RamFS call keeps the directory tree, except for the calls singled out by Harms. */
module RamFsRuns {
  import opened RamFsTree
  import opened Rings

  // ---- mkdir --------------------------------------------------------------------------------

  /** A directory still without entries. */
  ghost predicate Unfilled<T>(fs: Fs<T>, id: T, d: T) {
    && id in fs.inodes && fs.inodes[id].kind == Directory && fs.inodes[id].ring == []
    && id in fs.parent && fs.parent[id] == d
  }

  lemma DotsKeepNode<T>(fs: Fs<T>, id: T, d: T, x: T)
    requires Inv(fs) && Unfilled(fs, id, d) && x in fs.inodes
    ensures var fs' := AddDots(fs, id, d); NodeOk(fs'.inodes, fs'.parent, x)
  {
    assert NodeOk(fs.inodes, fs.parent, x);
  }

  lemma DotsKeepChild<T>(fs: Fs<T>, id: T, d: T, x: T)
    requires Inv(fs) && Unfilled(fs, id, d) && x in fs.inodes
    ensures var fs' := AddDots(fs, id, d); ChildOk(fs'.inodes, fs'.parent, fs'.root, x)
  {
    assert ChildOk(fs.inodes, fs.parent, fs.root, x);
    if x != fs.root { assert HasChild(fs.inodes, fs.parent[x], x) && fs.parent[x] != id; }
  }

  lemma DotsKeepNodes<T>(fs: Fs<T>, id: T, d: T)
    requires Inv(fs) && Unfilled(fs, id, d)
    ensures var fs' := AddDots(fs, id, d); NodesOk(fs'.inodes, fs'.parent)
  {
    var fs' := AddDots(fs, id, d);
    forall x | x in fs'.inodes ensures NodeOk(fs'.inodes, fs'.parent, x) { DotsKeepNode(fs, id, d, x); }
  }

  lemma DotsKeepParents<T>(fs: Fs<T>, id: T, d: T)
    requires Inv(fs) && Unfilled(fs, id, d)
    ensures var fs' := AddDots(fs, id, d); ParentsOk(fs'.inodes, fs'.parent, fs'.root)
  {
    var fs' := AddDots(fs, id, d);
    forall x | x in fs'.inodes ensures ChildOk(fs'.inodes, fs'.parent, fs'.root, x) { DotsKeepChild(fs, id, d, x); }
  }

  /** Dropping inodes or changing rings does not touch the ranks. */
  lemma SameRanks<T>(inodes: Inodes<T>, inodes': Inodes<T>, next: nat)
    requires RanksOk(inodes, next)
    requires forall x | x in inodes' :: x in inodes && inodes'[x].rank == inodes[x].rank
    ensures RanksOk(inodes', next)
  {
    forall x | x in inodes' ensures RankOk(inodes', next, x) { assert RankOk(inodes, next, x); }
    forall x, y | x in inodes' && y in inodes' ensures RanksDiffer(inodes', x, y) {
      assert RanksDiffer(inodes, x, y);
    }
  }

  lemma DotsKeepInv<T>(fs: Fs<T>, id: T, d: T)
    requires Inv(fs) && Unfilled(fs, id, d)
    ensures Inv(AddDots(fs, id, d))
  {
    DotsKeepNodes(fs, id, d);
    DotsKeepParents(fs, id, d);
    SameRanks(fs.inodes, AddDots(fs, id, d).inodes, fs.made);
  }

  // ---- rmdir and unlink ---------------------------------------------------------------------

  /** Entry k of d is real and leads to an inode x without children. */
  ghost predicate Removable<T>(fs: Fs<T>, d: T, k: nat, x: T) {
    && d in fs.inodes && k < |fs.inodes[d].ring| && IsReal(fs.inodes[d].ring[k])
    && x == fs.inodes[d].ring[k].target && x in fs.inodes
    && forall i | 0 <= i < |fs.inodes[x].ring| :: !IsReal(fs.inodes[x].ring[i])
  }

  lemma RemoveKeepsRing<T>(fs: Fs<T>, d: T, k: nat, x: T, y: T)
    requires Inv(fs) && Removable(fs, d, k, x) && y in fs.inodes && x != y && x != d
    ensures var fs' := RemoveEntry(fs, d, k); RingOk(fs'.inodes, fs'.parent, y)
  {
    assert NodeOk(fs.inodes, fs.parent, y);
    var ring := fs.inodes[d].ring;
    assert forall i | 0 <= i < |ring| - 1 :: Without(ring, k)[i] == ring[if i < k then i else i + 1];
  }

  /** Only entry k of d leads to x. */
  lemma NotRemoved<T>(fs: Fs<T>, d: T, k: nat, x: T, y: T, i: nat)
    requires Inv(fs) && Removable(fs, d, k, x) && y in fs.inodes && i < |fs.inodes[y].ring|
    requires IsReal(fs.inodes[y].ring[i]) && (y == d ==> i != k)
    ensures fs.inodes[y].ring[i].target != x
  {
    if fs.inodes[y].ring[i].target == x { OneRealEntry(fs, x, d, k, y, i); }
  }

  lemma RemoveKeepsSiblings<T>(fs: Fs<T>, d: T, k: nat, x: T)
    requires Inv(fs) && Removable(fs, d, k, x) && x != d
    ensures var fs' := RemoveEntry(fs, d, k); ChildrenOk(fs'.inodes, fs'.parent, d)
  {
    assert NodeOk(fs.inodes, fs.parent, d);
    assert ChildrenOk(fs.inodes, fs.parent, d);
    var ring, ring' := fs.inodes[d].ring, Without(fs.inodes[d].ring, k);
    forall i | 0 <= i < |ring'| && IsReal(ring'[i]) ensures ring'[i].target != x {
      NotRemoved(fs, d, k, x, d, if i < k then i else i + 1);
    }
    assert forall i | 0 <= i < |ring'| :: ring'[i] == ring[if i < k then i else i + 1];
  }

  lemma RemoveKeepsChildren<T>(fs: Fs<T>, d: T, k: nat, x: T, y: T)
    requires Inv(fs) && Removable(fs, d, k, x) && y in fs.inodes && x != y && x != d
    ensures var fs' := RemoveEntry(fs, d, k); ChildrenOk(fs'.inodes, fs'.parent, y)
  {
    if y == d {
      RemoveKeepsSiblings(fs, d, k, x);
    } else {
      assert NodeOk(fs.inodes, fs.parent, y);
      assert ChildrenOk(fs.inodes, fs.parent, y);
      var ring := fs.inodes[y].ring;
      forall i | 0 <= i < |ring| && IsReal(ring[i]) ensures ring[i].target != x { NotRemoved(fs, d, k, x, y, i); }
    }
  }

  lemma RemoveKeepsChild<T>(fs: Fs<T>, d: T, k: nat, x: T, y: T)
    requires Inv(fs) && Removable(fs, d, k, x) && y in fs.inodes && x != y && x != d
    ensures var fs' := RemoveEntry(fs, d, k); ChildOk(fs'.inodes, fs'.parent, fs'.root, y)
  {
    var fs' := RemoveEntry(fs, d, k);
    assert ChildOk(fs.inodes, fs.parent, fs.root, y);
    if y != fs.root {
      var p := fs.parent[y];
      var i :| 0 <= i < |fs.inodes[p].ring| && IsReal(fs.inodes[p].ring[i]) && fs.inodes[p].ring[i].target == y;
      assert fs'.inodes[p].ring[if p != d || i < k then i else i - 1] == fs.inodes[p].ring[i];
    }
  }

  /** A child is not its own directory, nor the root. */
  lemma ChildIsAnother<T>(fs: Fs<T>, d: T, k: nat, x: T)
    requires Inv(fs) && Removable(fs, d, k, x)
    ensures x != d && x != fs.root
  {
    assert NodeOk(fs.inodes, fs.parent, d);
    assert ChildrenOk(fs.inodes, fs.parent, d);
  }

  lemma RemoveKeepsNodes<T>(fs: Fs<T>, d: T, k: nat, x: T)
    requires Inv(fs) && Removable(fs, d, k, x) && x != d
    ensures var fs' := RemoveEntry(fs, d, k); NodesOk(fs'.inodes, fs'.parent)
  {
    var fs' := RemoveEntry(fs, d, k);
    forall y | y in fs'.inodes ensures NodeOk(fs'.inodes, fs'.parent, y) {
      RemoveKeepsRing(fs, d, k, x, y);
      RemoveKeepsChildren(fs, d, k, x, y);
    }
  }

  lemma RemoveKeepsParents<T>(fs: Fs<T>, d: T, k: nat, x: T)
    requires Inv(fs) && Removable(fs, d, k, x) && x != d
    ensures var fs' := RemoveEntry(fs, d, k); ParentsOk(fs'.inodes, fs'.parent, fs'.root)
  {
    var fs' := RemoveEntry(fs, d, k);
    forall y | y in fs'.inodes ensures ChildOk(fs'.inodes, fs'.parent, fs'.root, y) {
      RemoveKeepsChild(fs, d, k, x, y);
    }
  }

  lemma RemoveKeepsRoot<T>(fs: Fs<T>, d: T, k: nat, x: T)
    requires Inv(fs) && Removable(fs, d, k, x) && x != d && x != fs.root
    ensures var fs' := RemoveEntry(fs, d, k); RootOk(fs'.inodes, fs'.parent, fs'.root)
  {
    RemoveKeepsRing(fs, d, k, x, fs.root);
    assert d == fs.root ==> k >= 2;
  }

  lemma RemoveKeepsInv<T>(fs: Fs<T>, d: T, k: nat, x: T)
    requires Inv(fs) && Removable(fs, d, k, x)
    ensures Inv(RemoveEntry(fs, d, k))
  {
    ChildIsAnother(fs, d, k, x);
    RemoveKeepsNodes(fs, d, k, x);
    RemoveKeepsParents(fs, d, k, x);
    RemoveKeepsRoot(fs, d, k, x);
    SameRanks(fs.inodes, RemoveEntry(fs, d, k).inodes, fs.made);
  }

  // ---- The exact laws -----------------------------------------------------------------------

  /** The directory has neither dot entry, because ramfs_mkdir ran out of memory. */
  predicate LacksDots<T>(ring: seq<Entry<T>>) { ring == [] || ring[0].name != DOT }

  lemma FindIsFirstAt<T>(ring: seq<Entry<T>>, name: string, k: nat)
    requires k < |ring| && ring[k].name == name
    ensures Find(ring, name) <= k
  {
    FindIsFirst(ring, name);
  }

  /** ramfs_create keeps the tree unless it makes an entry "." or ".." in a directory that
      lacks them. */
  lemma CreateExact<T>(fs: Fs<T>, d: T, name: string, kind: Kind, outcome: Outcome, id: T)
    requires Inv(fs) && id !in fs.inodes
    ensures Inv(Create(fs, d, name, kind, outcome, id).0) <==>
            !(IsDir(fs, d) && LacksDots(fs.inodes[d].ring) && IsDot(name) && outcome == Created)
  {
    var fs' := Create(fs, d, name, kind, outcome, id).0;
    if IsDir(fs, d) {
      var ring := fs.inodes[d].ring;
      assert NodeOk(fs.inodes, fs.parent, d);
      if IsDot(name) && !LacksDots(ring) {
        FindIsFirstAt(ring, name, if name == DOT then 0 else 1);
      } else if outcome == Created && IsDot(name) {
        assert Bare(ring) && Find(ring, name) == |ring|;
        assert fs'.inodes[d].ring[|ring|] == Entry(name, id);
        assert !RingOk(fs'.inodes, fs'.parent, d) && !NodeOk(fs'.inodes, fs'.parent, d);
      } else if outcome == Created && Find(ring, name) == |ring| {
        CreateKeepsInv(fs, d, name, kind, id);
      } else if outcome == NoEntry && Find(ring, name) == |ring| {
        NextKeepsInv(fs);
      }
    }
  }

  /** The same exception for ramfs_mkdir. */
  lemma MkdirExact<T>(fs: Fs<T>, d: T, name: string, outcome: Outcome, dots: bool, id: T)
    requires Inv(fs) && id !in fs.inodes
    ensures Inv(Mkdir(fs, d, name, outcome, dots, id).0) <==>
            !(IsDir(fs, d) && LacksDots(fs.inodes[d].ring) && IsDot(name) && outcome == Created)
  {
    CreateExact(fs, d, name, Directory, outcome, id);
    var (fs', ok) := Create(fs, d, name, Directory, outcome, id);
    if ok && dots {
      if Inv(fs') { DotsKeepInv(fs', id, d); } else { DotsDoNotMend(fs, d, name, id); }
    }
  }

  lemma DotsDoNotMend<T>(fs: Fs<T>, d: T, name: string, id: T)
    requires Inv(fs) && Creates(fs, d, name, id) && LacksDots(fs.inodes[d].ring) && IsDot(name)
    ensures !Inv(AddDots(Create(fs, d, name, Directory, Created, id).0, id, d))
  {
    var fs' := AddDots(Create(fs, d, name, Directory, Created, id).0, id, d);
    var ring := fs.inodes[d].ring;
    assert NodeOk(fs.inodes, fs.parent, d);
    assert fs'.inodes[d].ring[|ring|] == Entry(name, id);
    assert !RingOk(fs'.inodes, fs'.parent, d) && !NodeOk(fs'.inodes, fs'.parent, d);
  }

  lemma UnlinkKeepsInv<T>(fs: Fs<T>, d: T, name: string)
    requires Inv(fs)
    ensures Inv(Unlink(fs, d, name).0)
  {
    if Unlink(fs, d, name).1 {
      var k := Find(fs.inodes[d].ring, name);
      var x := fs.inodes[d].ring[k].target;
      assert NodeOk(fs.inodes, fs.parent, d) && NodeOk(fs.inodes, fs.parent, x);
      assert ChildOk(fs.inodes, fs.parent, fs.root, d);
      RemoveKeepsInv(fs, d, k, x);
    }
  }

  /** The call asks a directory holding nothing but its dot entries to remove itself. */
  predicate RemovesItself<T>(fs: Fs<T>, d: T, name: string) {
    && IsDir(fs, d) && |fs.inodes[d].ring| == 2 && fs.inodes[d].ring[0].name == DOT
    && (name == DOT || (name == DOTDOT && d == fs.root))
  }

  lemma SelfRemovalBreaks<T>(fs: Fs<T>, d: T, name: string)
    requires Inv(fs) && RemovesItself(fs, d, name)
    ensures Rmdir(fs, d, name).1 && !Inv(Rmdir(fs, d, name).0)
  {
    var ring := fs.inodes[d].ring;
    assert NodeOk(fs.inodes, fs.parent, d) && ChildOk(fs.inodes, fs.parent, fs.root, d);
    FindIsFirstAt(ring, name, if name == DOT then 0 else 1);
    var fs' := Rmdir(fs, d, name).0;
    assert d !in fs'.inodes;
    if d != fs.root {
      var p := fs.parent[d];
      ParentIsOlder(fs, d);
      var i :| 0 <= i < |fs.inodes[p].ring| && IsReal(fs.inodes[p].ring[i]) && fs.inodes[p].ring[i].target == d;
      assert fs'.inodes[p].ring[i].target == d;
      assert !ChildrenOk(fs'.inodes, fs'.parent, p) && !NodeOk(fs'.inodes, fs'.parent, p);
    }
  }

  /** Right after ramfs_create_root, removing "." removes the root. */
  lemma RootRemoved<T>(root: T)
    ensures var (fs, ok) := Rmdir(Fresh(root), root, DOT); ok && !Inv(fs)
  {
    FreshKeepsInv(root);
    SelfRemovalBreaks(Fresh(root), root, DOT);
  }

  /** A dot entry of a directory that ramfs_rmdir accepts leads to the directory itself. */
  lemma DotRemovalIsSelf<T>(fs: Fs<T>, d: T, name: string)
    requires Inv(fs) && Rmdir(fs, d, name).1 && IsDot(name)
    ensures RemovesItself(fs, d, name)
  {
    assert NodeOk(fs.inodes, fs.parent, d) && ChildOk(fs.inodes, fs.parent, fs.root, d);
    var k := Find(fs.inodes[d].ring, name);
    var x := fs.inodes[d].ring[k].target;
    assert Dotted(fs.inodes[d].ring, d, fs.parent[d]);
    assert x == if name == DOT then d else fs.parent[d];
    LooksEmptyIsExact(fs, x);
  }

  /** ramfs_rmdir keeps the tree unless it removes the directory it was given. */
  lemma RmdirExact<T>(fs: Fs<T>, d: T, name: string)
    requires Inv(fs)
    ensures Inv(Rmdir(fs, d, name).0) <==> !RemovesItself(fs, d, name)
  {
    if RemovesItself(fs, d, name) {
      SelfRemovalBreaks(fs, d, name);
    } else if Rmdir(fs, d, name).1 {
      if IsDot(name) {
        DotRemovalIsSelf(fs, d, name);
      } else {
        var k := Find(fs.inodes[d].ring, name);
        var x := fs.inodes[d].ring[k].target;
        LooksEmptyIsExact(fs, x);
        RemoveKeepsInv(fs, d, k, x);
      }
    }
  }

  // ---- Runs ---------------------------------------------------------------------------------

  datatype Op<T> =
    | CreateOp(dir: T, name: string, kind: Kind, outcome: Outcome, id: T)
    | MkdirOp(dir: T, name: string, outcome: Outcome, dots: bool, id: T)
    | RmdirOp(dir: T, name: string)
    | UnlinkOp(dir: T, name: string)

  function Exec<T>(fs: Fs<T>, op: Op<T>): Fs<T> {
    match op
    case CreateOp(d, name, kind, outcome, id) => Create(fs, d, name, kind, outcome, id).0
    case MkdirOp(d, name, outcome, dots, id) => Mkdir(fs, d, name, outcome, dots, id).0
    case RmdirOp(d, name) => Rmdir(fs, d, name).0
    case UnlinkOp(d, name) => Unlink(fs, d, name).0
  }

  /** The heap hands out memory that is not in use. */
  predicate FreshId<T>(fs: Fs<T>, op: Op<T>) { (op.CreateOp? || op.MkdirOp?) ==> op.id !in fs.inodes }

  /** The calls that damage the tree. */
  predicate Harms<T>(fs: Fs<T>, op: Op<T>) {
    if op.CreateOp? || op.MkdirOp? then
      && IsDir(fs, op.dir) && LacksDots(fs.inodes[op.dir].ring) && IsDot(op.name) && op.outcome == Created
    else
      op.RmdirOp? && RemovesItself(fs, op.dir, op.name)
  }

  /** A call keeps the tree exactly when Harms does not hold of it. */
  lemma StepExact<T>(fs: Fs<T>, op: Op<T>)
    requires Inv(fs) && FreshId(fs, op)
    ensures Inv(Exec(fs, op)) <==> !Harms(fs, op)
  {
    match op
    case CreateOp(d, name, kind, outcome, id) => CreateExact(fs, d, name, kind, outcome, id);
    case MkdirOp(d, name, outcome, dots, id) => MkdirExact(fs, d, name, outcome, dots, id);
    case RmdirOp(d, name) => RmdirExact(fs, d, name);
    case UnlinkOp(d, name) => UnlinkKeepsInv(fs, d, name);
  }

  function Run<T>(fs: Fs<T>, ops: seq<Op<T>>): Fs<T>
    decreases ops
  {
    if ops == [] then fs else Run(Exec(fs, ops[0]), ops[1..])
  }

  /** Callers pass names other than "." and "..", and identities are not in use. */
  predicate ProperRun<T>(fs: Fs<T>, ops: seq<Op<T>>)
    decreases ops
  {
    ops == [] || (FreshId(fs, ops[0]) && !IsDot(ops[0].name) && ProperRun(Exec(fs, ops[0]), ops[1..]))
  }

  lemma FreshKeepsInv<T>(root: T)
    ensures Inv(Fresh(root))
  {
    var fs := Fresh(root);
    assert NodeOk(fs.inodes, fs.parent, root) && ChildOk(fs.inodes, fs.parent, root, root);
    assert RankOk(fs.inodes, 2, root) && RanksDiffer(fs.inodes, root, root);
  }

  lemma {:induction false} RunKeepsInv<T>(fs: Fs<T>, ops: seq<Op<T>>)
    requires Inv(fs) && ProperRun(fs, ops)
    ensures Inv(Run(fs, ops))
    decreases ops
  {
    if ops != [] {
      StepExact(fs, ops[0]);
      RunKeepsInv(Exec(fs, ops[0]), ops[1..]);
    }
  }

  /** Whatever calls are made after ramfs_create_root, the directories form a tree. */
  lemma EveryRun<T>(root: T, ops: seq<Op<T>>)
    requires ProperRun(Fresh(root), ops)
    ensures Inv(Run(Fresh(root), ops))
  {
    FreshKeepsInv(root);
    RunKeepsInv(Fresh(root), ops);
  }
}
