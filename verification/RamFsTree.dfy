/** The RamFS name space as a value: inodes with their directory rings, read from the
    first entry on, and what each call does to it. T stands for the identity of an inode. */
module RamFsTree {
  import opened Machine
  import opened Rings

  datatype Kind = Regular | Directory | Other

  datatype Entry<T> = Entry(name: string, target: T)

  /** `ring` is the directory ring from `entries` on; empty for other kinds. `rank` counts
      the inodes made before, without a bound. */
  datatype Node<T> = Node(rank: nat, kind: Kind, ring: seq<Entry<T>>)

  /** The inode number is the rank on 32 bits. */
  function Number<T>(n: Node<T>): nat { n.rank % WORD }

  /** `parent` is auxiliary: the directory in which each inode was created. `made` is the rank
      of the next inode, so that next_inode is made modulo 2^32. */
  datatype Fs<T> = Fs(root: T, inodes: map<T, Node<T>>, parent: map<T, T>, made: nat)

  const DOT := "."
  const DOTDOT := ".."

  predicate IsDot(name: string) { name == DOT || name == DOTDOT }

  /** An entry other than "." and "..". */
  predicate IsReal<T>(e: Entry<T>) { !IsDot(e.name) }

  /** Index of the first entry with the name, |ring| if there is none. */
  function Find<T>(ring: seq<Entry<T>>, name: string): (k: nat)
    ensures k <= |ring| && (k < |ring| ==> ring[k].name == name)
  {
    if ring == [] || ring[0].name == name then 0 else 1 + Find(ring[1..], name)
  }

  lemma {:induction false} FindIsFirst<T>(ring: seq<Entry<T>>, name: string)
    ensures forall i | 0 <= i < Find(ring, name) :: ring[i].name != name
  {
    if ring != [] && ring[0].name != name {
      FindIsFirst(ring[1..], name);
      assert forall i | 0 < i < |ring| :: ring[i] == ring[1..][i - 1];
    }
  }

  // ---- Calls ---------------------------------------------------------------------------

  /** Which allocation of ramfs_create succeeds. */
  datatype Outcome = NoInode | NoEntry | Created

  predicate IsDir<T>(fs: Fs<T>, d: T) { d in fs.inodes && fs.inodes[d].kind == Directory }

  /** ramfs_create appends the new entry at the end of the ring. An inode number is used
      up even if the entry cannot be allocated. */
  function Create<T>(fs: Fs<T>, d: T, name: string, kind: Kind, outcome: Outcome, id: T): (Fs<T>, bool) {
    if !IsDir(fs, d) || Find(fs.inodes[d].ring, name) < |fs.inodes[d].ring| || outcome == NoInode then (fs, false)
    else if outcome == NoEntry then (fs.(made := fs.made + 1), false)
    else
      var dir := fs.inodes[d];
      (Fs(fs.root,
          fs.inodes[d := dir.(ring := dir.ring + [Entry(name, id)])][id := Node(fs.made, kind, [])],
          fs.parent[id := d], fs.made + 1), true)
  }

  /** Gives the new directory its "." and "..". */
  function AddDots<T>(fs: Fs<T>, id: T, d: T): Fs<T>
    requires id in fs.inodes
  {
    fs.(inodes := fs.inodes[id := fs.inodes[id].(ring := [Entry(DOT, id), Entry(DOTDOT, d)])])
  }

  /** When the dot entries cannot be allocated, the call fails but the directory stays. */
  function Mkdir<T>(fs: Fs<T>, d: T, name: string, outcome: Outcome, dots: bool, id: T): (Fs<T>, bool) {
    var (fs', ok) := Create(fs, d, name, Directory, outcome, id);
    if !ok then (fs', false) else if !dots then (fs', false) else (AddDots(fs', id, d), true)
  }

  /** The test of ramfs_rmdir: no entries, or at most two with "." first. */
  predicate LooksEmpty<T>(ring: seq<Entry<T>>) {
    ring == [] || (|ring| <= 2 && ring[0].name == DOT)
  }

  function RemoveEntry<T>(fs: Fs<T>, d: T, k: nat): Fs<T>
    requires d in fs.inodes && k < |fs.inodes[d].ring|
  {
    var dir := fs.inodes[d];
    var x := dir.ring[k].target;
    fs.(inodes := fs.inodes[d := dir.(ring := Without(dir.ring, k))] - {x}, parent := fs.parent - {x})
  }

  function Rmdir<T>(fs: Fs<T>, d: T, name: string): (Fs<T>, bool) {
    if !IsDir(fs, d) then (fs, false)
    else
      var k := Find(fs.inodes[d].ring, name);
      if k == |fs.inodes[d].ring| || !IsDir(fs, fs.inodes[d].ring[k].target)
         || !LooksEmpty(fs.inodes[fs.inodes[d].ring[k].target].ring) then (fs, false)
      else (RemoveEntry(fs, d, k), true)
  }

  function Unlink<T>(fs: Fs<T>, d: T, name: string): (Fs<T>, bool) {
    if !IsDir(fs, d) then (fs, false)
    else
      var k := Find(fs.inodes[d].ring, name);
      if k == |fs.inodes[d].ring| || fs.inodes[d].ring[k].target !in fs.inodes
         || fs.inodes[fs.inodes[d].ring[k].target].kind != Regular then (fs, false)
      else (RemoveEntry(fs, d, k), true)
  }

  /** After ramfs_create_root. */
  function Fresh<T>(root: T): Fs<T> {
    Fs(root, map[root := Node(1, Directory, [Entry(DOT, root), Entry(DOTDOT, root)])], map[root := root], 2)
  }

  // ---- The tree invariant -------------------------------------------------------------------

  predicate UniqueNames<T>(ring: seq<Entry<T>>) {
    forall i, j | 0 <= i < j < |ring| :: ring[i].name != ring[j].name
  }

  /** "." is the directory itself and ".." its parent, and they come first. */
  predicate Dotted<T(==)>(ring: seq<Entry<T>>, d: T, parent: T) {
    && |ring| >= 2 && ring[0] == Entry(DOT, d) && ring[1] == Entry(DOTDOT, parent)
    && forall i | 2 <= i < |ring| :: IsReal(ring[i])
  }

  /** A directory whose dot entries could not be allocated. */
  predicate Bare<T>(ring: seq<Entry<T>>) { forall i | 0 <= i < |ring| :: IsReal(ring[i]) }

  type Inodes<T> = map<T, Node<T>>

  /** Real entries lead to inodes created in this very directory, later than it, each once. */
  ghost predicate ChildrenOk<T>(inodes: Inodes<T>, parent: map<T, T>, d: T)
    requires d in inodes
  {
    var ring := inodes[d].ring;
    && (forall i | 0 <= i < |ring| && IsReal(ring[i]) ::
          && ring[i].target in inodes && ring[i].target in parent && parent[ring[i].target] == d
          && inodes[d].rank < inodes[ring[i].target].rank)
    && (forall i, j | 0 <= i < j < |ring| && IsReal(ring[i]) && IsReal(ring[j]) :: ring[i].target != ring[j].target)
  }

  /** Names are unique, and a directory has both dot entries or neither. */
  ghost predicate RingOk<T>(inodes: Inodes<T>, parent: map<T, T>, x: T)
    requires x in inodes
  {
    var n := inodes[x];
    && UniqueNames(n.ring) && (n.kind == Directory || n.ring == [])
    && x in parent && (Dotted(n.ring, x, parent[x]) || Bare(n.ring))
  }

  ghost predicate NodeOk<T>(inodes: Inodes<T>, parent: map<T, T>, x: T)
    requires x in inodes
  {
    RingOk(inodes, parent, x) && ChildrenOk(inodes, parent, x)
  }

  /** Some real entry of d leads to x. */
  ghost predicate HasChild<T>(inodes: Inodes<T>, d: T, x: T)
    requires d in inodes
  {
    exists i :: 0 <= i < |inodes[d].ring| && IsReal(inodes[d].ring[i]) && inodes[d].ring[i].target == x
  }

  /** Every inode but the root is a child of its parent. */
  ghost predicate ChildOk<T>(inodes: Inodes<T>, parent: map<T, T>, root: T, x: T) {
    x in parent && parent[x] in inodes && (x != root ==> HasChild(inodes, parent[x], x))
  }

  ghost predicate RanksDiffer<T>(inodes: Inodes<T>, x: T, y: T)
    requires x in inodes && y in inodes
  {
    x != y ==> inodes[x].rank != inodes[y].rank
  }

  ghost predicate RootOk<T>(inodes: Inodes<T>, parent: map<T, T>, root: T) {
    && root in inodes && inodes[root].kind == Directory && root in parent && parent[root] == root
    && Dotted(inodes[root].ring, root, root)
  }

  ghost predicate RankOk<T>(inodes: Inodes<T>, next: nat, x: T)
    requires x in inodes
  {
    inodes[x].rank < next
  }

  ghost predicate NodesOk<T>(inodes: Inodes<T>, parent: map<T, T>) {
    forall x {:trigger NodeOk(inodes, parent, x)} | x in inodes :: NodeOk(inodes, parent, x)
  }

  ghost predicate ParentsOk<T>(inodes: Inodes<T>, parent: map<T, T>, root: T) {
    && parent.Keys == inodes.Keys
    && forall x {:trigger ChildOk(inodes, parent, root, x)} | x in inodes :: ChildOk(inodes, parent, root, x)
  }

  /** Ranks are distinct and below that of the next inode. */
  ghost predicate RanksOk<T>(inodes: Inodes<T>, next: nat) {
    && (forall x {:trigger RankOk(inodes, next, x)} | x in inodes :: RankOk(inodes, next, x))
    && (forall x, y {:trigger RanksDiffer(inodes, x, y)} | x in inodes && y in inodes :: RanksDiffer(inodes, x, y))
  }

  ghost predicate Inv<T>(fs: Fs<T>) {
    && RootOk(fs.inodes, fs.parent, fs.root) && NodesOk(fs.inodes, fs.parent)
    && ParentsOk(fs.inodes, fs.parent, fs.root) && RanksOk(fs.inodes, fs.made)
  }

  /** The test of ramfs_rmdir accepts exactly the directories that hold nothing but
      "." and "..". */
  lemma LooksEmptyIsExact<T>(fs: Fs<T>, x: T)
    requires Inv(fs) && x in fs.inodes
    ensures LooksEmpty(fs.inodes[x].ring) <==>
              forall i | 0 <= i < |fs.inodes[x].ring| :: !IsReal(fs.inodes[x].ring[i])
  {
    assert NodeOk(fs.inodes, fs.parent, x);
    var ring := fs.inodes[x].ring;
    if |ring| > 2 && ring[0].name == DOT { assert IsReal(ring[2]); }
  }

  /** Each inode but the root has exactly one real entry. */
  lemma OneRealEntry<T>(fs: Fs<T>, x: T, d: T, i: nat, e: T, j: nat)
    requires Inv(fs) && d in fs.inodes && e in fs.inodes
    requires i < |fs.inodes[d].ring| && IsReal(fs.inodes[d].ring[i]) && fs.inodes[d].ring[i].target == x
    requires j < |fs.inodes[e].ring| && IsReal(fs.inodes[e].ring[j]) && fs.inodes[e].ring[j].target == x
    ensures d == e && i == j && x != fs.root
  {
    assert NodeOk(fs.inodes, fs.parent, d) && NodeOk(fs.inodes, fs.parent, e);
    assert ChildrenOk(fs.inodes, fs.parent, d) && ChildrenOk(fs.inodes, fs.parent, e);
  }

  /** The inode k steps up from x. */
  function Ancestor<T>(fs: Fs<T>, x: T, k: nat): T {
    if k == 0 || x !in fs.parent then x else Ancestor(fs, fs.parent[x], k - 1)
  }

  lemma ParentIsOlder<T>(fs: Fs<T>, x: T)
    requires Inv(fs) && x in fs.inodes && x != fs.root
    ensures fs.parent[x] in fs.inodes && fs.inodes[fs.parent[x]].rank < fs.inodes[x].rank
  {
    assert ChildOk(fs.inodes, fs.parent, fs.root, x);
    assert NodeOk(fs.inodes, fs.parent, fs.parent[x]);
  }

  /** The directories form a tree: from every inode the way up reaches the root. */
  lemma {:induction false} ReachesRoot<T>(fs: Fs<T>, x: T) returns (k: nat)
    requires Inv(fs) && x in fs.inodes
    ensures Ancestor(fs, x, k) == fs.root && k <= fs.inodes[x].rank
    decreases fs.inodes[x].rank
  {
    if x == fs.root { return 0; }
    ParentIsOlder(fs, x);
    k := ReachesRoot(fs, fs.parent[x]);
    k := k + 1;
  }

  // ---- Every call keeps the tree ----------------------------------------------------------

  /** An entry is really added. */
  predicate Creates<T>(fs: Fs<T>, d: T, name: string, id: T) {
    id !in fs.inodes && IsDir(fs, d) && Find(fs.inodes[d].ring, name) == |fs.inodes[d].ring|
  }

  lemma CreateKeepsRing<T>(fs: Fs<T>, d: T, name: string, kind: Kind, id: T)
    requires Inv(fs) && Creates(fs, d, name, id) && !IsDot(name)
    ensures var fs' := Create(fs, d, name, kind, Created, id).0;
            RingOk(fs'.inodes, fs'.parent, d)
  {
    assert NodeOk(fs.inodes, fs.parent, d);
    FindIsFirst(fs.inodes[d].ring, name);
  }

  lemma CreateKeepsChildren<T>(fs: Fs<T>, d: T, name: string, kind: Kind, id: T, x: T)
    requires Inv(fs) && Creates(fs, d, name, id) && !IsDot(name) && x in fs.inodes
    ensures var fs' := Create(fs, d, name, kind, Created, id).0;
            ChildrenOk(fs'.inodes, fs'.parent, x)
  {
    var fs' := Create(fs, d, name, kind, Created, id).0;
    var ring, ring' := fs.inodes[x].ring, fs'.inodes[x].ring;
    assert NodeOk(fs.inodes, fs.parent, x) && RankOk(fs.inodes, fs.made, d);
    assert ChildrenOk(fs.inodes, fs.parent, x);
    assert forall i | 0 <= i < |ring| :: ring'[i] == ring[i];
    assert x != d ==> ring' == ring;
    assert x == d ==> |ring'| == |ring| + 1 && ring'[|ring|] == Entry(name, id);
  }

  lemma CreateKeepsNode<T>(fs: Fs<T>, d: T, name: string, kind: Kind, id: T, x: T)
    requires Inv(fs) && Creates(fs, d, name, id) && !IsDot(name) && (x in fs.inodes || x == id)
    ensures var fs' := Create(fs, d, name, kind, Created, id).0;
            NodeOk(fs'.inodes, fs'.parent, x)
  {
    if x != id {
      CreateKeepsChildren(fs, d, name, kind, id, x);
      assert NodeOk(fs.inodes, fs.parent, x);
      if x == d { CreateKeepsRing(fs, d, name, kind, id); }
    }
  }

  lemma CreateKeepsChild<T>(fs: Fs<T>, d: T, name: string, kind: Kind, id: T, x: T)
    requires Inv(fs) && Creates(fs, d, name, id) && !IsDot(name) && (x in fs.inodes || x == id)
    ensures var fs' := Create(fs, d, name, kind, Created, id).0;
            ChildOk(fs'.inodes, fs'.parent, fs'.root, x)
  {
    var fs' := Create(fs, d, name, kind, Created, id).0;
    if x == id {
      assert fs'.inodes[d].ring[|fs.inodes[d].ring|] == Entry(name, id);
    } else {
      assert ChildOk(fs.inodes, fs.parent, fs.root, x);
      if x != fs.root {
        var p := fs.parent[x];
        var i :| 0 <= i < |fs.inodes[p].ring| && IsReal(fs.inodes[p].ring[i]) && fs.inodes[p].ring[i].target == x;
        assert fs'.inodes[p].ring[i] == fs.inodes[p].ring[i];
      }
    }
  }

  lemma CreateKeepsRank<T>(fs: Fs<T>, d: T, name: string, kind: Kind, id: T, x: T, y: T)
    requires Inv(fs) && Creates(fs, d, name, id) && (x in fs.inodes || x == id) && (y in fs.inodes || y == id)
    ensures var fs' := Create(fs, d, name, kind, Created, id).0;
            RanksDiffer(fs'.inodes, x, y) && RankOk(fs'.inodes, fs'.made, x)
  {
    if x != id { assert RankOk(fs.inodes, fs.made, x); }
    if y != id { assert RankOk(fs.inodes, fs.made, y); }
    if x != id && y != id { assert RanksDiffer(fs.inodes, x, y); }
  }

  lemma CreateKeepsNodes<T>(fs: Fs<T>, d: T, name: string, kind: Kind, id: T)
    requires Inv(fs) && Creates(fs, d, name, id) && !IsDot(name)
    ensures var fs' := Create(fs, d, name, kind, Created, id).0; NodesOk(fs'.inodes, fs'.parent)
  {
    var fs' := Create(fs, d, name, kind, Created, id).0;
    forall x | x in fs'.inodes ensures NodeOk(fs'.inodes, fs'.parent, x) {
      CreateKeepsNode(fs, d, name, kind, id, x);
    }
  }

  lemma CreateKeepsParents<T>(fs: Fs<T>, d: T, name: string, kind: Kind, id: T)
    requires Inv(fs) && Creates(fs, d, name, id) && !IsDot(name)
    ensures var fs' := Create(fs, d, name, kind, Created, id).0; ParentsOk(fs'.inodes, fs'.parent, fs'.root)
  {
    var fs' := Create(fs, d, name, kind, Created, id).0;
    forall x | x in fs'.inodes ensures ChildOk(fs'.inodes, fs'.parent, fs'.root, x) {
      CreateKeepsChild(fs, d, name, kind, id, x);
    }
  }

  lemma CreateKeepsRanks<T>(fs: Fs<T>, d: T, name: string, kind: Kind, id: T)
    requires Inv(fs) && Creates(fs, d, name, id)
    ensures var fs' := Create(fs, d, name, kind, Created, id).0; RanksOk(fs'.inodes, fs'.made)
  {
    var fs' := Create(fs, d, name, kind, Created, id).0;
    forall x, y | x in fs'.inodes && y in fs'.inodes
      ensures RanksDiffer(fs'.inodes, x, y) && RankOk(fs'.inodes, fs'.made, x)
    {
      CreateKeepsRank(fs, d, name, kind, id, x, y);
    }
    forall x | x in fs'.inodes ensures RankOk(fs'.inodes, fs'.made, x) {
      CreateKeepsRank(fs, d, name, kind, id, x, x);
    }
  }

  lemma CreateKeepsInv<T>(fs: Fs<T>, d: T, name: string, kind: Kind, id: T)
    requires Inv(fs) && Creates(fs, d, name, id) && !IsDot(name)
    ensures Inv(Create(fs, d, name, kind, Created, id).0)
  {
    CreateKeepsNodes(fs, d, name, kind, id);
    CreateKeepsParents(fs, d, name, kind, id);
    CreateKeepsRanks(fs, d, name, kind, id);
  }

  /** Only the counter moves. */
  lemma NextKeepsInv<T>(fs: Fs<T>)
    requires Inv(fs)
    ensures Inv(fs.(made := fs.made + 1))
  {
    forall x | x in fs.inodes ensures RankOk(fs.inodes, fs.made + 1, x) {
      assert RankOk(fs.inodes, fs.made, x);
    }
  }
}
