/** Names and paths: what a look-up finds after each call, and that exactly one path of real
    names leads to each inode. */
module RamFsPaths {
  import opened Machine
  import opened RamFsTree
  import opened Rings
  import opened RamFsRuns

  function RingLookup<T>(ring: seq<Entry<T>>, name: string): Option<T> {
    var k := Find(ring, name);
    if k < |ring| then Some(ring[k].target) else None
  }

  /** What ramfs_find_entry finds in directory d. */
  function Lookup<T>(fs: Fs<T>, d: T, name: string): Option<T> {
    if d in fs.inodes then RingLookup(fs.inodes[d].ring, name) else None
  }

  // ---- A ring of unique names is a map ------------------------------------------------------

  lemma {:induction false} FindAppend<T>(ring: seq<Entry<T>>, e: Entry<T>, name: string)
    ensures Find(ring + [e], name) ==
            if Find(ring, name) < |ring| then Find(ring, name) else if e.name == name then |ring| else |ring| + 1
  {
    if ring != [] {
      FindAppend(ring[1..], e, name);
      assert (ring + [e])[1..] == ring[1..] + [e];
    }
  }

  lemma LookupAppend<T>(ring: seq<Entry<T>>, e: Entry<T>, name: string)
    requires Find(ring, e.name) == |ring|
    ensures RingLookup(ring + [e], name) == if name == e.name then Some(e.target) else RingLookup(ring, name)
  {
    FindAppend(ring, e, name);
  }

  lemma {:induction false} FindAt<T>(ring: seq<Entry<T>>, k: nat)
    requires UniqueNames(ring) && k < |ring|
    ensures Find(ring, ring[k].name) == k
  {
    if k > 0 {
      FindAt(ring[1..], k - 1);
    }
  }

  lemma LookupWithout<T>(ring: seq<Entry<T>>, k: nat, name: string)
    requires UniqueNames(ring) && k < |ring|
    ensures RingLookup(Without(ring, k), name) == if name == ring[k].name then None else RingLookup(ring, name)
  {
    var rest := Without(ring, k);
    assert forall i | 0 <= i < |rest| :: rest[i] == ring[if i < k then i else i + 1];
    var i := Find(ring, name);
    if i < |ring| && i != k {
      var j := if i < k then i else i - 1;
      assert rest[j] == ring[i];
      FindAt(rest, j);
    } else {
      FindIsFirst(ring, name);
      assert forall j | 0 <= j < |rest| :: rest[j].name != name;
    }
  }

  // ---- What each call does to look-ups ------------------------------------------------------

  /** ramfs_create succeeds exactly when the name is new in an existing directory and both
      allocations succeed; then only that name, in that directory, is found differently. */
  lemma CreateLookup<T>(fs: Fs<T>, d: T, name: string, kind: Kind, outcome: Outcome, id: T, x: T, n: string)
    requires Inv(fs) && id !in fs.inodes
    ensures var (fs', ok) := Create(fs, d, name, kind, outcome, id);
            && (ok <==> IsDir(fs, d) && Lookup(fs, d, name) == None && outcome == Created)
            && Lookup(fs', x, n) == if ok && x == d && n == name then Some(id) else Lookup(fs, x, n)
  {
    if IsDir(fs, d) && Lookup(fs, d, name) == None && outcome == Created && x == d {
      LookupAppend(fs.inodes[d].ring, Entry(name, id), n);
    }
  }

  lemma MkdirLookup<T>(fs: Fs<T>, d: T, name: string, outcome: Outcome, id: T, x: T, n: string)
    requires Inv(fs) && id !in fs.inodes
    ensures var (fs', ok) := Mkdir(fs, d, name, outcome, true, id);
            && (ok <==> IsDir(fs, d) && Lookup(fs, d, name) == None && outcome == Created)
            && Lookup(fs', x, n) == if ok && x == d && n == name then Some(id)
                                    else if ok && x == id && n == DOT then Some(id)
                                    else if ok && x == id && n == DOTDOT then Some(d)
                                    else Lookup(fs, x, n)
  {
    CreateLookup(fs, d, name, Directory, outcome, id, x, n);
    var (fs', ok) := Create(fs, d, name, Directory, outcome, id);
    var dots := [Entry(DOT, id), Entry(DOTDOT, d)];
    assert DOT != DOTDOT by { assert |DOT| != |DOTDOT|; }
    assert dots[1..] == [Entry(DOTDOT, d)] && dots[1..][1..] == [];
    assert Find(dots, n) == if n == DOT then 0 else if n == DOTDOT then 1 else 2;
  }

  /** A call of ramfs_mkdir that fails leaves the tree as it was, unless only the dot entries
      could not be allocated: then the new directory stays, without them. */
  lemma FailedMkdir<T>(fs: Fs<T>, d: T, name: string, outcome: Outcome, dots: bool, id: T)
    requires Inv(fs) && id !in fs.inodes && !Mkdir(fs, d, name, outcome, dots, id).1
    ensures var fs' := Mkdir(fs, d, name, outcome, dots, id).0;
            fs'.inodes == fs.inodes <==> !(IsDir(fs, d) && Lookup(fs, d, name) == None && outcome == Created && !dots)
  {}

  lemma RemoveLookup<T>(fs: Fs<T>, d: T, k: nat, x: T, y: T, n: string)
    requires Inv(fs) && Removable(fs, d, k, x) && y != x
    ensures Lookup(RemoveEntry(fs, d, k), y, n)
            == if y == d && n == fs.inodes[d].ring[k].name then None else Lookup(fs, y, n)
  {
    assert NodeOk(fs.inodes, fs.parent, d);
    ChildIsAnother(fs, d, k, x);
    if y == d { LookupWithout(fs.inodes[d].ring, k, n); }
  }

  /** Nothing but the dot entries. */
  ghost predicate Childless<T>(fs: Fs<T>, x: T)
    requires x in fs.inodes
  {
    forall i | 0 <= i < |fs.inodes[x].ring| :: !IsReal(fs.inodes[x].ring[i])
  }

  /** ramfs_rmdir of a real name succeeds exactly when it names a childless directory, and
      removes that name, nothing else. */
  lemma RmdirLookup<T>(fs: Fs<T>, d: T, name: string, y: T, n: string)
    requires Inv(fs) && !IsDot(name)
    ensures var (fs', ok) := Rmdir(fs, d, name); var found := Lookup(fs, d, name);
            && (ok <==> IsDir(fs, d) && found.Some? && IsDir(fs, found.value) && Childless(fs, found.value))
            && (ok ==> fs'.inodes.Keys == fs.inodes.Keys - {found.value})
            && (found != Some(y) ==> Lookup(fs', y, n) == if ok && y == d && n == name then None else Lookup(fs, y, n))
  {
    var found := Lookup(fs, d, name);
    if IsDir(fs, d) && found.Some? && IsDir(fs, found.value) {
      LooksEmptyIsExact(fs, found.value);
      if Rmdir(fs, d, name).1 && found != Some(y) {
        RemoveLookup(fs, d, Find(fs.inodes[d].ring, name), found.value, y, n);
      }
    }
  }

  lemma UnlinkLookup<T>(fs: Fs<T>, d: T, name: string, y: T, n: string)
    requires Inv(fs)
    ensures var (fs', ok) := Unlink(fs, d, name); var found := Lookup(fs, d, name);
            && (ok <==> IsDir(fs, d) && found.Some? && found.value in fs.inodes && fs.inodes[found.value].kind == Regular)
            && (ok ==> fs'.inodes.Keys == fs.inodes.Keys - {found.value})
            && (found != Some(y) ==> Lookup(fs', y, n) == if ok && y == d && n == name then None else Lookup(fs, y, n))
  {
    if Unlink(fs, d, name).1 && Lookup(fs, d, name) != Some(y) {
      var k := Find(fs.inodes[d].ring, name);
      var x := fs.inodes[d].ring[k].target;
      assert NodeOk(fs.inodes, fs.parent, d) && NodeOk(fs.inodes, fs.parent, x);
      assert ChildOk(fs.inodes, fs.parent, fs.root, d);
      RemoveLookup(fs, d, k, x, y, n);
    }
  }

  /** mkdir and then rmdir of a new name restore everything but the inode counter. */
  lemma MkdirThenRmdir<T>(fs: Fs<T>, d: T, name: string, dots: bool, id: T)
    requires Inv(fs) && Creates(fs, d, name, id) && !IsDot(name)
    ensures Rmdir(Mkdir(fs, d, name, Created, dots, id).0, d, name) == (fs.(made := fs.made + 1), true)
  {
    var fs' := Mkdir(fs, d, name, Created, dots, id).0;
    var ring := fs.inodes[d].ring;
    FindAppend(ring, Entry(name, id), name);
    assert Without(ring + [Entry(name, id)], |ring|) == ring;
    var fs'' := Rmdir(fs', d, name).0;
    assert fs''.inodes == fs.inodes;
    assert fs''.parent == fs.parent;
  }

  lemma CreateThenUnlink<T>(fs: Fs<T>, d: T, name: string, id: T)
    requires Inv(fs) && Creates(fs, d, name, id)
    ensures Unlink(Create(fs, d, name, Regular, Created, id).0, d, name) == (fs.(made := fs.made + 1), true)
  {
    var fs' := Create(fs, d, name, Regular, Created, id).0;
    var ring := fs.inodes[d].ring;
    FindAppend(ring, Entry(name, id), name);
    assert Without(ring + [Entry(name, id)], |ring|) == ring;
    var fs'' := Unlink(fs', d, name).0;
    assert fs''.inodes == fs.inodes;
    assert fs''.parent == fs.parent;
  }

  // ---- Paths --------------------------------------------------------------------------------

  /** A path is given with its last name first. */
  datatype Path = Here | Then(up: Path, name: string)

  predicate RealPath(p: Path) { p.Then? ==> !IsDot(p.name) && RealPath(p.up) }

  function Walk<T>(fs: Fs<T>, p: Path): Option<T> {
    match p
    case Here => Some(fs.root)
    case Then(up, name) =>
      var d := Walk(fs, up);
      if d.None? then None else Lookup(fs, d.value, name)
  }

  /** Every inode is found from the root by a path of real names. */
  lemma {:induction false} PathTo<T>(fs: Fs<T>, x: T) returns (p: Path)
    requires Inv(fs) && x in fs.inodes
    ensures RealPath(p) && Walk(fs, p) == Some(x)
    decreases fs.inodes[x].rank
  {
    if x == fs.root { return Here; }
    ParentIsOlder(fs, x);
    var d := fs.parent[x];
    p := PathTo(fs, d);
    assert ChildOk(fs.inodes, fs.parent, fs.root, x) && NodeOk(fs.inodes, fs.parent, d);
    var i :| 0 <= i < |fs.inodes[d].ring| && IsReal(fs.inodes[d].ring[i]) && fs.inodes[d].ring[i].target == x;
    FindAt(fs.inodes[d].ring, i);
    p := Then(p, fs.inodes[d].ring[i].name);
  }

  lemma {:induction false} WalkStays<T>(fs: Fs<T>, p: Path)
    requires Inv(fs) && RealPath(p) && Walk(fs, p).Some?
    ensures Walk(fs, p).value in fs.inodes
  {
    if p.Then? {
      WalkStays(fs, p.up);
      assert NodeOk(fs.inodes, fs.parent, Walk(fs, p.up).value);
    }
  }

  /** And by one such path only. */
  lemma {:induction false} PathIsUnique<T>(fs: Fs<T>, p: Path, q: Path)
    requires Inv(fs) && RealPath(p) && RealPath(q) && Walk(fs, p).Some? && Walk(fs, p) == Walk(fs, q)
    ensures p == q
  {
    if p.Then? { WalkStays(fs, p.up); }
    if q.Then? { WalkStays(fs, q.up); }
    if p.Then? && q.Then? {
      var d, e, x := Walk(fs, p.up).value, Walk(fs, q.up).value, Walk(fs, p).value;
      OneRealEntry(fs, x, d, Find(fs.inodes[d].ring, p.name), e, Find(fs.inodes[e].ring, q.name));
      PathIsUnique(fs, p.up, q.up);
    } else if p.Then? || q.Then? {
      NotTheRoot(fs, if p.Then? then p else q);
    }
  }

  lemma NotTheRoot<T>(fs: Fs<T>, p: Path)
    requires Inv(fs) && RealPath(p) && p.Then? && Walk(fs, p).Some?
    ensures Walk(fs, p).value != fs.root
  {
    WalkStays(fs, p.up);
    var d := Walk(fs, p.up).value;
    var k := Find(fs.inodes[d].ring, p.name);
    OneRealEntry(fs, Walk(fs, p).value, d, k, d, k);
  }
}
