/** RamFS objects: inodes, and directory entries in circular lists, updated in place. */
module RamFs {
  import opened Machine
  import opened RamFsTree
  import opened RamFsRuns
  import opened RamReaddir
  import opened Rings
  import RamFile

  /** Name and inode are set once, when the entry is made. */
  class DirEntry {
    const name: string
    const inode: Inode
    var next: DirEntry?
    var prev: DirEntry?
    /** The directory in whose ring the entry is. */
    ghost const home: Inode

    constructor (name: string, inode: Inode, ghost home: Inode)
      ensures this.name == name && this.inode == inode && this.home == home
    {
      this.name, this.inode, this.home := name, inode, home;
      next, prev := null, null;
    }
  }

  class Inode {
    const num: nat
    const kind: Kind
    var entries: DirEntry?
    var size: nat
    var data: array?<bv8>
    var dataSize: nat
    var dataCapacity: nat
    /** What the buffer holds. */
    ghost var file: RamFile.File

    constructor (num: nat, kind: Kind)
      ensures this.num == num && this.kind == kind && entries == null
      ensures FileOk() && file == RamFile.EMPTY
    {
      this.num, this.kind, entries := num, kind, null;
      size, data, dataSize, dataCapacity, file := 0, null, 0, 0, RamFile.EMPTY;
    }

    ghost predicate FileOk()
      reads this, data
    {
      && RamFile.Inv(file) && size == dataSize == file.size && dataCapacity == file.capacity
      && dataCapacity == (if data == null then 0 else data.Length)
      && forall i | i in file.bytes :: data != null && i < data.Length && data[i] == file.bytes[i]
    }

    /** `ramfs_read`. */
    method Read(buf: array<bv8>, count: nat, offset: nat) returns (r: int)
      requires FileOk() && count <= buf.Length && buf != data
      modifies buf
      ensures kind != Regular ==> r == -1 && buf[..] == old(buf[..])
      ensures kind == Regular ==>
                && r == RamFile.ReadCount(file.size, count, offset)
                && r == (if offset >= file.size then 0 else if count < file.size - offset then count else file.size - offset)
                && (forall i | offset <= i < offset + r && i in file.bytes :: buf[i - offset] == file.bytes[i])
                && buf[r..] == old(buf[r..])
    {
      if kind != Regular {
        return -1;
      }
      var available := if offset < dataSize then dataSize - offset else 0;
      var n := if count < available then count else available;
      if n > 0 {
        forall i | 0 <= i < n { buf[i] := data[offset + i]; }
      }
      r := n;
    }

    /** `ramfs_write`; memcpy is a primitive, and `granted` is the answer of the heap. */
    method Write(buf: seq<bv8>, offset: nat, granted: bool) returns (r: int)
      requires FileOk() && RamFile.InRange(RamFile.WriteCall(buf, offset, granted))
      modifies this`data, this`dataSize, this`dataCapacity, this`size, this`file, data
      ensures FileOk() && (data == old(data) || fresh(data))
      ensures var w := RamFile.WriteCall(buf, offset, granted);
              if kind != Regular then r == -1 && file == old(file)
              else file == RamFile.Write(old(file), w) && r == if RamFile.Succeeds(old(file), w) then |buf| else -1
      ensures var end := offset + |buf|;
              r != -1 <==> kind == Regular && (end <= old(dataCapacity) || (granted && end <= 0xFFFF_F000))
      ensures r == -1 ==> data == old(data) && size == old(size) && dataCapacity == old(dataCapacity)
      ensures r != -1 ==>
                && r == |buf| && size == (if old(size) < offset + |buf| then offset + |buf| else old(size))
                && (forall j | 0 <= j < |buf| :: offset + j in file.bytes && file.bytes[offset + j] == buf[j])
                && (forall j | 0 <= j < |buf| :: data != null && offset + j < data.Length && data[offset + j] == buf[j])
    {
      if kind != Regular {
        return -1;
      }
      ghost var f, w := file, RamFile.WriteCall(buf, offset, granted);
      RamFile.WriteSucceeds(f, w);
      RamFile.GrowThenWrite(f, w);
      var newSize := offset + |buf|;
      if newSize > dataCapacity {
        var newCapacity := RamFile.RoundUp(newSize);
        if !granted || newCapacity == 0 {
          return -1;
        }
        Grow(newCapacity);
      }
      Copy(buf, offset, granted);
      r := |buf|;
      RamFile.WriteSizes(f, w);
      assert offset + |buf| <= file.capacity;
      forall j | 0 <= j < |buf| ensures offset + j in file.bytes && file.bytes[offset + j] == buf[j] {
        RamFile.WriteBytes(f, w, offset + j);
      }
    }

    /** Where the file holds the bytes of buf, they are what a read returns. */
    method ReadSame(ghost buf: seq<bv8>, count: nat, offset: nat, out: array<bv8>) returns (read: int)
      requires FileOk() && kind == Regular && out.Length >= count == |buf| && out != data
      requires offset + |buf| <= file.size
      requires forall j | 0 <= j < |buf| :: offset + j in file.bytes && file.bytes[offset + j] == buf[j]
      modifies out
      ensures FileOk() && read == |buf| && forall j | 0 <= j < |buf| :: out[j] == buf[j]
    {
      read := Read(out, count, offset);
      forall j | 0 <= j < |buf| ensures out[j] == buf[j] {
        var b, i := buf[j], offset + j;
        assert i in file.bytes && i - offset == j;
      }
    }

    /** What was written is what is read at the same place. */
    method WriteThenRead(buf: seq<bv8>, offset: nat, granted: bool, out: array<bv8>) returns (written: int, read: int)
      requires FileOk() && kind == Regular && RamFile.InRange(RamFile.WriteCall(buf, offset, granted))
      requires out.Length >= |buf| && out != data
      modifies this`data, this`dataSize, this`dataCapacity, this`size, this`file, data, out
      ensures FileOk()
      ensures written != -1 ==> read == |buf| && forall j | 0 <= j < |buf| :: out[j] == buf[j]
    {
      written := Write(buf, offset, granted);
      read := -1;
      if written != -1 {
        read := ReadSame(buf, |buf|, offset, out);
      }
    }

    method Grow(newCapacity: nat)
      requires FileOk() && newCapacity >= dataCapacity && newCapacity % RamFile.PAGE == 0 && 0 < newCapacity < WORD
      modifies this`data, this`dataCapacity, this`file
      ensures FileOk() && fresh(data) && file == old(file).(capacity := newCapacity)
    {
      var newData := new bv8[newCapacity];
      if data != null {
        forall i | 0 <= i < dataSize { newData[i] := data[i]; }
      }
      data, dataCapacity := newData, newCapacity;
      file := file.(capacity := newCapacity);
    }

    method Copy(buf: seq<bv8>, offset: nat, ghost granted: bool)
      requires FileOk() && offset + |buf| <= dataCapacity
      modifies this`dataSize, this`size, this`file, data
      ensures FileOk() && data == old(data)
      ensures file == RamFile.Write(old(file), RamFile.WriteCall(buf, offset, granted))
    {
      ghost var w := RamFile.WriteCall(buf, offset, granted);
      RamFile.WriteFits(file, w);
      if data != null {
        forall i | 0 <= i < |buf| { data[offset + i] := buf[i]; }
      }
      if offset + |buf| > dataSize {
        dataSize := offset + |buf|;
        size := offset + |buf|;
      }
      file := RamFile.File(RamFile.Overlay(file.bytes, w), dataSize, file.capacity);
    }
  }

  /** es[i] is linked to both its neighbours. */
  ghost predicate Linked(es: seq<DirEntry>, i: int)
    requires 0 <= i < |es|
    reads es
  {
    es[i].next == es[Succ(i, |es|)] && es[i].prev == es[Pred(i, |es|)]
  }

  /** es is the ring that starts at the entries of x. */
  ghost predicate IsRing(x: Inode, es: seq<DirEntry>)
    reads x`entries, es
  {
    && x.entries == (if es == [] then null else es[0])
    && forall i {:trigger Linked(es, i)} | 0 <= i < |es| :: Linked(es, i)
  }

  ghost predicate Holds(x: Inode, e: DirEntry, entry: Entry<Inode>) {
    e.home == x && entry == Entry(e.name, e.inode)
  }

  /** es are distinct entries of x that hold what the node says. */
  ghost predicate Tied(x: Inode, es: seq<DirEntry>, node: Node<Inode>) {
    && |es| == |node.ring| && x.num == Number(node) && x.kind == node.kind
    && (forall i {:trigger Holds(x, es[i], node.ring[i])} | 0 <= i < |es| :: Holds(x, es[i], node.ring[i]))
    && (forall i, j | 0 <= i < j < |es| :: es[i] != es[j])
  }

  // ---- One ring -----------------------------------------------------------------------------

  /** `ramfs_find_entry`: once round the ring from its first entry. */
  method FindEntry(dir: Inode, name: string, ghost es: seq<DirEntry>, ghost node: Node<Inode>) returns (e: DirEntry?)
    requires IsRing(dir, es) && Tied(dir, es, node)
    ensures var k := Find(node.ring, name);
            e == if k < |es| then es[k] else null
  {
    e := dir.entries;
    if e == null {
      return;
    }
    ghost var i := 0;
    while true
      invariant 0 <= i < |es| && e == es[i]
      invariant forall j | 0 <= j < i :: node.ring[j].name != name
      decreases |es| - i
    {
      assert Linked(es, i) && Holds(dir, es[i], node.ring[i]);
      if e.name == name {
        FindIs(node.ring, name, i);
        return;
      }
      e := e.next;
      i := i + 1;
      if e == dir.entries {
        assert i == |es|;
        FindIs(node.ring, name, i);
        return null;
      }
    }
  }

  lemma FindIs<T>(ring: seq<Entry<T>>, name: string, i: nat)
    requires i <= |ring| && (i < |ring| ==> ring[i].name == name) && forall j | 0 <= j < i :: ring[j].name != name
    ensures Find(ring, name) == i
  {
    FindIsFirst(ring, name);
    assert Find(ring, name) < |ring| ==> ring[Find(ring, name)].name == name;
  }

  /** Adds the entry before the first one, that is, at the end of the ring. */
  method Insert(dir: Inode, e: DirEntry, ghost es: seq<DirEntry>)
    requires IsRing(dir, es) && e !in es && forall i, j | 0 <= i < j < |es| :: es[i] != es[j]
    modifies dir, es, e
    ensures IsRing(dir, es + [e])
  {
    ghost var n := |es|;
    if dir.entries != null {
      assert Linked(es, 0) && Linked(es, n - 1);
      e.next := dir.entries;
      e.prev := dir.entries.prev;
      dir.entries.prev.next := e;
      dir.entries.prev := e;
    } else {
      e.next := e;
      e.prev := e;
      dir.entries := e;
    }
    forall i | 0 <= i <= n ensures Linked(es + [e], i) {
      assert i < n ==> old(Linked(es, i));
    }
  }

  /** Takes the entry out of the ring. */
  method Remove(dir: Inode, e: DirEntry, ghost es: seq<DirEntry>, ghost k: nat)
    requires IsRing(dir, es) && k < |es| && es[k] == e && forall i, j | 0 <= i < j < |es| :: es[i] != es[j]
    modifies dir, es
    ensures IsRing(dir, Without(es, k))
  {
    ghost var n, r := |es|, Without(es, k);
    assert Linked(es, k) && Linked(es, Succ(k, n)) && Linked(es, Pred(k, n));
    e.prev.next := e.next;
    e.next.prev := e.prev;
    if dir.entries == e {
      dir.entries := if e.next != e then e.next else null;
    }
    forall i | 0 <= i < |r| ensures Linked(r, i) {
      var o := if i < k then i else i + 1;
      assert old(Linked(es, o));
      WithoutAt(es, k, i);
      assert es[o] != es[k];
    }
  }

  // ---- The file system ----------------------------------------------------------------------

  ghost predicate Mirrored(x: Inode, es: seq<DirEntry>, node: Node<Inode>)
    reads x`entries, es
  {
    IsRing(x, es) && Tied(x, es, node)
  }

  lemma AtHome(x: Inode, es: seq<DirEntry>, node: Node<Inode>)
    requires Tied(x, es, node)
    ensures forall e | e in es :: e.home == x
  {
    forall i | 0 <= i < |es| ensures es[i].home == x { assert Holds(x, es[i], node.ring[i]); }
  }

  class FileSystem {
    var root: Inode
    var nextInode: nat
    ghost var fs: Fs<Inode>
    /** The ring of each inode, and all objects. */
    ghost var rings: map<Inode, seq<DirEntry>>
    ghost var repr: set<object>

    ghost predicate Inside(x: Inode, es: seq<DirEntry>)
      reads this`repr
    {
      x in repr && forall e | e in es :: e in repr
    }

    /** The rings of all inodes but d are those of fs. */
    ghost predicate Others(d: Inode?)
      reads this`fs, this`rings, this`repr, repr
    {
      && rings.Keys == fs.inodes.Keys
      && (forall x {:trigger Inside(x, rings[x])} | x in rings :: Inside(x, rings[x]))
      && (forall x {:trigger Mirrored(x, rings[x], fs.inodes[x])} | x in rings && x != d ::
            Inside(x, rings[x]) && Mirrored(x, rings[x], fs.inodes[x]))
    }

    /** The objects are those of fs. */
    ghost predicate Linking()
      reads this, repr
    {
      root == fs.root && nextInode == fs.made % WORD && Others(null)
    }

    ghost predicate Valid()
      reads this, repr
    {
      Linking() && Inv(fs)
    }

    /** `ramfs_create_root`, when its allocations succeed. */
    constructor ()
      ensures Valid() && fs == Fresh(root) && fresh(repr)
    {
      var inode := new Inode(1, Directory);
      var dot, dotdot := MakeDots(inode, inode);
      inode.entries := dot;
      root, nextInode, fs := inode, 2, Fresh(inode);
      rings, repr := map[inode := [dot, dotdot]], {inode, dot, dotdot};
      new;
      FreshKeepsInv(inode);
      assert Mirrored(inode, [dot, dotdot], fs.inodes[inode]);
      assert Inside(inode, rings[inode]);
    }

    method Create(dir: Inode, name: string, kind: Kind, outcome: Outcome) returns (ok: bool, result: Inode)
      requires Linking() && dir in fs.inodes
      modifies this, dir, rings[dir]
      ensures Linking() && fresh(repr - old(repr))
      ensures (fs, ok) == RamFsTree.Create(old(fs), dir, name, kind, outcome, result)
      ensures fresh(result) || fs == old(fs)
      ensures ok ==> fresh(result)
      ensures old(Valid()) && !IsDot(name) ==> Valid()
    {
      ok, result := false, dir;
      var vacant := IsVacant(dir, name);
      if !vacant || outcome == NoInode {
        return;
      }
      result := new Inode(nextInode, kind);
      assert result !in fs.inodes;
      if !IsDot(name) { CreateStays(fs, dir, name, kind, outcome, result); }
      if outcome == NoEntry {
        NextNumber();
        return;
      }
      AddEntry(dir, name, result);
      ok := true;
    }

    /** A directory without an entry of that name. */
    method IsVacant(dir: Inode, name: string) returns (vacant: bool)
      requires Linking() && dir in fs.inodes
      ensures vacant <==> IsDir(fs, dir) && Find(fs.inodes[dir].ring, name) == |fs.inodes[dir].ring|
      ensures vacant ==> dir.kind == Directory
    {
      assert Inside(dir, rings[dir]) && Mirrored(dir, rings[dir], fs.inodes[dir]);
      if dir.kind != Directory {
        return false;
      }
      var found := FindEntry(dir, name, rings[dir], fs.inodes[dir]);
      vacant := found == null;
    }

    method NextNumber()
      requires Linking()
      modifies this`nextInode, this`fs
      ensures Linking() && fs == old(fs).(made := old(fs).made + 1)
    {
      NextWord(fs.made);
      nextInode := (nextInode + 1) % WORD;
      fs := fs.(made := fs.made + 1);
      forall x | x in rings ensures Inside(x, rings[x]) && Mirrored(x, rings[x], fs.inodes[x]) {
        assert old(Inside(x, rings[x])) && old(Mirrored(x, rings[x], fs.inodes[x]));
      }
    }

    /** Changes confined to dir and its entries leave the other rings alone. */
    twostate lemma OthersKept(dir: Inode)
      requires old(Others(null)) && dir in rings && unchanged(this)
      requires forall x | x in rings && x != dir :: unchanged(x)
      requires forall e: DirEntry | old(e in repr) && e !in rings[dir] :: unchanged(e)
      ensures Others(dir)
    {
      assert old(Mirrored(dir, rings[dir], fs.inodes[dir]));
      AtHome(dir, rings[dir], fs.inodes[dir]);
      forall x | x in rings && x != dir ensures Mirrored(x, rings[x], fs.inodes[x]) {
        assert old(Inside(x, rings[x])) && old(Mirrored(x, rings[x], fs.inodes[x]));
        AtHome(x, rings[x], fs.inodes[x]);
        forall i | 0 <= i < |rings[x]| ensures Linked(rings[x], i) {
          assert rings[x][i] in rings[x] && old(Linked(rings[x], i));
        }
      }
    }

    method InsertInto(dir: Inode, e: DirEntry)
      requires Others(null) && dir in rings && e !in repr
      modifies dir, rings[dir], e
      ensures IsRing(dir, rings[dir] + [e]) && Others(dir)
    {
      assert Inside(dir, rings[dir]) && Mirrored(dir, rings[dir], fs.inodes[dir]);
      Insert(dir, e, rings[dir]);
      OthersKept(dir);
    }

    method RemoveFrom(dir: Inode, e: DirEntry, ghost k: nat)
      requires Others(null) && dir in rings && k < |rings[dir]| && rings[dir][k] == e
      modifies dir, rings[dir]
      ensures IsRing(dir, Without(rings[dir], k)) && Others(dir)
    {
      assert Inside(dir, rings[dir]) && Mirrored(dir, rings[dir], fs.inodes[dir]);
      Remove(dir, e, rings[dir], k);
      OthersKept(dir);
    }

    /** Adds an entry for the new inode. */
    method AddEntry(dir: Inode, name: string, inode: Inode)
      requires Linking() && dir in fs.inodes && dir.kind == Directory && Find(fs.inodes[dir].ring, name) == |fs.inodes[dir].ring|
      requires inode !in repr && inode.num == nextInode && inode.entries == null
      modifies this, dir, rings[dir]
      ensures Linking() && fresh(repr - old(repr) - {inode})
      ensures fs == RamFsTree.Create(old(fs), dir, name, inode.kind, Created, inode).0
    {
      assert Inside(dir, rings[dir]) && Mirrored(dir, rings[dir], fs.inodes[dir]);
      NextWord(fs.made);
      var e := new DirEntry(name, inode, dir);
      nextInode := (nextInode + 1) % WORD;
      InsertInto(dir, e);
      GrowModel(dir, name, inode, e);
    }

    ghost method GrowModel(dir: Inode, name: string, inode: Inode, e: DirEntry)
      requires Others(dir) && dir in fs.inodes && IsRing(dir, rings[dir] + [e]) && Tied(dir, rings[dir], fs.inodes[dir])
      requires e !in repr && Holds(dir, e, Entry(name, inode))
      requires dir.kind == Directory && Find(fs.inodes[dir].ring, name) == |fs.inodes[dir].ring|
      requires inode !in repr && inode.num == fs.made % WORD && inode.entries == null
      modifies this`fs, this`rings, this`repr
      ensures Others(null) && repr == old(repr) + {inode, e}
      ensures fs == RamFsTree.Create(old(fs), dir, name, inode.kind, Created, inode).0
    {
      ghost var es := rings[dir];
      fs := RamFsTree.Create(fs, dir, name, inode.kind, Created, inode).0;
      rings := rings[dir := es + [e]][inode := []];
      repr := repr + {inode, e};
      forall x | x in rings ensures Inside(x, rings[x]) && Mirrored(x, rings[x], fs.inodes[x]) {
        assert x in old(rings) ==> old(Inside(x, rings[x])) && (x == dir || old(Mirrored(x, rings[x], fs.inodes[x])));
        if x == dir { TiedGrows(dir, es, old(fs.inodes[dir]), e, Entry(name, inode)); }
      }
    }

    /** The dot entries are allocated together; if one is missing, the call fails and the
        directory stays without them. */
    method Mkdir(dir: Inode, name: string, outcome: Outcome, dots: bool) returns (ok: bool, ghost made: Inode)
      requires Linking() && dir in fs.inodes
      modifies this, dir, rings[dir]
      ensures Linking() && fresh(repr - old(repr))
      ensures (fs, ok) == RamFsTree.Mkdir(old(fs), dir, name, outcome, dots, made)
      ensures fresh(made) || fs == old(fs)
      ensures old(Valid()) && !IsDot(name) ==> Valid()
    {
      var created, result := Create(dir, name, Directory, outcome);
      made := result;
      if old(Valid()) && fs != old(fs) {
        assert made !in old(fs).inodes;
        MkdirExact(old(fs), dir, name, outcome, dots, made);
      }
      if !created || !dots {
        return false, made;
      }
      FillDots(result, dir);
      ok := true;
    }

    method FillDots(dir: Inode, parent: Inode)
      requires Linking() && dir in fs.inodes && fs.inodes[dir].ring == []
      modifies this`fs, this`rings, this`repr, dir
      ensures Linking() && fresh(repr - old(repr)) && fs == AddDots(old(fs), dir, parent)
    {
      assert Inside(dir, rings[dir]) && Mirrored(dir, rings[dir], fs.inodes[dir]);
      var dot, dotdot := MakeDots(dir, parent);
      dir.entries := dot;
      OthersKept(dir);
      FillModel(dir, parent, dot, dotdot);
    }

    ghost method FillModel(dir: Inode, parent: Inode, dot: DirEntry, dotdot: DirEntry)
      requires Others(dir) && dir in fs.inodes && IsRing(dir, [dot, dotdot])
      requires Tied(dir, [dot, dotdot], AddDots(fs, dir, parent).inodes[dir])
      modifies this`fs, this`rings, this`repr
      ensures Others(null) && repr == old(repr) + {dot, dotdot} && fs == AddDots(old(fs), dir, parent)
    {
      fs := AddDots(fs, dir, parent);
      rings := rings[dir := [dot, dotdot]];
      repr := repr + {dot, dotdot};
      forall x | x in rings ensures Inside(x, rings[x]) && Mirrored(x, rings[x], fs.inodes[x]) {
        assert old(Inside(x, rings[x])) && (x == dir || old(Mirrored(x, rings[x], fs.inodes[x])));
      }
    }

    /** The entry leaves the ring; the entry and its inode are given back. */
    method Drop(dir: Inode, e: DirEntry, ghost k: nat)
      requires Linking() && dir in fs.inodes && k < |rings[dir]| && rings[dir][k] == e && e.inode in fs.inodes
      modifies this`fs, this`rings, dir, rings[dir]
      ensures Linking() && k < |old(fs).inodes[dir].ring| && fs == RemoveEntry(old(fs), dir, k)
    {
      ghost var es, node := rings[dir], fs.inodes[dir];
      assert Inside(dir, es) && Mirrored(dir, es, node);
      assert Holds(dir, es[k], node.ring[k]);
      RemoveFrom(dir, e, k);
      ShrinkModel(dir, k);
    }

    ghost method ShrinkModel(dir: Inode, k: nat)
      requires Others(dir) && dir in fs.inodes && k < |rings[dir]|
      requires IsRing(dir, Without(rings[dir], k)) && Tied(dir, rings[dir], fs.inodes[dir])
      modifies this`fs, this`rings
      ensures Others(null) && k < |old(fs).inodes[dir].ring| && fs == RemoveEntry(old(fs), dir, k)
    {
      var es, x := rings[dir], fs.inodes[dir].ring[k].target;
      TiedShrinks(dir, es, fs.inodes[dir], k);
      fs := RemoveEntry(fs, dir, k);
      rings := rings[dir := Without(es, k)] - {x};
      forall y | y in rings ensures Inside(y, rings[y]) && Mirrored(y, rings[y], fs.inodes[y]) {
        assert old(Inside(y, rings[y])) && (y == dir || old(Mirrored(y, rings[y], fs.inodes[y])));
      }
    }

    method Rmdir(dir: Inode, name: string) returns (ok: bool)
      requires Valid() && dir in fs.inodes
      modifies this`fs, this`rings, dir, rings[dir]
      ensures Linking() && (fs, ok) == RamFsTree.Rmdir(old(fs), dir, name)
      ensures Valid() <==> !RemovesItself(old(fs), dir, name)
    {
      RmdirExact(fs, dir, name);
      assert Inside(dir, rings[dir]) && Mirrored(dir, rings[dir], fs.inodes[dir]);
      if dir.kind != Directory {
        return false;
      }
      var e := FindEntry(dir, name, rings[dir], fs.inodes[dir]);
      if e == null {
        return false;
      }
      ghost var k := Find(fs.inodes[dir].ring, name);
      TargetLives(fs, dir, k);
      assert Holds(dir, rings[dir][k], fs.inodes[dir].ring[k]);
      var empty := IsEmptyDirectory(e.inode);
      if !empty {
        return false;
      }
      Drop(dir, e, k);
      ok := true;
    }

    /** A directory, and its first entry, if any, has at most one other entry beside it and
        is called ".". */
    method IsEmptyDirectory(x: Inode) returns (empty: bool)
      requires Linking() && x in fs.inodes
      ensures empty <==> IsDir(fs, x) && LooksEmpty(fs.inodes[x].ring)
    {
      ghost var es := rings[x];
      assert Inside(x, es) && Mirrored(x, es, fs.inodes[x]);
      if x.kind != Directory {
        return false;
      }
      var sub := x.entries;
      if sub != null {
        assert Linked(es, 0) && Holds(x, es[0], fs.inodes[x].ring[0]);
        if sub.next != sub.prev || sub.name != "." {
          return false;
        }
      }
      empty := true;
    }

    method Unlink(dir: Inode, name: string) returns (ok: bool)
      requires Valid() && dir in fs.inodes
      modifies this`fs, this`rings, dir, rings[dir]
      ensures Valid() && (fs, ok) == RamFsTree.Unlink(old(fs), dir, name)
    {
      UnlinkKeepsInv(fs, dir, name);
      assert Inside(dir, rings[dir]) && Mirrored(dir, rings[dir], fs.inodes[dir]);
      if dir.kind != Directory {
        return false;
      }
      var e := FindEntry(dir, name, rings[dir], fs.inodes[dir]);
      if e == null {
        return false;
      }
      ghost var k := Find(fs.inodes[dir].ring, name);
      TargetLives(fs, dir, k);
      assert Holds(dir, rings[dir][k], fs.inodes[dir].ring[k]);
      assert Mirrored(e.inode, rings[e.inode], fs.inodes[e.inode]);
      if e.inode.kind != Regular {
        return false;
      }
      Drop(dir, e, k);
      ok := true;
    }

    /** `ramfs_readdir`: walks the ring to the entry in which the offset falls. */
    method Readdir(dir: Inode, buf: array<char>, count: nat, offset: nat) returns (r: int)
      requires Linking() && dir in fs.inodes && count <= buf.Length
      modifies buf
      ensures dir.kind != Directory ==> r == -1 && buf[..] == old(buf[..])
      ensures dir.kind == Directory ==>
                var c := Chunk(NamesIn(fs.inodes[dir].ring), count, offset);
                r == |c| <= count && buf[..r] == c && buf[r..] == old(buf[r..])
    {
      ghost var es, node := rings[dir], fs.inodes[dir];
      ghost var names := NamesIn(node.ring);
      assert Inside(dir, es) && Mirrored(dir, es, node);
      ChunkIsStream(names, count, offset);
      if dir.kind != Directory {
        return -1;
      }
      var e, skip, i := Locate(dir, offset, es, node);
      if e == null {
        return 0;
      }
      WalkStep(names, i, count, offset);
      r := CopyPart(buf, e.name, skip, count);
    }
  }

  /** The walk of ramfs_readdir: the entry in whose record the offset falls, and how far into
      it; NULL past the end of the stream. */
  method Locate(dir: Inode, offset: nat, ghost es: seq<DirEntry>, ghost node: Node<Inode>)
    returns (e: DirEntry?, skip: nat, ghost i: nat)
    requires IsRing(dir, es) && Tied(dir, es, node)
    ensures var names := NamesIn(node.ring);
            if e == null then |Stream(names)| <= offset
            else i < |names| && e.name == names[i] && |Stream(names[..i])| + skip == offset && skip < |Record(names[i])|
  {
    ghost var names := NamesIn(node.ring);
    e, skip, i := dir.entries, offset, 0;
    if e == null {
      return;
    }
    var current := 0;
    while true
      invariant 0 <= i < |es| && e == es[i]
      invariant current == |Stream(names[..i])| <= offset
      decreases |es| - i
    {
      assert Linked(es, i) && Holds(dir, es[i], node.ring[i]);
      WalkStep(names, i, 0, offset);
      var entrySize := |e.name| + 1;
      if current + entrySize > offset {
        skip := offset - current;
        return;
      }
      current := current + entrySize;
      e := e.next;
      i := i + 1;
      if e == dir.entries {
        assert i == |es| && names[..i] == names;
        e := null;
        return;
      }
    }
  }

  /** Copies the record of a name from `skip` on, at most count characters. */
  method CopyPart(buf: array<char>, name: string, skip: nat, count: nat) returns (n: nat)
    requires skip < |Record(name)| && count <= buf.Length
    modifies buf
    ensures n == Min(count, |Record(name)| - skip)
    ensures buf[..n] == Record(name)[skip..skip + n] && buf[n..] == old(buf[n..])
  {
    n := |name| + 1 - skip;
    if n > count {
      n := count;
    }
    var text := Record(name)[skip..skip + n];
    forall j | 0 <= j < n { buf[j] := text[j]; }
  }

  function NamesIn<T>(ring: seq<Entry<T>>): (names: seq<string>)
    ensures |names| == |ring| && forall i | 0 <= i < |ring| :: names[i] == ring[i].name
  {
    seq(|ring|, i requires 0 <= i < |ring| => ring[i].name)
  }

  lemma CreateStays<T>(fs: Fs<T>, d: T, name: string, kind: Kind, outcome: Outcome, id: T)
    requires id !in fs.inodes && !IsDot(name)
    ensures Inv(fs) ==> Inv(RamFsTree.Create(fs, d, name, kind, outcome, id).0)
  {
    if Inv(fs) { CreateExact(fs, d, name, kind, outcome, id); }
  }

  /** Every entry leads to an inode that is still there. */
  lemma TargetLives<T>(fs: Fs<T>, d: T, k: nat)
    requires Inv(fs) && d in fs.inodes && k < |fs.inodes[d].ring|
    ensures fs.inodes[d].ring[k].target in fs.inodes
  {
    assert NodeOk(fs.inodes, fs.parent, d) && ChildOk(fs.inodes, fs.parent, fs.root, d);
  }

  lemma TiedShrinks(x: Inode, es: seq<DirEntry>, node: Node<Inode>, k: nat)
    requires Tied(x, es, node) && k < |es|
    ensures Tied(x, Without(es, k), node.(ring := Without(node.ring, k)))
  {
    var es', ring' := Without(es, k), Without(node.ring, k);
    forall i | 0 <= i < |es'| ensures Holds(x, es'[i], ring'[i]) {
      assert Holds(x, es[if i < k then i else i + 1], node.ring[if i < k then i else i + 1]);
    }
  }

  lemma TiedGrows(x: Inode, es: seq<DirEntry>, node: Node<Inode>, e: DirEntry, entry: Entry<Inode>)
    requires Tied(x, es, node) && Holds(x, e, entry) && e !in es
    ensures Tied(x, es + [e], node.(ring := node.ring + [entry]))
  {
    var es', ring' := es + [e], node.ring + [entry];
    forall i | 0 <= i < |es'| ensures Holds(x, es'[i], ring'[i]) {
      assert i < |es| ==> Holds(x, es[i], node.ring[i]);
    }
  }

  /** The entries "." and "..", linked to each other. */
  method MakeDots(dir: Inode, parent: Inode) returns (dot: DirEntry, dotdot: DirEntry)
    ensures fresh(dot) && fresh(dotdot) && dot != dotdot
    ensures Holds(dir, dot, Entry(DOT, dir)) && Holds(dir, dotdot, Entry(DOTDOT, parent))
    ensures forall i {:trigger Linked([dot, dotdot], i)} | 0 <= i < 2 :: Linked([dot, dotdot], i)
  {
    dot := new DirEntry(".", dir, dir);
    dotdot := new DirEntry("..", parent, dir);
    dot.next, dot.prev, dotdot.next, dotdot.prev := dotdot, dotdot, dot, dot;
  }
}
