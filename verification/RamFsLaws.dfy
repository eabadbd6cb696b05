/** What each RamFS call does to the directories and inodes, outright. */
module RamFsLaws {
  import opened Machine
  import opened RamFsTree
  import opened RamFsRuns
  import opened Rings

  /** d is a directory without an entry of that name. */
  predicate Vacant<T>(fs: Fs<T>, d: T, name: string) {
    && d in fs.inodes && fs.inodes[d].kind == Directory
    && forall i | 0 <= i < |fs.inodes[d].ring| :: fs.inodes[d].ring[i].name != name
  }

  lemma VacantIs<T>(fs: Fs<T>, d: T, name: string)
    ensures Vacant(fs, d, name) <==> IsDir(fs, d) && Find(fs.inodes[d].ring, name) == |fs.inodes[d].ring|
  {
    if IsDir(fs, d) { FindIsFirst(fs.inodes[d].ring, name); }
  }

  /** ramfs_create makes an inode of the kind asked for, with the next number and no entries, and
      enters it at the end of the directory; it does so exactly if the name is vacant and both
      allocations succeed. A number is used up once the inode exists. Nothing else changes. */
  lemma CreateOutright<T>(fs: Fs<T>, d: T, name: string, kind: Kind, outcome: Outcome, id: T)
    requires Inv(fs) && id !in fs.inodes
    ensures var (fs', ok) := Create(fs, d, name, kind, outcome, id); var vacant := Vacant(fs, d, name);
            && (ok <==> vacant && outcome == Created)
            && fs'.made == fs.made + (if vacant && outcome != NoInode then 1 else 0)
            && if ok then
                 fs'.inodes == fs.inodes[d := Node(fs.inodes[d].rank, Directory, fs.inodes[d].ring + [Entry(name, id)])]
                                        [id := Node(fs.made, kind, [])]
               else
                 fs'.inodes == fs.inodes
  {
    VacantIs(fs, d, name);
  }

  /** ramfs_mkdir does the same with a directory, and gives it "." and ".." in this order; when
      only those cannot be allocated, it fails and the directory stays without them. */
  lemma MkdirOutright<T>(fs: Fs<T>, d: T, name: string, outcome: Outcome, dots: bool, id: T)
    requires Inv(fs) && id !in fs.inodes
    ensures var (fs', ok) := Mkdir(fs, d, name, outcome, dots, id);
            && (ok <==> Vacant(fs, d, name) && outcome == Created && dots)
            && if Vacant(fs, d, name) && outcome == Created then
                 fs'.inodes == fs.inodes[d := Node(fs.inodes[d].rank, Directory, fs.inodes[d].ring + [Entry(name, id)])]
                                        [id := Node(fs.made, Directory, if dots then [Entry(".", id), Entry("..", d)] else [])]
               else
                 fs'.inodes == fs.inodes
  {
    VacantIs(fs, d, name);
  }

  /** fs' is fs without the k-th entry of d and without the inode it leads to. */
  predicate Removes<T(==)>(fs: Fs<T>, fs': Fs<T>, d: T, name: string, k: nat) {
    && IsDir(fs, d) && k < |fs.inodes[d].ring| && fs.inodes[d].ring[k].name == name
    && var ring := fs.inodes[d].ring;
       && fs'.inodes == fs.inodes[d := Node(fs.inodes[d].rank, Directory, ring[..k] + ring[k + 1..])] - {ring[k].target}
       && fs'.made == fs.made && fs'.root == fs.root
  }

  /** ramfs_rmdir and ramfs_unlink take one entry of the name out, leaving the others in order,
      and its inode; a call that fails changes nothing. */
  lemma RmdirOutright<T>(fs: Fs<T>, d: T, name: string) returns (k: nat)
    requires Inv(fs)
    ensures var (fs', ok) := Rmdir(fs, d, name); if ok then Removes(fs, fs', d, name, k) else fs' == fs
  {
    k := if IsDir(fs, d) then Find(fs.inodes[d].ring, name) else 0;
  }

  lemma UnlinkOutright<T>(fs: Fs<T>, d: T, name: string) returns (k: nat)
    requires Inv(fs)
    ensures var (fs', ok) := Unlink(fs, d, name); if ok then Removes(fs, fs', d, name, k) else fs' == fs
  {
    k := if IsDir(fs, d) then Find(fs.inodes[d].ring, name) else 0;
  }

  /** After ramfs_create_root there is the root alone, with both dot entries to itself. */
  lemma FreshOutright<T>(root: T)
    ensures var fs := Fresh(root);
            && fs.root == root && fs.made == 2
            && fs.inodes == map[root := Node(1, Directory, [Entry(".", root), Entry("..", root)])]
  {}

  /** The inodes a call does not remove and whose directory it was not given stay as they are. */
  lemma OthersStay<T>(fs: Fs<T>, op: Op<T>, x: T)
    requires Inv(fs) && FreshId(fs, op) && x in fs.inodes && x in Exec(fs, op).inodes
    ensures var a, b := fs.inodes[x], Exec(fs, op).inodes[x];
            b.rank == a.rank && b.kind == a.kind && (x != op.dir ==> b == a)
  {
    match op
    case CreateOp(d, name, kind, outcome, id) => CreateOutright(fs, d, name, kind, outcome, id);
    case MkdirOp(d, name, outcome, dots, id) => CreateOutright(fs, d, name, Directory, outcome, id);
    case RmdirOp(d, name) =>
    case UnlinkOp(d, name) =>
  }
}
