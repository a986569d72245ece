/** From the directory tree to the list of nodes that are written, in order. */
module EfsPlan {
  import opened Bytes
  import opened EfsTree
  import opened EfsOrder
  import EfsDir
  import EfsDirPack
  import opened EfsGeometry
  import opened EfsInode
  import opened EfsImage

  function DirOrder(t: Tree): seq<Path> { SortPaths(t.dirOrder) }

  function FileOrder(t: Tree): seq<Path> { SortPaths(t.fileOrder) }

  /** Directories first, then files, each in path order: the order of inode numbers and of allocation. */
  function Order(t: Tree): seq<Path> { DirOrder(t) + FileOrder(t) }

  // ------------------------------------------------------------ inode numbers

  /** No component is empty, as in a normalised path. */
  predicate Normal(p: Path) { forall i :: 0 <= i < |p| ==> p[i] != "" }

  ghost predicate NormalPaths(t: Tree) {
    (forall p :: p in t.dirs ==> Normal(p)) && (forall p :: p in t.files ==> Normal(p))
  }

  /** Before numbering, only the root has an inode number. */
  ghost predicate Unnumbered(t: Tree) {
    forall p :: p in t.dirs ==> t.dirs[p].inode == if p == [] then ROOT_INODE else 0
  }

  /** The tree but for inode numbers. */
  ghost predicate SameButNumbers(t: Tree, r: Tree) {
    && r.dirOrder == t.dirOrder && r.fileOrder == t.fileOrder
    && r.dirs.Keys == t.dirs.Keys && r.files.Keys == t.files.Keys
    && (forall p :: p in t.dirs ==>
          r.dirs[p] == t.dirs[p].(inode := r.dirs[p].inode, parentInode := r.dirs[p].parentInode))
    && (forall p :: p in t.files ==>
          r.files[p] == t.files[p].(inode := r.files[p].inode, parentInode := r.files[p].parentInode))
  }

  /** `ino` is the number of the directory `p` by its place in `ds`. */
  ghost predicate IsNumberOf(ds: seq<Path>, p: Path, ino: nat) {
    exists k :: 0 <= k < |ds| && ds[k] == p && ino == ROOT_INODE + k
  }

  /** The first `n` directories in order are numbered from 2 on, and know their parents' numbers. */
  ghost predicate DirsNumbered(t: Tree, ds: seq<Path>, n: nat)
    requires n <= |ds|
  {
    forall i :: 0 <= i < n ==>
      && ds[i] in t.dirs && t.dirs[ds[i]].inode == ROOT_INODE + i
      && IsNumberOf(ds, Parent(ds[i]), t.dirs[ds[i]].parentInode)
  }

  /** So are the first `n` files, from `base` on. */
  ghost predicate FilesNumbered(t: Tree, ds: seq<Path>, fs: seq<Path>, base: nat, n: nat)
    requires n <= |fs|
  {
    forall i :: 0 <= i < n ==>
      && fs[i] in t.files && t.files[fs[i]].inode == base + i
      && IsNumberOf(ds, Parent(fs[i]), t.files[fs[i]].parentInode)
  }

  /** The node at place k of the order has inode number k + 2. */
  ghost predicate Numbered(t: Tree) {
    var ds, fs := DirOrder(t), FileOrder(t);
    DirsNumbered(t, ds, |ds|) && FilesNumbered(t, ds, fs, ROOT_INODE + |ds|, |fs|)
  }

  ghost predicate Ready(t: Tree) { KeysOk(t) && Numbered(t) }

  // ------------------------------------------------------------------- nodes

  function ChildEntry(t: Tree, c: Path): seq<EfsDir.Dirent> {
    if c in t.dirs then [EfsDir.Dirent(t.dirs[c].inode, t.dirs[c].name)]
    else if c in t.files then [EfsDir.Dirent(t.files[c].inode, t.files[c].name)]
    else []
  }

  function ChildEntries(t: Tree, cs: seq<Path>): seq<EfsDir.Dirent> {
    if cs == [] then [] else ChildEntries(t, cs[..|cs| - 1]) + ChildEntry(t, cs[|cs| - 1])
  }

  /** '.', '..' and the sorted children. */
  function DirEntries(t: Tree, d: DirEntry): seq<EfsDir.Dirent> {
    [EfsDir.Dirent(d.inode, "."), EfsDir.Dirent(d.parentInode, "..")] + ChildEntries(t, SortPaths(d.entries))
  }

  /** How many of `order` have `p` for parent; the root, its own parent, counts itself. */
  function CountChildren(order: seq<Path>, p: Path): nat {
    if order == [] then 0
    else CountChildren(order[..|order| - 1], p) + if Parent(order[|order| - 1]) == p then 1 else 0
  }

  lemma NoChildren()
    ensures forall p :: CountChildren([], p) == 0
  {}

  lemma ChildrenStep(order: seq<Path>, i: nat)
    requires i < |order|
    ensures forall p :: CountChildren(order[..i + 1], p)
                     == CountChildren(order[..i], p) + if Parent(order[i]) == p then 1 else 0
  {
    hide Parent;
    assert order[..i + 1][..i] == order[..i];
  }

  function DirInode(d: DirEntry, subdirs: nat): Inode {
    Inode(d.mode, 2 + subdirs, d.uid, d.gid, 0, d.mtime, d.mtime, d.mtime, 1, 0, 0, 0, [])
  }

  function FileInode(f: FileEntry): Inode {
    Inode(f.mode, 1, f.uid, f.gid, f.size, f.mtime, f.mtime, f.mtime, 1, 0, 0, 0, [])
  }

  function IsLink(f: FileEntry): bool { FileType(f.mode) == S_IFLNK }

  /** What is written for a file: a link's target, or the data. */
  function FileData(f: FileEntry): seq<byte> {
    if IsLink(f) then EfsDir.Encode(f.linkTarget) else f.data
  }

  function DirNode(t: Tree, p: Path): Node
    requires p in t.dirs
  {
    var d := t.dirs[p];
    var r := EfsDirPack.Pack(DirEntries(t, d));
    var data := if r.Data? then r.bytes else [];
    Node(DirInode(d, CountChildren(t.dirOrder, p)), |data|, data)
  }

  function FileNode(t: Tree, p: Path): Node
    requires p in t.files
  {
    var f := t.files[p];
    Node(FileInode(f), if IsLink(f) then |FileData(f)| else f.size, FileData(f))
  }

  function NodeOf(t: Tree, i: nat): Node
    requires i < |Order(t)|
  {
    var p := Order(t)[i];
    if i < |DirOrder(t)| && p in t.dirs then DirNode(t, p)
    else if p in t.files then FileNode(t, p)
    else Node(FileInode(FileEntry("", 0, 0, 0, 0, 0, [], "", 0, 0)), 0, [])
  }

  function Nodes(t: Tree): (ns: seq<Node>)
    ensures |ns| == |Order(t)|
  {
    seq(|Order(t)|, i requires 0 <= i < |Order(t)| => NodeOf(t, i))
  }

  // ------------------------------------------------------------ about the order

  /** The order lists every directory, then every file, once each. */
  lemma OrderLists(t: Tree)
    requires KeysOk(t)
    ensures Lists(DirOrder(t), t.dirs) && Lists(FileOrder(t), t.files) && NoDup(Order(t))
    ensures |DirOrder(t)| == |t.dirOrder| && |FileOrder(t)| == |t.fileOrder|
  {
    SortPathsSorts(t.dirOrder);
    SortPathsSorts(t.fileOrder);
    NoDupPermutation(t.dirOrder, DirOrder(t));
    NoDupPermutation(t.fileOrder, FileOrder(t));
    hide DirOrder, FileOrder;
    NoDupJoin(DirOrder(t), FileOrder(t));
  }

  lemma NoDupJoin(a: seq<Path>, b: seq<Path>)
    requires NoDup(a) && NoDup(b) && forall p :: p in a ==> p !in b
    ensures NoDup(a + b)
  {
    forall i, j | 0 <= i < j < |a + b|
      ensures (a + b)[i] != (a + b)[j]
    {
      if i < |a| <= j { assert a[i] in a && b[j - |a|] in b; }
    }
  }

  lemma DirAt(t: Tree, i: nat)
    requires Ready(t) && i < |DirOrder(t)|
    ensures var p := DirOrder(t)[i];
            p in t.dirs && t.dirs[p].inode == FIRST_INODE + i && Nodes(t)[i] == DirNode(t, p)
  {
    hide DirOrder, FileOrder, IsNumberOf, DirNode, FilesNumbered, KeysOk;
  }

  lemma FileAt(t: Tree, i: nat)
    requires Ready(t) && i < |FileOrder(t)|
    ensures var p, n := FileOrder(t)[i], |DirOrder(t)| + i;
            p in t.files && t.files[p].inode == FIRST_INODE + n && Nodes(t)[n] == FileNode(t, p)
  {
    hide DirOrder, FileOrder, IsNumberOf, FileNode, DirsNumbered, KeysOk;
  }

  lemma DirByPath(t: Tree, p: Path) returns (i: nat)
    requires Ready(t) && p in t.dirs
    ensures i < |DirOrder(t)| && DirOrder(t)[i] == p
    ensures t.dirs[p].inode == FIRST_INODE + i && Nodes(t)[i] == DirNode(t, p)
  {
    OrderLists(t);
    hide DirNode, Ready, DirOrder, FileOrder;
    assert p in DirOrder(t);
    i :| 0 <= i < |DirOrder(t)| && DirOrder(t)[i] == p;
    DirAt(t, i);
  }

  lemma FileByPath(t: Tree, p: Path) returns (i: nat)
    requires Ready(t) && p in t.files
    ensures i < |FileOrder(t)| && FileOrder(t)[i] == p
    ensures var n := |DirOrder(t)| + i; t.files[p].inode == FIRST_INODE + n && Nodes(t)[n] == FileNode(t, p)
  {
    OrderLists(t);
    hide FileNode, Ready, DirOrder, FileOrder;
    assert p in FileOrder(t);
    i :| 0 <= i < |FileOrder(t)| && FileOrder(t)[i] == p;
    FileAt(t, i);
  }

  /** `inodes` is right as far as it goes. */
  ghost predicate InodesSoFar(ns: seq<Node>, inodes: Inodes) {
    forall k :: k in inodes ==> FIRST_INODE <= k < FIRST_INODE + |ns| && inodes[k] == ns[k - FIRST_INODE].inode
  }

  lemma Listed(t: Tree)
    requires Ready(t)
    ensures forall i :: 0 <= i < |t.dirOrder| ==> t.dirOrder[i] in t.dirs
    ensures forall i :: 0 <= i < |t.fileOrder| ==> t.fileOrder[i] in t.files
    ensures forall p :: p in t.dirs ==> p in t.dirOrder
    ensures forall p :: p in t.files ==> p in t.fileOrder
  {
    hide Numbered, NoDup;
  }

  lemma DirInodeRight(t: Tree, i: nat)
    requires Ready(t) && i < |t.dirOrder|
    ensures var p := t.dirOrder[i];
            && p in t.dirs && var k := t.dirs[p].inode;
            && FIRST_INODE <= k < FIRST_INODE + |Nodes(t)|
            && DirInode(t.dirs[p], CountChildren(t.dirOrder, p)) == Nodes(t)[k - FIRST_INODE].inode
  {
    hide Ready, DirOrder, FileOrder;
    Listed(t);
    var n := DirByPath(t, t.dirOrder[i]);
  }

  lemma FileInodeRight(t: Tree, i: nat)
    requires Ready(t) && i < |t.fileOrder|
    ensures var p := t.fileOrder[i];
            && p in t.files && var k := t.files[p].inode;
            && FIRST_INODE <= k < FIRST_INODE + |Nodes(t)|
            && FileInode(t.files[p]) == Nodes(t)[k - FIRST_INODE].inode
  {
    hide Ready, DirOrder, FileOrder;
    Listed(t);
    var n := FileByPath(t, t.fileOrder[i]);
  }

  lemma DirInodeMade(t: Tree, inodes: Inodes, i: nat)
    requires Ready(t) && i < |DirOrder(t)|
    requires forall j :: 0 <= j < |t.dirOrder| ==> t.dirOrder[j] in t.dirs && t.dirs[t.dirOrder[j]].inode in inodes
    ensures FIRST_INODE + i in inodes
  {
    hide Ready, DirOrder, FileOrder, DirNode, Nodes;
    DirAt(t, i);
    Listed(t);
    var p := DirOrder(t)[i];
    var j :| 0 <= j < |t.dirOrder| && t.dirOrder[j] == p;
  }

  lemma FileInodeMade(t: Tree, inodes: Inodes, i: nat)
    requires Ready(t) && i < |FileOrder(t)|
    requires forall j :: 0 <= j < |t.fileOrder| ==> t.fileOrder[j] in t.files && t.files[t.fileOrder[j]].inode in inodes
    ensures FIRST_INODE + |DirOrder(t)| + i in inodes
  {
    hide Ready, DirOrder, FileOrder, FileNode, Nodes;
    FileAt(t, i);
    Listed(t);
    var p := FileOrder(t)[i];
    var j :| 0 <= j < |t.fileOrder| && t.fileOrder[j] == p;
  }

  /** Every node has its inode once all directories and files are entered. */
  lemma AllInodesMade(t: Tree, inodes: Inodes, g: Geometry)
    requires Ready(t) && InodesSoFar(Nodes(t), inodes) && g.cgSize > 0
    requires forall j :: 0 <= j < |t.dirOrder| ==> t.dirOrder[j] in t.dirs && t.dirs[t.dirOrder[j]].inode in inodes
    requires forall j :: 0 <= j < |t.fileOrder| ==> t.fileOrder[j] in t.files && t.files[t.fileOrder[j]].inode in inodes
    ensures inodes == InodesAt(g, Nodes(t), 0)
  {
    hide Ready, Nodes;
    forall k | FIRST_INODE <= k < FIRST_INODE + |Nodes(t)|
      ensures k in inodes
    {
      hide DirOrder, FileOrder;
      var i := k - FIRST_INODE;
      if i < |DirOrder(t)| { DirInodeMade(t, inodes, i); } else { FileInodeMade(t, inodes, i - |DirOrder(t)|); }
    }
    assert inodes.Keys == InodesAt(g, Nodes(t), 0).Keys;
  }

  /** Every directory's entries can be packed. */
  ghost predicate DirsPack(t: Tree) {
    forall p :: p in t.dirs ==> EfsDirPack.Pack(DirEntries(t, t.dirs[p])).Data?
  }

  lemma AllDirsPack(t: Tree)
    requires Ready(t)
    requires forall j :: 0 <= j < |DirOrder(t)| ==>
               DirOrder(t)[j] in t.dirs && EfsDirPack.Pack(DirEntries(t, t.dirs[DirOrder(t)[j]])).Data?
    ensures DirsPack(t)
  {
    forall p | p in t.dirs
      ensures EfsDirPack.Pack(DirEntries(t, t.dirs[p])).Data?
    {
      hide Ready, DirOrder, DirEntries;
      var i := DirByPath(t, p);
    }
  }

  /** Bytes of file data, as the geometry counts them. */
  function DataBytes(order: seq<Path>, files: map<Path, FileEntry>): nat {
    if order == [] then 0
    else
      var p := order[|order| - 1];
      DataBytes(order[..|order| - 1], files) + if p in files then |files[p].data| else 0
  }

  /** The geometry of a tree's filesystem. */
  function PlanFor(t: Tree, imageBlocks: ImageSize): Geometry {
    GeometryFor(|t.files| + |t.dirs|, DataBytes(t.fileOrder, t.files), imageBlocks)
  }

  /** The image is large enough for the groups to keep their size. */
  predicate Unshrunk(t: Tree, imageBlocks: ImageSize) {
    !Shrinks(|t.files| + |t.dirs|, DataBytes(t.fileOrder, t.files), imageBlocks)
  }

  lemma {:induction false} NoDupCount(s: seq<Path>)
    requires NoDup(s)
    ensures |set p | p in s| == |s|
  {
    if s != [] {
      var init, last := s[..|s| - 1], s[|s| - 1];
      NoDupCount(init);
      assert (set p | p in s) == (set p | p in init) + {last};
    }
  }

  lemma ListsCount<V>(order: seq<Path>, m: map<Path, V>)
    requires Lists(order, m)
    ensures |m| == |order|
  {
    NoDupCount(order);
    assert m.Keys == set p | p in order;
  }

  lemma NumberingKeepsKeys(t: Tree, r: Tree)
    requires KeysOk(t) && SameButNumbers(t, r)
    ensures KeysOk(r)
  {
    assert forall p :: p in r.dirs <==> p in t.dirs;
    assert forall p :: p in r.files <==> p in t.files;
  }

  /** There is an inode slot for every node. */
  lemma PlanFits(t: Tree, imageBlocks: ImageSize)
    requires KeysOk(t)
    ensures Consistent(PlanFor(t, imageBlocks))
    ensures FIRST_INODE + |t.dirOrder| + |t.fileOrder| <= PlanFor(t, imageBlocks).numCgs * 32
  {
    ListsCount(t.dirOrder, t.dirs);
    ListsCount(t.fileOrder, t.files);
    hide KeysOk, GeometryFor;
    GeometryIsConsistent(|t.files| + |t.dirs|, DataBytes(t.fileOrder, t.files), imageBlocks);
  }
}
