/** What a shrunk layout does: inputs on which the builder goes on although there is no room. */
module EfsShrunk {
  import opened Common
  import opened Bytes
  import opened EfsGeometry
  import opened EfsAlloc
  import opened EfsInode
  import opened EfsTree
  import opened EfsOrder
  import EfsDir
  import EfsDirPack
  import EfsSuper
  import opened EfsImage
  import opened EfsPlan
  import opened EfsBuilder
  import opened EfsRead
  import opened EfsReadBack
  import opened EfsCapacity
  import opened EfsEndToEnd

  // ------------------------------------------------------------------ cramped groups

  lemma CrampedGeometry()
    ensures GeometryFor(7201, 0, ImageBlocks(1)) == Geometry(1841, 9, 8, 32, 229, 7)
  {
    assert NumCgs(7201) == 229 && Layout(7201, 0) == 24732;
  }

  lemma FirstAllocation(g: Geometry, pos: int)
    requires g.cgSize > 0 && SkipInodes(g, pos) < g.totalBlocks
    ensures Alloc(g, pos, 1, 0).0 != []
  {
    hide SkipInodes, ExtentLength;
  }

  /** 7201 files and directories on an image of 1 MB leave 8 blocks to a group: all of them are inode blocks, and the
      first block that is handed out is one. */
  lemma CrampedGroups()
    ensures var g := GeometryFor(7201, 0, ImageBlocks(1));
            && g == Geometry(1841, 9, 8, 32, 229, 7)
            && Alloc(g, g.firstCg + INODE_BLOCKS, 1, 0).0 != []
            && !AvoidsInodes(g, Alloc(g, g.firstCg + INODE_BLOCKS, 1, 0).0)
  {
    CrampedGeometry();
    hide GeometryFor, AvoidsInodes, Alloc;
    var g := Geometry(1841, 9, 8, 32, 229, 7);
    assert SkipInodes(g, 17) == 25;
    FirstAllocation(g, 17);
    AllocAvoidsInodesIff(g, 17, 1);
  }

  /** 70,000 leave no block to a group, three million less than none. */
  lemma EmptyGroups()
    ensures GeometryFor(70000, 0, ImageBlocks(1)).cgSize == 0
    ensures GeometryFor(3000000, 0, ImageBlocks(1)).cgSize < 0
  {
    assert NumCgs(70000) == 2191 && Layout(70000, 0) == 236628;
    assert NumCgs(3000000) == 93754 && Layout(3000000, 0) == 10125432;
  }

  // ----------------------------------------------------------------- ten files on 1 MB

  const TEN_BYTES: nat := 104500

  function TenPath(i: nat): Path
    requires i < 10
  {
    ["abcdefghij"[i..i + 1]]
  }

  function TenEntry(i: nat): FileEntry
    requires i < 10
  {
    FileEntry("abcdefghij"[i..i + 1], 0x81A4, 0, 0, TEN_BYTES, 0, Zeros(TEN_BYTES), "", 0, 0)
  }

  /** Ten files of 104,500 bytes in the root directory: 1,045,000 bytes, within the 1,048,576 of the image. */
  function TenFiles(): (adds: seq<Add>)
    ensures |adds| == 10
  {
    seq(10, i requires 0 <= i < 10 => AddF(TenPath(i), TenEntry(i), Meta(0, 0, 0)))
  }

  lemma TenPaths(i: nat, j: nat)
    requires i < 10 && j < 10
    ensures |TenPath(i)| == 1 && |TenPath(i)[0]| == 1 && 'a' <= TenPath(i)[0][0] <= 'j'
    ensures i != j ==> TenPath(i) != TenPath(j)
  {
    assert TenPath(i)[0][0] == "abcdefghij"[i] && TenPath(j)[0][0] == "abcdefghij"[j];
  }

  lemma TenAreGood(i: nat)
    requires i < 10
    ensures GoodAdd(TenFiles()[i]) && FileOk(TenEntry(i)) && FileData(TenEntry(i)) == Zeros(TEN_BYTES)
    ensures !IsLink(TenEntry(i))
  {
    TenPaths(i, i);
    hide Zeros;
    assert FileType(0x81A4) == 0x8000;
  }

  /** The tree after the first `n` adds. */
  ghost predicate TenTree(t: Tree, n: nat)
    requires n <= 10
  {
    && t.dirs.Keys == {[]} && t.dirs[[]].name == "/" && t.dirs[[]].mode == 0x41ED
    && t.dirs[[]].uid == 0 && t.dirs[[]].gid == 0 && t.dirs[[]].mtime == 0
    && |t.dirOrder| == 1 && |t.fileOrder| == n
    && (forall p :: p in t.files ==> exists i :: 0 <= i < n && p == TenPath(i))
    && (forall i :: 0 <= i < n ==> t.fileOrder[i] == TenPath(i) && TenPath(i) in t.files && t.files[TenPath(i)] == TenEntry(i))
  }

  lemma TenthIsNew(t: Tree, n: nat)
    requires n < 10 && TenTree(t, n)
    ensures TenPath(n) !in t.files && TenPath(n) !in t.dirs && |TenPath(n)| == 1 && [] in t.dirs && [] !in t.files
  {
    hide TenEntry, TenPath;
    forall i | 0 <= i < 10 ensures |TenPath(i)| == 1 && (i != n ==> TenPath(i) != TenPath(n)) { TenPaths(i, n); }
  }

  lemma TenStep(t: Tree, n: nat)
    requires n < 10 && TenTree(t, n)
    ensures AddFits(t, TenFiles()[n]) && TenTree(Apply(t, TenFiles()[n]), n + 1)
  {
    hide TenEntry, TenPath;
    var p, a := TenPath(n), TenFiles()[n];
    assert a == AddF(p, TenEntry(n), Meta(0, 0, 0));
    hide TenFiles;
    TenthIsNew(t, n);
    var r := WithFile(t, p, TenEntry(n));
    assert Parent(p) == [];
    assert Apply(t, a) == r;
    hide Apply;
    assert r.dirs.Keys == {[]};
  }

  lemma {:induction false} TenFit(n: nat)
    requires n <= 10
    ensures AllFit(Empty(0), TenFiles()[..n]) && TenTree(ApplyAll(Empty(0), TenFiles()[..n]), n)
  {
    if n == 0 {
      assert TenFiles()[..0] == [];
    } else {
      TenFit(n - 1);
      assert TenFiles()[..n][..n - 1] == TenFiles()[..n - 1] && TenFiles()[..n][n - 1] == TenFiles()[n - 1];
      hide TenTree, AddFits, Apply, TenFiles;
      TenStep(ApplyAll(Empty(0), TenFiles()[..n - 1]), n - 1);
    }
  }

  /** The adds are good and fit. */
  lemma TenAdds()
    ensures forall i :: 0 <= i < 10 ==> GoodAdd(TenFiles()[i])
    ensures AllFit(Empty(0), TenFiles()) && TenTree(ApplyAll(Empty(0), TenFiles()), 10)
  {
    hide GoodAdd, TenTree, ApplyAll, AllFit;
    forall i | 0 <= i < 10 ensures GoodAdd(TenFiles()[i]) { TenAreGood(i); }
    TenFit(10);
    assert TenFiles()[..10] == TenFiles();
  }

  predicate IsTen(f: FileEntry) {
    && f.mode == 0x81A4 && f.uid == 0 && f.gid == 0 && f.size == TEN_BYTES && f.mtime == 0
    && f.data == Zeros(TEN_BYTES) && |f.name| == 1
  }

  /** What `build` numbers. */
  ghost predicate TenNumbered(r: Tree) {
    && r.dirs.Keys == {[]} && r.dirs[[]].name == "/" && r.dirs[[]].mode == 0x41ED
    && r.dirs[[]].uid == 0 && r.dirs[[]].gid == 0 && r.dirs[[]].mtime == 0
    && |r.dirs| == 1 && |r.files| == 10 && |r.dirOrder| == 1 && |r.fileOrder| == 10
    && (forall p :: p in r.files ==> IsTen(r.files[p]))
  }

  lemma NumberedTen(t: Tree, r: Tree, p: Path)
    requires TenTree(t, 10) && SameButNumbers(t, r) && p in r.files
    ensures IsTen(r.files[p])
  {
    hide TenPath, Zeros;
    assert p in t.files;
    var i :| 0 <= i < 10 && p == TenPath(i);
    assert t.files[p] == TenEntry(i);
  }

  lemma NumberingTen(t: Tree, r: Tree)
    requires TenTree(t, 10) && SameButNumbers(t, r) && Ready(r)
    ensures TenNumbered(r)
  {
    assert Lists(r.dirOrder, r.dirs) && Lists(r.fileOrder, r.files);
    hide Ready, IsTen, TenEntry, TenPath;
    ListsCount(r.dirOrder, r.dirs);
    ListsCount(r.fileOrder, r.files);
    hide Lists;
    forall p | p in r.files ensures IsTen(r.files[p]) { NumberedTen(t, r, p); }
  }

  lemma {:induction false} TenData(order: seq<Path>, files: map<Path, FileEntry>)
    requires forall i :: 0 <= i < |order| ==> order[i] in files && |files[order[i]].data| == TEN_BYTES
    ensures DataBytes(order, files) == TEN_BYTES * |order|
  {
    if order != [] { TenData(order[..|order| - 1], files); }
  }

  lemma TenGeometry()
    ensures GeometryFor(11, 1045000, ImageBlocks(1)) == Geometry(2047, 3, 511, 32, 4, 1)
  {
    assert NumCgs(11) == 4 && Layout(11, 1045000) == 2276;
  }

  /** The layout is shrunk to four groups of 503 data blocks. */
  lemma TenPlan(r: Tree)
    requires TenNumbered(r) && Ready(r)
    ensures PlanFor(r, ImageBlocks(1)) == Geometry(2047, 3, 511, 32, 4, 1)
    ensures DataBytes(r.fileOrder, r.files) == 1045000
    ensures Roomy(PlanFor(r, ImageBlocks(1))) && NumDataBlocks(PlanFor(r, ImageBlocks(1))) == 2012
  {
    assert Lists(r.fileOrder, r.files);
    hide Ready, Lists, GeometryFor;
    forall i | 0 <= i < |r.fileOrder| ensures r.fileOrder[i] in r.files && IsTen(r.files[r.fileOrder[i]]) {
      ListedFile(r, i);
    }
    hide Zeros;
    TenData(r.fileOrder, r.files);
    TenGeometry();
  }

  lemma ListedFile(r: Tree, i: nat)
    requires Lists(r.fileOrder, r.files) && i < |r.fileOrder|
    ensures r.fileOrder[i] in r.files
  {
    assert r.fileOrder[i] in r.fileOrder;
  }

  /** Every file takes 205 blocks. */
  lemma TenNode(r: Tree, i: nat)
    requires TenNumbered(r) && Ready(r) && i < |FileOrder(r)|
    ensures var p, n := FileOrder(r)[i], |DirOrder(r)| + i;
            && p in r.files && r.files[p].inode == FIRST_INODE + n && Nodes(r)[n] == FileNode(r, p)
            && FileNode(r, p).data == Zeros(TEN_BYTES) && FileNode(r, p).size == TEN_BYTES
            && FileNode(r, p).inode == FileInode(r.files[p]) && NodeBlocks(Nodes(r)[n]) == 205
  {
    hide Ready, Nodes, FileOrder, DirOrder, Zeros;
    FileAt(r, i);
    assert IsTen(r.files[FileOrder(r)[i]]);
    assert !IsLink(r.files[FileOrder(r)[i]]);
  }

  lemma TenCounts(r: Tree)
    requires TenNumbered(r) && Ready(r)
    ensures |DirOrder(r)| == 1 && |FileOrder(r)| == 10 && |Nodes(r)| == 11
  {
    hide Ready;
    OrderCounts(r);
  }

  lemma {:induction false} TenDemand(r: Tree, n: nat)
    requires TenNumbered(r) && Ready(r) && |DirOrder(r)| == 1 && |FileOrder(r)| == 10 && n <= 10
    ensures Demand(Nodes(r), 1 + n) >= 205 * n
  {
    hide Ready, TenNumbered, Nodes, FileOrder, DirOrder, NodeBlocks, FileNode;
    if n > 0 {
      TenDemand(r, n - 1);
      TenNode(r, n - 1);
    }
  }

  /** The ten files do not all find room: the one that comes last is cut short, and cannot be read. */
  lemma TenFilesLoseOne(r: Tree, now: int, img: seq<byte>)
    requires Built(ApplyAll(Empty(0), TenFiles()), r, ImageBlocks(1), now, img)
    ensures DataBytes(r.fileOrder, r.files) == 1045000 < 1024 * 1024
    ensures exists p :: p in r.files && ReadFile(img, r.files[p].inode) == None
  {
    var t := ApplyAll(Empty(0), TenFiles());
    TenAdds();
    BuiltParts(t, r, ImageBlocks(1), now, img);
    assert ImageOk(PlanFor(r, ImageBlocks(1)), Nodes(r), now, img);
    hide Built, TenFiles, TenTree, AllFit, GoodAdd, ApplyAll, SameButNumbers, Ready, Nodes, ImageOk, TenNumbered, PlanFor, Encodable,
      FileOrder, DirOrder, DataBytes, FileNode, FileInode;
    NumberingTen(t, r);
    TenPlan(r);
    TenCounts(r);
    TenDemand(r, 10);
    TenNode(r, 9);
    var g, p := PlanFor(r, ImageBlocks(1)), FileOrder(r)[9];
    TenReadable(r, p);
    hide Consistent, Demand, NumDataBlocks;
    NodeRecovered(g, Nodes(r), now, img, 10);
    assert !Direct12(g, Nodes(r), 10);
    assert ReadFile(img, r.files[p].inode) == None;
  }

  lemma TenReadable(r: Tree, p: Path)
    requires TenNumbered(r) && p in r.files
    ensures Readable(FileNode(r, p))
  {
    assert IsTen(r.files[p]);
    assert FileOk(r.files[p]);
    FileNodeReadable(r, p);
  }

  // ------------------------------------------------------ and `build` reports success

  lemma {:induction false} ExtentsPerBlock(g: Geometry, exts: seq<Extent>, off: nat, i: nat, m: nat)
    requires g.cgSize > INODE_BLOCKS && Maps(g, exts, off, i, m)
    ensures |exts| <= m
    decreases |exts|
  {
    hide Run, SameGroup;
    if exts != [] { ExtentsPerBlock(g, exts[1..], off + exts[0].length, i + exts[0].length, m - exts[0].length); }
  }

  /** A node of at most 205 blocks gets at most so many extents. */
  lemma {:induction false} FewNodeExtents(g: Geometry, ns: seq<Node>, j: nat)
    requires Roomy(g) && j < |ns| && NodeBlocks(ns[j]) <= 205
    ensures |ExtsAt(g, ns, j)| <= 205
  {
    NodeRange(g, ns, j);
    NodeMapped(g, ns, j);
    var s, e := StartAt(g, ns, j), StartAt(g, ns, j + 1);
    assert e - s <= NodeBlocks(ns[j]);
    hide Maps, ExtsAt, StartAt, Demand, NodeBlocks;
    ExtentsPerBlock(g, ExtsAt(g, ns, j), 0, s, e - s);
  }

  lemma RootEntries(r: Tree)
    requires TenNumbered(r) && TreeOk(r)
    ensures |r.dirs[[]].entries| <= 10
  {
    EntriesCountNodes(r, r.dirOrder);
    assert r.dirOrder[0] in r.dirOrder;
    assert r.dirOrder == [r.dirOrder[0]];
  }

  lemma RootNumbers(r: Tree)
    requires TenNumbered(r) && Ready(r)
    ensures r.dirs[[]].inode < 13 && r.dirs[[]].parentInode < 13
  {
    assert [] in r.dirs;
    TenCounts(r);
    hide Ready, Nodes, DirOrder, FileOrder, TenNumbered, DirNode;
    var d := DirByPath(r, []);
    RootParentNumber(r);
  }

  lemma DotEntries(r: Tree, p: Path)
    requires p in r.dirs
    ensures |DirEntries(r, r.dirs[p])| >= 2
    ensures DirEntries(r, r.dirs[p])[0] == EfsDir.Dirent(r.dirs[p].inode, ".")
    ensures DirEntries(r, r.dirs[p])[1] == EfsDir.Dirent(r.dirs[p].parentInode, "..")
  {
    hide ChildEntries, SortPaths;
  }

  lemma RootNamesArePackable(r: Tree, i: nat)
    requires TenNumbered(r) && TreeOk(r) && Ready(r) && i < |DirEntries(r, r.dirs[[]])|
    ensures EfsDir.Packable(DirEntries(r, r.dirs[[]])[i])
  {
    assert [] in r.dirs;
    hide Ready, Nodes, DirEntries, TenNumbered, TreeOk, InodeOf, Name, IsNode, Children;
    if i < 2 {
      RootNumbers(r);
      DotEntries(r, []);
    } else {
      TenCounts(r);
      EntryCount(r, []);
      EntryAt(r, [], i - 2);
      ChildNumber(r, Children(r, [])[i - 2]);
    }
  }

  lemma RootParentNumber(r: Tree)
    requires Ready(r) && [] in r.dirs && |DirOrder(r)| == 1
    ensures r.dirs[[]].parentInode < 13
  {
    hide KeysOk, DirOrder, FilesNumbered;
    OrderHasRoot(r);
  }

  lemma OrderHasRoot(r: Tree)
    requires Ready(r) && [] in r.dirs && |DirOrder(r)| == 1
    ensures DirOrder(r)[0] == []
  {
    OrderLists(r);
    hide DirOrder, FileOrder, Ready;
    assert [] in DirOrder(r);
  }

  lemma ChildNumber(r: Tree, c: Path)
    requires TenNumbered(r) && TreeOk(r) && Ready(r) && IsNode(r, c) && |Nodes(r)| == 11
    ensures InodeOf(r, c) < 13 && |Name(c)| <= 1
  {
    assert [] in r.dirs;
    ShortChild(r, c);
    hide TreeOk, TenNumbered, Ready, Nodes;
    var j := PlaceOf(r, c);
  }

  lemma ShortChild(r: Tree, c: Path)
    requires TenNumbered(r) && TreeOk(r) && IsNode(r, c)
    ensures |Name(c)| <= 1
  {
    if c in r.files { assert IsTen(r.files[c]) && r.files[c].name == Name(c); }
  }

  lemma TenDirsPack(r: Tree)
    requires TenNumbered(r) && TreeOk(r) && Ready(r)
    ensures DirsPack(r)
  {
    assert [] in r.dirs && forall p :: p in r.dirs ==> p == [];
    hide TreeOk, Ready, TenNumbered, DirEntries, EfsDirPack.Pack;
    var es := DirEntries(r, r.dirs[[]]);
    forall i | 0 <= i < |es| ensures EfsDir.Packable(es[i]) { RootNamesArePackable(r, i); }
    EfsDirPack.PackSucceedsIff(es);
  }

  lemma TenShortNames(r: Tree)
    requires TenNumbered(r)
    ensures ShortNames(r)
  {
    hide Zeros;
    assert forall p :: p in r.files ==> IsTen(r.files[p]) && !IsLink(r.files[p]);
  }

  /** The root directory takes at most 3 blocks. */
  lemma RootNode(r: Tree)
    requires TenNumbered(r) && TreeOk(r) && Ready(r)
    ensures |Nodes(r)| == 11 && Nodes(r)[0] == DirNode(r, []) && NodeBlocks(Nodes(r)[0]) <= 3
  {
    assert [] in r.dirs;
    TenCounts(r);
    TenDirsPack(r);
    TenShortNames(r);
    DirPacks(r, []);
    RootEntries(r);
    hide TreeOk, Ready, TenNumbered, ShortNames, DirsPack, NodeBlocks, DirNode, Nodes, DirOrder, FileOrder, EfsDirPack.Pack;
    DirDemand(r, []);
    var i := DirByPath(r, []);
  }

  /** Fields as small as these fit an inode. */
  ghost predicate SmallInode(i: Inode) {
    && 0 <= i.mode < 0x1_0000 && 0 <= i.nlink <= 3 && i.uid == 0 && i.gid == 0 && 0 <= i.size <= 104960
    && i.atime == 0 && i.mtime == 0 && i.ctime == 0 && i.gen == 1 && i.numExtents == 0 && i.version == 0 && i.spare == 0
  }

  lemma {:induction false} CountBound(order: seq<Path>, p: Path)
    ensures CountChildren(order, p) <= |order|
  {
    if order != [] { CountBound(order[..|order| - 1], p); }
  }

  lemma SmallNodeInode(r: Tree, j: nat)
    requires TenNumbered(r) && TreeOk(r) && Ready(r) && j < |Nodes(r)|
    ensures |Nodes(r)| == 11
    ensures SmallInode(Nodes(r)[j].inode) && 0 <= Nodes(r)[j].size <= 104960 && NodeBlocks(Nodes(r)[j]) <= 205
  {
    RootNode(r);
    TenCounts(r);
    hide Nodes, DirOrder, FileOrder, TreeOk, Ready;
    if j == 0 {
      CountBound(r.dirOrder, []);
      hide DirEntries, EfsDirPack.Pack, CountChildren;
      assert Nodes(r)[0].size == |Nodes(r)[0].data| <= 512 * NodeBlocks(Nodes(r)[0]);
    } else {
      TenNode(r, j - 1);
      assert IsTen(r.files[FileOrder(r)[j - 1]]);
      hide Zeros;
    }
  }

  lemma SmallInodesFit(g: Geometry, r: Tree, n: nat)
    requires TenNumbered(r) && TreeOk(r) && Ready(r) && Roomy(g) && n <= |Nodes(r)|
    ensures AllPackable(InodesAt(g, Nodes(r), n))
  {
    hide TenNumbered, TreeOk, Ready, Nodes, ExtsAt, NodeBlocks, Consistent;
    var ns := Nodes(r);
    forall k | FIRST_INODE <= k < FIRST_INODE + |ns|
      ensures Packable(NodeInode(g, ns, n, k))
    {
      SmallNodeInode(r, k - FIRST_INODE);
      FewNodeExtents(g, ns, k - FIRST_INODE);
    }
  }

  lemma SuperFits(used: int, now: int)
    requires 0 <= used <= 2012 && EfsSuper.S32(now)
    ensures EfsSuper.Packable(SuperFor(Geometry(2047, 3, 511, 32, 4, 1), used, 11, now))
  {}

  /** All of it can be encoded: `build` writes the image and reports success. */
  lemma TenFilesAreWritten(r: Tree, now: int)
    requires SameButNumbers(ApplyAll(Empty(0), TenFiles()), r) && Ready(r) && EfsSuper.S32(now)
    ensures Roomy(PlanFor(r, ImageBlocks(1))) && Encodable(PlanFor(r, ImageBlocks(1)), r, now)
  {
    var t := ApplyAll(Empty(0), TenFiles());
    TenAdds();
    hide TenFiles, TenTree, AllFit, GoodAdd, ApplyAll, Ready, Nodes, TenNumbered, PlanFor, SameButNumbers, TreeOk, InodesAt,
      AllPackable, DirsPack, EfsSuper.Packable, SuperFor;
    NumberingTen(t, r);
    TenPlan(r);
    AddsAreNamed(TenFiles());
    ApplyAllOkIff(0, TenFiles());
    SameTreeOk(t, r);
    TenCounts(r);
    var g := PlanFor(r, ImageBlocks(1));
    TenDirsPack(r);
    SmallInodesFit(g, r, 0);
    SmallInodesFit(g, r, |Nodes(r)|);
    StartMonotone(g, Nodes(r), 0, |Nodes(r)|);
    SuperFits(StartAt(g, Nodes(r), |Nodes(r)|), now);
  }
}
