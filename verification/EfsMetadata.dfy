/** Modes, owners, times and link counts, from the adds to the inodes that are read from the image. */
module EfsMetadata {
  import opened Common
  import opened Bytes
  import opened EfsGeometry
  import opened EfsInode
  import opened EfsTree
  import opened EfsImage
  import opened EfsPlan
  import opened EfsBuilder
  import opened EfsRead
  import opened EfsReadBack
  import opened EfsEndToEnd

  // ------------------------------------------------------- who made a directory

  /** The first add that names the directory `q` or needs it above what it adds. */
  ghost function Origin(adds: seq<Add>, q: Path): Option<Add> {
    if adds == [] then None
    else
      var first := Origin(adds[..|adds| - 1], q);
      if first.Some? then first else if NeededBy(adds[|adds| - 1], q) then Some(adds[|adds| - 1]) else None
  }

  lemma {:induction false} OriginIff(adds: seq<Add>, q: Path)
    ensures Origin(adds, q).Some? <==> Needed(adds, q)
  {
    hide NeededBy;
    if adds != [] { OriginIff(adds[..|adds| - 1], q); }
  }

  /** `mode` with the type bits of a directory. */
  predicate DirMode(m: int, mode: int) {
    m % 0x1000 == mode % 0x1000 && m / 0x1_0000 == mode / 0x1_0000 && FileType(m) == S_IFDIR
  }

  /** The directory `q` has the mode it was added with, or 0755 if it was implied, and the owner and time of the add
      that made it; the root belongs to user 0. */
  ghost predicate MadeAs(d: DirEntry, start: int, adds: seq<Add>, q: Path) {
    if q == [] then d.mode == 0x41ED && d.uid == 0 && d.gid == 0 && d.mtime == start
    else
      && Origin(adds, q).Some?
      && var a := Origin(adds, q).value;
      && d.uid == a.meta.uid && d.gid == a.meta.gid && d.mtime == a.meta.mtime
      && if a.AddD? && a.path == q then DirMode(d.mode, a.mode) else d.mode == 0x41ED
  }

  ghost predicate SameStat(d: DirEntry, e: DirEntry) {
    d.mode == e.mode && d.uid == e.uid && d.gid == e.gid && d.mtime == e.mtime
  }

  lemma OrDirMode(mode: int)
    requires FileType(mode) == 0 || FileType(mode) == S_IFDIR
    ensures DirMode(OrDir(mode), mode)
  {
    OrDirParts(mode);
    hide OrDir;
  }

  lemma WithDirStat(t: Tree, p: Path, m: Meta, q: Path)
    requires q in WithDir(t, p, 0x1ED, m).dirs && p !in t.dirs
    ensures var d := WithDir(t, p, 0x1ED, m).dirs[q];
            if q != p then q in t.dirs && SameStat(d, t.dirs[q])
            else d.mode == 0x41ED && d.uid == m.uid && d.gid == m.gid && d.mtime == m.mtime
  {
    assert OrDir(0x1ED) == 0x41ED;
    hide OrDir;
  }

  lemma {:induction false} EnsureKeeps(t: Tree, p: Path, n: nat, m: Meta, q: Path)
    requires n <= |p| && q in t.dirs
    ensures q in EnsureDirs(t, p, n, m).dirs
  {
    EnsureDirsGrows(t, p, n, m);
    hide EnsureDirs;
  }

  lemma {:induction false} EnsureDirsStat(t: Tree, p: Path, n: nat, m: Meta, q: Path)
    requires n <= |p| && q in EnsureDirs(t, p, n, m).dirs
    ensures var d := EnsureDirs(t, p, n, m).dirs[q];
            if q in t.dirs then SameStat(d, t.dirs[q])
            else d.mode == 0x41ED && d.uid == m.uid && d.gid == m.gid && d.mtime == m.mtime
  {
    if n == 0 {
      EnsureNone(t, p, m);
    } else {
      hide EnsureDirs, WithDir;
      var t1 := EnsureDirs(t, p, n - 1, m);
      if q in t.dirs { EnsureKeeps(t, p, n - 1, m, q); }
      EnsureDirsStep(t, p, n, m);
      if p[..n] !in t1.dirs { WithDirStat(t1, p[..n], m, q); }
      if q in t1.dirs { EnsureDirsStat(t, p, n - 1, m, q); }
    }
  }

  /** What an add makes of the directories. */
  lemma ApplyStat(t: Tree, a: Add, q: Path)
    requires q in Apply(t, a).dirs && GoodAdd(a)
    ensures var d := Apply(t, a).dirs[q];
            if q in t.dirs then SameStat(d, t.dirs[q])
            else && d.uid == a.meta.uid && d.gid == a.meta.gid && d.mtime == a.meta.mtime
                 && if a.AddD? && a.path == q then DirMode(d.mode, a.mode) else d.mode == 0x41ED
  {
    var p := a.path;
    if p != [] {
      EnsureDirsGrows(t, p, |p| - 1, a.meta);
      if q in EnsureDirs(t, p, |p| - 1, a.meta).dirs { EnsureDirsStat(t, p, |p| - 1, a.meta, q); }
    }
    if a.AddD? { OrDirMode(a.mode); }
    hide EnsureDirs, OrDir, DirMode, FileType;
  }

  lemma {:induction false} DirsAreMade(start: int, adds: seq<Add>, q: Path)
    requires forall i :: 0 <= i < |adds| ==> GoodAdd(adds[i])
    requires q in ApplyAll(Empty(start), adds).dirs
    ensures MadeAs(ApplyAll(Empty(start), adds).dirs[q], start, adds, q)
  {
    hide Apply, GoodAdd, NeededBy, DirMode;
    if adds == [] {
      assert OrDir(0x1ED) == 0x41ED;
    } else {
      var n := |adds| - 1;
      var t, a := ApplyAll(Empty(start), adds[..n]), adds[n];
      ApplyStat(t, a, q);
      ApplyAllContents(start, adds[..n]);
      ApplyContents(t, a);
      OriginIff(adds[..n], q);
      if q in t.dirs { DirsAreMade(start, adds[..n], q); }
    }
  }

  // ------------------------------------------------------------------ link counts

  /** The directories directly inside `p`. */
  ghost function Subdirs(t: Tree, p: Path): set<Path> {
    set c | c in t.dirs && |c| == |p| + 1 && c[..|p|] == p
  }

  ghost function ListedUnder(order: seq<Path>, p: Path): set<Path> { set c | c in order && Parent(c) == p }

  lemma ListedSnoc(init: seq<Path>, last: Path, p: Path)
    ensures ListedUnder(init + [last], p) == if Parent(last) == p then ListedUnder(init, p) + {last} else ListedUnder(init, p)
    ensures last !in init ==> last !in ListedUnder(init, p)
  {}

  lemma {:induction false} CountIsSize(order: seq<Path>, p: Path)
    requires NoDup(order)
    ensures CountChildren(order, p) == |ListedUnder(order, p)|
  {
    if order == [] {
      assert ListedUnder(order, p) == {};
    } else {
      var init, last := order[..|order| - 1], order[|order| - 1];
      assert order == init + [last] && last !in init;
      CountIsSize(init, p);
      hide ListedUnder;
      ListedSnoc(init, last, p);
    }
  }

  /** Every directory's links are counted: the two every directory has, one for each directory inside it, and one more
      for the root, which is its own parent. */
  lemma LinksAreCounted(t: Tree, p: Path)
    requires KeysOk(t) && p in t.dirs
    ensures CountChildren(t.dirOrder, p) == |Subdirs(t, p)| + if p == [] then 1 else 0
  {
    CountIsSize(t.dirOrder, p);
    var s := ListedUnder(t.dirOrder, p);
    forall c ensures c in s <==> c in Subdirs(t, p) || (p == [] && c == []) {
      if c in Subdirs(t, p) { assert c != []; }
    }
    assert s == if p == [] then Subdirs(t, p) + {[]} else Subdirs(t, p);
  }

  // ------------------------------------------------------------- inodes on the image

  predicate TimesAre(i: Inode, time: int) { i.atime == time && i.mtime == time && i.ctime == time }

  /** The inode of a file that was added as `f`. */
  predicate FileStat(i: Inode, f: FileEntry) {
    && i.mode == f.mode && i.uid == f.uid && i.gid == f.gid && TimesAre(i, f.mtime)
    && i.nlink == 1 && i.gen == 1 && i.version == 0 && i.size == |FileData(f)|
  }

  /** The inode of the directory `p`, entered as `d`. */
  ghost predicate DirStat(i: Inode, d: DirEntry, t: Tree, p: Path) {
    && i.mode == d.mode && i.uid == d.uid && i.gid == d.gid && TimesAre(i, d.mtime)
    && i.nlink == 2 + |Subdirs(t, p)| + (if p == [] then 1 else 0) && i.gen == 1 && i.version == 0 && i.size % 512 == 0
  }

  lemma NodeInodeIs(g: Geometry, t: Tree, now: int, img: seq<byte>, j: nat)
    requires WrittenImage(g, t, now, img) && j < |Nodes(t)| && Readable(Nodes(t)[j])
    ensures ReadInode(img, FIRST_INODE + j).Some?
    ensures var i, n := ReadInode(img, FIRST_INODE + j).value, Nodes(t)[j];
            && i.mode == n.inode.mode && i.uid == n.inode.uid && i.gid == n.inode.gid && i.nlink == n.inode.nlink
            && i.atime == n.inode.atime && i.mtime == n.inode.mtime && i.ctime == n.inode.ctime
            && i.gen == n.inode.gen && i.version == n.inode.version && i.size == |n.data|
  {
    hide TreeOk, Ready, PlainTree, DirsPack, ImageOk, Consistent, Nodes, ReadInode, ExtsAt, Direct;
    NodeInodeReads(g, Nodes(t), now, img, j);
  }

  lemma FileInodeIs(g: Geometry, t: Tree, now: int, img: seq<byte>, p: Path)
    requires WrittenImage(g, t, now, img) && p in t.files
    ensures ReadInode(img, t.files[p].inode).Some? && FileStat(ReadInode(img, t.files[p].inode).value, t.files[p])
  {
    hide TreeOk, Ready, PlainTree, DirsPack, ImageOk, Consistent, Nodes, ReadInode, Readable, DirOrder, FileOrder, FileOk,
      FileData, IsLink;
    var k := FileByPath(t, p);
    FileIsOk(t, p);
    FileNodeReadable(t, p);
    NodeInodeIs(g, t, now, img, |DirOrder(t)| + k);
  }

  lemma WrittenKeys(g: Geometry, t: Tree, now: int, img: seq<byte>)
    requires WrittenImage(g, t, now, img)
    ensures KeysOk(t) && Ready(t) && TreeOk(t)
  {
    hide PlainTree, DirsPack, ImageOk, Consistent, Nodes;
  }

  lemma DirInodeIs(g: Geometry, t: Tree, now: int, img: seq<byte>, p: Path)
    requires WrittenImage(g, t, now, img) && p in t.dirs
    ensures ReadInode(img, t.dirs[p].inode).Some? && DirStat(ReadInode(img, t.dirs[p].inode).value, t.dirs[p], t, p)
  {
    WrittenKeys(g, t, now, img);
    LinksAreCounted(t, p);
    hide TreeOk, Ready, KeysOk, PlainTree, DirsPack, ImageOk, Consistent, Nodes, ReadInode, Readable, DirOrder, FileOrder,
      Subdirs, CountChildren;
    var j := DirByPath(t, p);
    DirPacks(t, p);
    DirNodeReadable(t, p);
    DirNodeData(t, p);
    NodeInodeIs(g, t, now, img, j);
    hide DirNode;
    DirNodeInode(t, p);
  }

  lemma DirNodeInode(t: Tree, p: Path)
    requires p in t.dirs
    ensures var i, d := DirNode(t, p).inode, t.dirs[p];
            && i.mode == d.mode && i.uid == d.uid && i.gid == d.gid && TimesAre(i, d.mtime) && i.gen == 1 && i.version == 0
            && i.nlink == 2 + CountChildren(t.dirOrder, p)
  {
    hide DirEntries, CountChildren;
  }

  lemma SameStats(t: Tree, r: Tree, p: Path)
    requires SameButNumbers(t, r)
    ensures p in r.dirs ==> p in t.dirs && SameStat(r.dirs[p], t.dirs[p])
    ensures p in t.files ==> p in r.files && FileData(r.files[p]) == FileData(t.files[p])
                             && forall i :: FileStat(i, r.files[p]) <==> FileStat(i, t.files[p])
  {
    assert p in r.dirs.Keys <==> p in t.dirs.Keys;
    assert p in r.files.Keys <==> p in t.files.Keys;
  }

  /** Metadata, end to end: on any image that `build` has written after any run of good, fitting adds, the inode that a
      path leads to has the mode, owner, times and size the file was added with, and one link; a directory's has those
      it was made with, and its links. */
  lemma WhatInodesSay(start: int, adds: seq<Add>, r: Tree, imageBlocks: ImageSize, now: int, img: seq<byte>, p: Path)
    requires (forall i :: 0 <= i < |adds| ==> GoodAdd(adds[i])) && AllFit(Empty(start), adds)
    requires Built(ApplyAll(Empty(start), adds), r, imageBlocks, now, img) && PlainPath(p) && Resolve(img, p).Some?
    ensures var i := ReadInode(img, Resolve(img, p).value);
            && i.Some?
            && (p in AddedFiles(adds) ==> FileStat(i.value, AddedFiles(adds)[p]))
            && (p == [] || Needed(adds, p) ==>
                  p in r.dirs && MadeAs(r.dirs[p], start, adds, p) && DirStat(i.value, r.dirs[p], r, p))
  {
    var t, g := ApplyAll(Empty(start), adds), PlanFor(r, imageBlocks);
    BuiltParts(t, r, imageBlocks, now, img);
    WhatIsReadBack(start, adds, r, imageBlocks, now, img, p);
    hide Built, SameButNumbers, Ready, PlanFor, PlainPath, Resolve, ReadInode, FileData, Needed, AddedFiles, TreeOk, AllFit, Plain,
      WrittenImage, GoodAdd, ApplyAll, FileReads, IntactAt, Reachable, PlainTree, ReadDirectory, IsListing, FileStat, DirStat,
      MadeAs, NamedByPath, ReadFile;
    AddsAreNamed(adds);
    ApplyAllOkIff(start, adds);
    ApplyAllPlain(start, adds);
    ApplyAllContents(start, adds);
    BuiltIsWritten(t, r, imageBlocks, now, img);
    SameStats(t, r, p);
    if p in AddedFiles(adds) {
      BuiltTree(start, adds, r, imageBlocks, now, img);
      FileInodeIs(g, r, now, img, p);
    }
    if p == [] || Needed(adds, p) {
      DirInodeIs(g, r, now, img, p);
      DirsAreMade(start, adds, p);
      SameMade(t.dirs[p], r.dirs[p], start, adds, p);
    }
  }

  lemma SameMade(d: DirEntry, e: DirEntry, start: int, adds: seq<Add>, p: Path)
    requires MadeAs(d, start, adds, p) && SameStat(e, d)
    ensures MadeAs(e, start, adds, p)
  {}
}
