/** From a run of adds to the bytes read back from the image. */
module EfsEndToEnd {
  import opened Common
  import opened Bytes
  import opened Disk
  import opened EfsGeometry
  import opened EfsAlloc
  import opened EfsInode
  import opened EfsTree
  import opened EfsOrder
  import opened EfsImage
  import opened EfsPlan
  import opened EfsBuilder
  import opened EfsRead
  import opened EfsReadBack
  import opened EfsCapacity
  import opened EfsExtents

  // ---------------------------------------------------------------- plain adds

  /** An add of a normalised path with plain names, a consistent size and a sane mode. */
  ghost predicate GoodAdd(a: Add) {
    PlainPath(a.path) &&
    match a
    case AddF(p, f, _) => FileOk(f) && f.name == Name(p)
    case AddD(_, mode, _) => FileType(mode) == 0 || FileType(mode) == S_IFDIR
  }

  ghost predicate PlainDir(t: Tree, p: Path)
    requires p in t.dirs
  {
    PlainPath(p) && FileType(t.dirs[p].mode) == S_IFDIR && t.dirs[p].inode == if p == [] then ROOT_INODE else 0
  }

  /** All that was added is plain, and nothing is numbered yet. */
  ghost predicate Plain(t: Tree) {
    && (forall p :: p in t.dirs ==> PlainDir(t, p))
    && (forall p :: p in t.files ==> PlainPath(p) && FileOk(t.files[p]))
  }

  lemma AppendKeepsPlain(t: Tree, r: Tree, parent: Path, child: Path)
    requires Plain(t) && r == t.(dirs := AppendEntry(t.dirs, parent, child))
    ensures Plain(r)
  {
    hide PlainPath, FileOk;
    forall p | p in r.dirs ensures PlainDir(r, p) { assert PlainDir(t, p); }
  }

  lemma WithDirPlain(t: Tree, p: Path, mode: int, m: Meta)
    requires Plain(t) && PlainPath(p) && p != [] && FileType(OrDir(mode)) == S_IFDIR
    ensures Plain(WithDir(t, p, mode, m))
  {
    var d := DirEntry(Name(p), OrDir(mode), m.uid, m.gid, m.mtime, 0, 0, []);
    var t1 := t.(dirs := t.dirs[p := d], dirOrder := t.dirOrder + [p]);
    hide PlainPath, FileOk, FileType, OrDir;
    forall q | q in t1.dirs ensures PlainDir(t1, q) { if q != p { assert PlainDir(t, q); } }
    AppendKeepsPlain(t1, t1.(dirs := AppendEntry(t1.dirs, Parent(p), p)), Parent(p), p);
  }

  lemma {:induction false} EnsureDirsPlain(t: Tree, p: Path, n: nat, m: Meta)
    requires Plain(t) && PlainPath(p) && n <= |p|
    ensures Plain(EnsureDirs(t, p, n, m))
  {
    if n > 0 {
      EnsureDirsPlain(t, p, n - 1, m);
      assert PlainPath(p[..n]) && FileType(OrDir(0x1ED)) == S_IFDIR;
      hide Plain, WithDir, PlainPath;
      WithDirPlain(EnsureDirs(t, p, n - 1, m), p[..n], 0x1ED, m);
    }
  }

  lemma WithFilePlain(t: Tree, p: Path, f: FileEntry)
    requires Plain(t) && PlainPath(p) && FileOk(f)
    ensures Plain(WithFile(t, p, f))
  {
    hide PlainPath, FileOk;
    var r := t.(files := t.files[p := f], fileOrder := if p in t.files then t.fileOrder else t.fileOrder + [p]);
    forall q | q in r.dirs ensures PlainDir(r, q) { assert PlainDir(t, q); }
    AppendKeepsPlain(r, WithFile(t, p, f), Parent(p), p);
  }

  lemma ParentsPlain(t: Tree, p: Path, m: Meta)
    requires Plain(t) && PlainPath(p)
    ensures Plain(EnsureParents(t, p, m))
  {
    hide Plain, EnsureDirs;
    if p != [] { EnsureDirsPlain(t, p, |p| - 1, m); }
  }

  /** A mode's permission bits, file type and what lies above them. */
  lemma ModeParts(mode: int, top: int, kind: int, low: int)
    requires mode == 0x1_0000 * top + 0x1000 * kind + low && 0 <= kind < 0x10 && 0 <= low < 0x1000
    ensures mode % 0x1000 == low && mode / 0x1000 == 0x10 * top + kind && mode / 0x1_0000 == top
    ensures FileType(mode) == 0x1000 * kind
  {}

  lemma TypeBit(mode: int, top: int, bit: int, low: int)
    requires mode == 0x4000 * (4 * top + bit) + low && 0 <= bit <= 1 && 0 <= low < 0x1000
    ensures mode / 0x4000 % 2 == bit
  {
    var q := 4 * top + bit;
    DivModIs(mode, 0x4000, q, low);
    DivModIs(q, 2, 2 * top, bit);
  }

  /** Setting the directory bit changes nothing else of a mode with no type or a directory's. */
  lemma OrDirParts(mode: int)
    requires FileType(mode) == 0 || FileType(mode) == S_IFDIR
    ensures var m := OrDir(mode);
            m % 0x1000 == mode % 0x1000 && m / 0x1_0000 == mode / 0x1_0000 && FileType(m) == S_IFDIR
  {
    var q, low := mode / 0x1000, mode % 0x1000;
    var top, kind := q / 0x10, q % 0x10;
    assert mode == 0x1_0000 * top + 0x1000 * kind + low;
    ModeParts(mode, top, kind, low);
    hide FileType;
    TypeBit(mode, top, if kind == 4 then 1 else 0, low);
    ModeParts(OrDir(mode), top, 4, low);
  }

  lemma ApplyPlain(t: Tree, a: Add)
    requires Plain(t) && GoodAdd(a)
    ensures Plain(Apply(t, a))
  {
    hide Plain, PlainPath, EnsureParents, WithFile, WithDir, FileOk, FileType, OrDir;
    ParentsPlain(t, a.path, a.meta);
    var t1 := EnsureParents(t, a.path, a.meta);
    if a.AddD? { OrDirParts(a.mode); }
    match a
    case AddF(p, f, _) => WithFilePlain(t1, p, f);
    case AddD(p, mode, m) => if p != [] && p !in t1.dirs { WithDirPlain(t1, p, mode, m); }
  }

  /** A run of good adds leaves a tree that `build` accepts. */
  lemma {:induction false} ApplyAllPlain(now: int, adds: seq<Add>)
    requires forall i :: 0 <= i < |adds| ==> GoodAdd(adds[i])
    ensures Plain(ApplyAll(Empty(now), adds)) && NormalPaths(ApplyAll(Empty(now), adds)) && Unnumbered(ApplyAll(Empty(now), adds))
  {
    if adds != [] {
      ApplyAllPlain(now, adds[..|adds| - 1]);
      ApplyPlain(ApplyAll(Empty(now), adds[..|adds| - 1]), adds[|adds| - 1]);
    }
    PlainIsReady(ApplyAll(Empty(now), adds));
  }

  lemma PlainIsReady(t: Tree)
    requires Plain(t)
    ensures NormalPaths(t) && Unnumbered(t)
  {
    forall p | p in t.dirs
      ensures Normal(p) && t.dirs[p].inode == if p == [] then ROOT_INODE else 0
    {
      assert PlainDir(t, p);
    }
  }

  // ----------------------------------------------------------------- end to end

  /** Numbering the inodes keeps the tree sound and plain. */
  lemma NumberedTree(t: Tree, r: Tree)
    requires TreeOk(t) && Plain(t) && SameButNumbers(t, r) && Ready(r)
    ensures TreeOk(r) && PlainTree(r) && r.dirs[[]].inode == ROOT_INODE
    ensures forall p :: p in t.files ==> p in r.files && FileData(r.files[p]) == FileData(t.files[p])
    ensures forall p :: (p in r.dirs <==> p in t.dirs) && (p in r.files <==> p in t.files)
  {
    SameNodes(t, r);
    hide FileData;
    assert TreeOk(r) by { SameTreeOk(t, r); }
    SamePlain(t, r);
    RootIsFirst(t, r);
  }

  lemma SameNodes(t: Tree, r: Tree)
    requires SameButNumbers(t, r)
    ensures forall p :: (p in r.dirs <==> p in t.dirs) && (p in r.files <==> p in t.files)
    ensures forall p :: p in t.dirs ==> r.dirs[p].entries == t.dirs[p].entries && r.dirs[p].name == t.dirs[p].name && r.dirs[p].mode == t.dirs[p].mode
    ensures forall p :: p in t.files ==> r.files[p].name == t.files[p].name && FileData(r.files[p]) == FileData(t.files[p])
    ensures forall p :: p in t.files ==> (FileOk(r.files[p]) <==> FileOk(t.files[p])) && r.files[p].data == t.files[p].data
  {
    assert forall p :: p in r.dirs.Keys <==> p in t.dirs.Keys;
    assert forall p :: p in r.files.Keys <==> p in t.files.Keys;
  }

  lemma SameTreeOk(t: Tree, r: Tree)
    requires TreeOk(t) && SameButNumbers(t, r)
    ensures TreeOk(r)
  {
    SameNodes(t, r);
    NumberingKeepsKeys(t, r);
    hide SameButNumbers, FileData, FileOk, KeysOk;
    assert forall p :: IsNode(r, p) <==> IsNode(t, p);
    assert Placed(r);
    forall p | p in r.dirs ensures EntriesOk(r, p) { assert EntriesOk(t, p); }
  }

  lemma SamePlain(t: Tree, r: Tree)
    requires TreeOk(t) && Plain(t) && SameButNumbers(t, r)
    ensures PlainTree(r)
  {
    SameNodes(t, r);
    hide SameButNumbers, FileData, FileOk, PlainName;
    forall p | p in r.dirs
      ensures FileType(r.dirs[p].mode) == S_IFDIR
    {
      assert PlainDir(t, p);
    }
    forall p | IsNode(r, p) && p != []
      ensures PlainName(Name(p))
    {
      assert p in t.dirs ==> PlainDir(t, p);
      assert PlainPath(p);
    }
  }

  lemma RootLeads(r: Tree)
    requires KeysOk(r) && NormalPaths(r)
    ensures |DirOrder(r)| > 0 && DirOrder(r)[0] == []
  {
    OrderLists(r);
    SortPathsSorts(r.dirOrder);
    assert [] in DirOrder(r);
    hide KeysOk;
    RootFirst(DirOrder(r));
  }

  lemma RootIsFirst(t: Tree, r: Tree)
    requires Plain(t) && SameButNumbers(t, r) && Ready(r)
    ensures [] in r.dirs && r.dirs[[]].inode == ROOT_INODE
  {
    SameNodes(t, r);
    PlainIsReady(t);
    assert NormalPaths(r);
    hide Plain, SameButNumbers, DirOrder, NormalPaths, FileData, FileOk, Numbered, KeysOk, Unnumbered;
    RootLeads(r);
    hide Ready;
    DirAt(r, 0);
  }

  /** No node is over 799 blocks. */
  ghost predicate SmallNodes(t: Tree) {
    forall j :: 0 <= j < |Nodes(t)| ==> NodeBlocks(Nodes(t)[j]) <= 799
  }

  /** No allocation is cut short, none takes the last data block, and no node needs a thirteenth extent. */
  ghost predicate RoomForAll(g: Geometry, r: Tree)
    requires Roomy(g)
  {
    Demand(Nodes(r), |Nodes(r)|) < NumDataBlocks(g) && forall j :: 0 <= j < |Nodes(r)| ==> |ExtsAt(g, Nodes(r), j)| <= MAX_EXTENTS
  }

  /** There is room for all of any tree with short names whose groups are not shrunk, if no node is over 799
      blocks. */
  lemma SmallTreesHaveRoom(t: Tree, r: Tree, imageBlocks: ImageSize, now: int, img: seq<byte>)
    requires TreeOk(t) && Built(t, r, imageBlocks, now, img)
    requires ShortNames(r) && SmallNodes(r) && Unshrunk(r, imageBlocks)
    ensures Roomy(PlanFor(r, imageBlocks)) && RoomForAll(PlanFor(r, imageBlocks), r)
  {
    hide SameButNumbers, TreeOk, ImageOk, ShortNames, DirsPack, SmallNodes, PlanFor, Unshrunk, Encodable, Demand, Nodes, ExtsAt,
      Ready, NumDataBlocks, Consistent;
    EncodableDirs(PlanFor(r, imageBlocks), r, now);
    SameTreeOk(t, r);
    EverythingFits(r, imageBlocks);
    AllDirect(PlanFor(r, imageBlocks), r);
  }

  /** What `build` has written of a plain tree is a written image in the sense of the reader. */
  lemma BuiltIsWritten(t: Tree, r: Tree, imageBlocks: ImageSize, now: int, img: seq<byte>)
    requires TreeOk(t) && Plain(t) && Built(t, r, imageBlocks, now, img)
    ensures WrittenImage(PlanFor(r, imageBlocks), r, now, img)
  {
    hide Plain, SameButNumbers, TreeOk, ImageOk, PlainTree, DirsPack, PlanFor, Encodable, Demand, Nodes, ExtsAt, Ready,
      NumDataBlocks, Consistent, FileData;
    NumberedTree(t, r);
    EncodableDirs(PlanFor(r, imageBlocks), r, now);
    NodesFit(r, imageBlocks);
  }

  lemma EncodableDirs(g: Geometry, t: Tree, now: int)
    requires Roomy(g) && Encodable(g, t, now)
    ensures DirsPack(t)
  {}

  lemma AllDirect(g: Geometry, t: Tree)
    requires Roomy(g) && PerCg(g) >= 100 && SmallNodes(t) && Demand(Nodes(t), |Nodes(t)|) < NumDataBlocks(g)
    ensures forall j :: 0 <= j < |Nodes(t)| ==> |ExtsAt(g, Nodes(t), j)| <= MAX_EXTENTS
  {
    hide SmallNodes, Nodes, ExtsAt, Demand, NumDataBlocks, Consistent, NodeBlocks;
    forall j | 0 <= j < |Nodes(t)|
      ensures |ExtsAt(g, Nodes(t), j)| <= MAX_EXTENTS
    {
      SmallNode(t, j);
      SmallNodesAreDirect(g, Nodes(t), j);
    }
  }

  lemma SmallNode(t: Tree, j: nat)
    requires SmallNodes(t) && j < |Nodes(t)|
    ensures NodeBlocks(Nodes(t)[j]) <= 799
  {}

  lemma NodesFit(r: Tree, imageBlocks: ImageSize)
    requires Ready(r)
    ensures FIRST_INODE + |Nodes(r)| <= PlanFor(r, imageBlocks).numCgs * 32
  {
    OrderLists(r);
    hide Numbered, PlanFor;
    PlanFits(r, imageBlocks);
  }

  /** End to end: what a reader finds on any image that `build` has written after any run of good, fitting adds,
      whether or not everything found room. Exactly the added and implied paths lead somewhere, as long as the
      directories above them are intact; every file gives back what is left of it, and every intact directory lists
      exactly its children. */
  lemma WhatIsReadBack(start: int, adds: seq<Add>, r: Tree, imageBlocks: ImageSize, now: int, img: seq<byte>, p: Path)
    requires (forall i :: 0 <= i < |adds| ==> GoodAdd(adds[i])) && AllFit(Empty(start), adds)
    requires Built(ApplyAll(Empty(start), adds), r, imageBlocks, now, img) && PlainPath(p)
    ensures var g := PlanFor(r, imageBlocks);
            && g.cgSize > 0
            && (Resolve(img, p).Some? <==> (p == [] || Needed(adds, p) || p in AddedFiles(adds)) && Reachable(g, r, p))
            && (Resolve(img, p).Some? ==> IsNode(r, p) && Resolve(img, p).value == InodeOf(r, p))
            && (p in AddedFiles(adds) ==>
                  && p in r.files && FileData(r.files[p]) == FileData(AddedFiles(adds)[p]) && FileReads(g, r, img, p))
            && (p == [] || Needed(adds, p) ==>
                  && p in r.dirs
                  && var es := ReadDirectory(img, r.dirs[p].inode);
                  && (es.Some? <==> IntactAt(g, r, p)) && (es.Some? ==> IsListing(r, p, es.value)))
  {
    var t := ApplyAll(Empty(start), adds);
    BuiltParts(t, r, imageBlocks, now, img);
    hide Built, SameButNumbers, Ready, PlanFor, PlainPath, IsListing, Resolve, ReadFile, ReadDirectory, FileData, Needed,
      AddedFiles, TreeOk, AllFit, Plain, WrittenImage, GoodAdd, ApplyAll, FileReads, IntactAt, Reachable, PlainTree;
    AddsAreNamed(adds);
    ApplyAllOkIff(start, adds);
    ApplyAllPlain(start, adds);
    ApplyAllContents(start, adds);
    NumberedTree(t, r);
    BuiltIsWritten(t, r, imageBlocks, now, img);
    WholeImageReadsBack(PlanFor(r, imageBlocks), r, now, img, p);
  }

  /** The whole tree reads back if and only if no node needs a thirteenth extent and there is room: the demand leaves
      at least one data block, or it leaves none and the last one holds what the superblock begins with. */
  lemma WholeTreeReadsIff(t: Tree, r: Tree, imageBlocks: ImageSize, now: int, img: seq<byte>)
    requires TreeOk(t) && Plain(t) && Built(t, r, imageBlocks, now, img)
    ensures var g, ns := PlanFor(r, imageBlocks), Nodes(r);
            && Roomy(g)
            && (AllRead(r, img) <==>
                  && (forall j :: 0 <= j < |ns| ==> |ExtsAt(g, ns, j)| <= MAX_EXTENTS)
                  && (|| Demand(ns, |ns|) < NumDataBlocks(g)
                      || (&& Demand(ns, |ns|) == NumDataBlocks(g)
                          && forall j :: 0 <= j < |ns| ==> EndsWell(g, ns, j, Block(img, 1)))))
  {
    hide Plain, SameButNumbers, TreeOk, ImageOk, PlanFor, Encodable, Demand, Nodes, ExtsAt, Ready, NumDataBlocks, WrittenImage,
      Consistent, Survives, AllRead, EndsWell, Block;
    BuiltIsWritten(t, r, imageBlocks, now, img);
    AllReadIff(PlanFor(r, imageBlocks), r, now, img);
    AllSurviveIff(PlanFor(r, imageBlocks), Nodes(r), Block(img, 1));
  }

  /** With room for all, everything is intact. */
  lemma RoomIsIntact(g: Geometry, r: Tree, p: Path)
    requires Roomy(g) && Ready(r) && RoomForAll(g, r) && IsNode(r, p)
    ensures IntactAt(g, r, p)
  {
    hide Ready, Nodes, ExtsAt, Consistent, NumDataBlocks, Demand, InodeOf, StartAt;
    RoomyHasBlocks(g);
    var j := PlaceOf(r, p);
    StartMonotone(g, Nodes(r), j + 1, |Nodes(r)|);
  }

  lemma RoomIsReachable(g: Geometry, r: Tree, p: Path)
    requires Roomy(g) && TreeOk(r) && Ready(r) && RoomForAll(g, r) && IsNode(r, p)
    ensures Reachable(g, r, p)
    decreases |p|
  {
    hide Ready, RoomForAll, IntactAt, Consistent, TreeOk;
    if p != [] {
      var q := p[..|p| - 1];
      NodeName(r, p);
      assert Parent(p) == q && q + [p[|p| - 1]] == p;
      RoomIsReachable(g, r, q);
      RoomIsIntact(g, r, q);
      hide Reachable;
      ReachableStep(g, r, q, p[|p| - 1]);
    }
  }

  /** After any run of good, fitting adds, the image that `build` writes, if it has room for all, holds exactly the
      added files, byte for byte, and exactly the added and implied directories. */
  lemma BuildRoundTrip(start: int, adds: seq<Add>, r: Tree, imageBlocks: ImageSize, now: int, img: seq<byte>, p: Path)
    requires (forall i :: 0 <= i < |adds| ==> GoodAdd(adds[i])) && AllFit(Empty(start), adds)
    requires Built(ApplyAll(Empty(start), adds), r, imageBlocks, now, img)
    requires RoomForAll(PlanFor(r, imageBlocks), r) && PlainPath(p)
    ensures Resolve(img, p).Some? <==> p == [] || Needed(adds, p) || p in AddedFiles(adds)
    ensures p in AddedFiles(adds) ==>
              && ReadFile(img, Resolve(img, p).value) == Some(FileData(AddedFiles(adds)[p]))
              && ReadDirectory(img, Resolve(img, p).value) == None
    ensures p == [] || Needed(adds, p) ==>
              p in r.dirs && ReadDirectory(img, Resolve(img, p).value).Some?
              && IsListing(r, p, ReadDirectory(img, Resolve(img, p).value).value)
  {
    var t, g := ApplyAll(Empty(start), adds), PlanFor(r, imageBlocks);
    BuiltParts(t, r, imageBlocks, now, img);
    WhatIsReadBack(start, adds, r, imageBlocks, now, img, p);
    BuiltTree(start, adds, r, imageBlocks, now, img);
    hide Built, SameButNumbers, Ready, PlanFor, RoomForAll, PlainPath, IsListing, Resolve, ReadFile, ReadDirectory, FileData,
      Needed, AddedFiles, TreeOk, AllFit, GoodAdd, ApplyAll, IntactAt, Reachable;
    if p == [] || Needed(adds, p) || p in AddedFiles(adds) {
      RoomIsReachable(g, r, p);
      RoomIsIntact(g, r, p);
    }
    if p in AddedFiles(adds) { IntactFileReads(g, r, img, p); }
  }

  lemma IntactFileReads(g: Geometry, r: Tree, img: seq<byte>, p: Path)
    requires g.cgSize > 0 && p in r.files && p !in r.dirs && FileReads(g, r, img, p) && IntactAt(g, r, p)
    ensures ReadFile(img, r.files[p].inode) == Some(FileData(r.files[p])) && ReadDirectory(img, r.files[p].inode) == None
  {
    hide ReadFile, ReadDirectory, FileData, Nodes, Intact, Block;
  }

  lemma BuiltTree(start: int, adds: seq<Add>, r: Tree, imageBlocks: ImageSize, now: int, img: seq<byte>)
    requires (forall i :: 0 <= i < |adds| ==> GoodAdd(adds[i])) && AllFit(Empty(start), adds)
    requires Built(ApplyAll(Empty(start), adds), r, imageBlocks, now, img)
    ensures TreeOk(r) && Roomy(PlanFor(r, imageBlocks)) && forall p :: p in r.files ==> p !in r.dirs
  {
    var t := ApplyAll(Empty(start), adds);
    BuiltParts(t, r, imageBlocks, now, img);
    hide SameButNumbers, Ready, PlanFor, Encodable, ImageOk, AllFit, GoodAdd, ApplyAll, Plain, Consistent;
    AddsAreNamed(adds);
    ApplyAllOkIff(start, adds);
    ApplyAllPlain(start, adds);
    NumberedTree(t, r);
  }

  lemma BuiltParts(t: Tree, r: Tree, imageBlocks: ImageSize, now: int, img: seq<byte>)
    requires Built(t, r, imageBlocks, now, img)
    ensures SameButNumbers(t, r) && Ready(r)
  {}

  lemma AddsAreNamed(adds: seq<Add>)
    requires forall i :: 0 <= i < |adds| ==> GoodAdd(adds[i])
    ensures NamedByPath(adds)
  {}
}
