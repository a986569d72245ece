/** Read-back of a whole image: the reader finds exactly the tree that was built, file for file. */
module EfsReadBack {
  import opened Common
  import opened Bytes
  import opened Disk
  import opened EfsGeometry
  import opened EfsAlloc
  import opened EfsTree
  import opened EfsOrder
  import EfsDir
  import EfsDirPack
  import EfsSuper
  import opened EfsImage
  import opened EfsPlan
  import opened EfsRead

  predicate PlainName(n: string) { n != "" && n != "." && n != ".." && Ascii(n) }

  /** The recorded size is that of the data; a link's size is taken from its target. */
  predicate FileOk(f: FileEntry) {
    && FileType(f.mode) != S_IFDIR
    && if FileData(f) == [] then f.size == 0 else IsLink(f) || f.size == |f.data|
  }

  ghost predicate PlainTree(t: Tree) {
    && (forall p :: IsNode(t, p) && p != [] ==> PlainName(Name(p)))
    && (forall p :: p in t.dirs ==> FileType(t.dirs[p].mode) == S_IFDIR)
    && (forall p :: p in t.files ==> FileOk(t.files[p]))
  }

  /** An image that was written of a sound, plain tree; whether all of the tree found room is left open. */
  ghost predicate WrittenImage(g: Geometry, t: Tree, now: int, img: seq<byte>) {
    && Roomy(g) && TreeOk(t) && Ready(t) && PlainTree(t) && DirsPack(t) && ImageOk(g, Nodes(t), now, img)
    && t.dirs[[]].inode == ROOT_INODE && FIRST_INODE + |Nodes(t)| <= g.numCgs * 32
  }

  function InodeOf(t: Tree, p: Path): nat
    requires IsNode(t, p)
  {
    if p in t.dirs then t.dirs[p].inode else t.files[p].inode
  }

  // ---------------------------------------------------------------- nodes read back

  /** The data of node `p` found room: see `Intact`. */
  ghost predicate IntactAt(g: Geometry, t: Tree, p: Path)
    requires g.cgSize > 0 && IsNode(t, p)
  {
    var k := InodeOf(t, p);
    FIRST_INODE <= k < FIRST_INODE + |Nodes(t)| && Intact(g, Nodes(t), k - FIRST_INODE)
  }

  /** An intact directory reads back as '.', '..' and its sorted children; any other does not read. */
  ghost predicate DirReads(g: Geometry, t: Tree, img: seq<byte>, p: Path)
    requires g.cgSize > 0 && p in t.dirs
  {
    ReadDirectory(img, t.dirs[p].inode) ==
    if IntactAt(g, t, p) then Some(EfsDir.Raw(DirEntries(t, t.dirs[p]))) else None
  }

  /** A file reads back as what is left of it, and is not taken for a directory. */
  ghost predicate FileReads(g: Geometry, t: Tree, img: seq<byte>, p: Path)
    requires g.cgSize > 0 && p in t.files
  {
    var k := t.files[p].inode;
    && FIRST_INODE <= k < FIRST_INODE + |Nodes(t)|
    && Nodes(t)[k - FIRST_INODE].data == FileData(t.files[p])
    && ReadFile(img, k) == Recovered(g, Nodes(t), k - FIRST_INODE, Block(img, 1))
    && ReadDirectory(img, k) == None
  }

  ghost predicate DirsRead(g: Geometry, t: Tree, img: seq<byte>)
    requires g.cgSize > 0
  {
    forall p :: p in t.dirs ==> DirReads(g, t, img, p)
  }

  ghost predicate FilesRead(g: Geometry, t: Tree, img: seq<byte>)
    requires g.cgSize > 0
  {
    forall p :: p in t.files ==> FileReads(g, t, img, p)
  }

  lemma ModeReads(g: Geometry, ns: seq<Node>, now: int, img: seq<byte>, j: nat)
    requires Roomy(g) && ImageOk(g, ns, now, img) && FIRST_INODE + |ns| <= g.numCgs * 32 && j < |ns| && Readable(ns[j])
    ensures ReadInode(img, FIRST_INODE + j).Some? && ReadInode(img, FIRST_INODE + j).value.mode == ns[j].inode.mode
  {
    hide ImageOk, ReadInode, Consistent, ExtsAt;
    NodeInodeReads(g, ns, now, img, j);
  }

  lemma ReadDirectoryIs(img: seq<byte>, k: int)
    requires ReadInode(img, k).Some?
    ensures ReadDirectory(img, k) ==
            if FileType(ReadInode(img, k).value.mode) != S_IFDIR || ReadFile(img, k).None? then None
            else EfsDirPack.ReadDir(ReadFile(img, k).value)
  {
    hide ReadInode, ReadData, FileType, EfsDirPack.ReadDir;
  }

  lemma DirNodeReadable(t: Tree, p: Path)
    requires p in t.dirs
    ensures Readable(DirNode(t, p)) && DirNode(t, p).inode.mode == t.dirs[p].mode
  {
    hide DirEntries, CountChildren, EfsDirPack.Pack;
  }

  lemma FileNodeReadable(t: Tree, p: Path)
    requires p in t.files && FileOk(t.files[p])
    ensures Readable(FileNode(t, p)) && FileType(FileNode(t, p).inode.mode) != S_IFDIR
    ensures FileNode(t, p).data == FileData(t.files[p])
  {}

  lemma DirNodeIs(t: Tree, p: Path)
    requires p in t.dirs && EfsDirPack.Pack(DirEntries(t, t.dirs[p])).Data?
    ensures DirNode(t, p).data == EfsDirPack.Pack(DirEntries(t, t.dirs[p])).bytes && DirEntries(t, t.dirs[p]) != []
  {
    hide EfsDirPack.Pack, CountChildren, ChildEntries, SortPaths;
  }

  /** A directory's data is one or more whole blocks, and reads back. */
  lemma DirNodeData(t: Tree, p: Path)
    requires p in t.dirs && EfsDirPack.Pack(DirEntries(t, t.dirs[p])).Data?
    ensures var d := DirNode(t, p).data;
            d != [] && |d| % 512 == 0 && EfsDirPack.ReadDir(d) == Some(EfsDir.Raw(DirEntries(t, t.dirs[p])))
  {
    hide EfsDirPack.Pack, EfsDirPack.ReadDir, EfsDirPack.Greedy, EfsDir.Raw, EfsDir.AllPackable, DirEntries, DirNode;
    DirNodeIs(t, p);
    EfsDirPack.PackSucceedsIff(DirEntries(t, t.dirs[p]));
    EfsDirPack.DirRoundTrip(DirEntries(t, t.dirs[p]));
  }

  /** The superblock's replica is no directory block. */
  lemma SuperIsNoDirblk(g: Geometry, ns: seq<Node>, now: int, img: seq<byte>)
    requires Roomy(g) && ImageOk(g, ns, now, img)
    ensures EfsDir.ReadDirblk(Block(img, 1)) == None
  {
    GroupTotals(g);
    hide ImageOk, StartAt, EfsDir.ReadSlots, EfsSuper.Body, Consistent, NumDataBlocks;
    SuperCopies(g, ns, now, img);
    hide Block;
    SuperStarts(FinalSuper(g, ns, now));
  }

  lemma SuperStarts(s: EfsSuper.Superblock)
    requires EfsSuper.Packable(s) && 0 <= s.size <= 0x100_0000
    ensures Get16(SuperBlockBytes(s), 0) < 0xBEEF
  {
    hide EfsSuper.Names, EfsSuper.Counts, EfsSuper.Checksum;
    var b := SuperBlockBytes(s);
    assert b[..4] == Be32(s.size);
    assert b[0] == b[..4][0] && b[1] == b[..4][1];
  }

  lemma OverlaidDir(d: seq<byte>, sb: seq<byte>)
    requires d != [] && |d| % 512 == 0 && |sb| == BLOCK_SIZE && EfsDir.ReadDirblk(sb) == None
    ensures EfsDirPack.ReadDir(Overlaid(d, sb)) == None
  {
    hide EfsDir.ReadDirblk, EfsDirPack.ReadDir;
    var a := d[..|d| - 512];
    assert 512 * (BlocksFor(|d|) - 1) == |d| - 512;
    assert Overlaid(d, sb) == a + sb;
    EfsDirPack.BadLastBlock(a, sb);
  }

  lemma DirRecovered(g: Geometry, t: Tree, now: int, img: seq<byte>, p: Path)
    requires WrittenImage(g, t, now, img) && p in t.dirs
    ensures DirReads(g, t, img, p)
  {
    hide TreeOk, Ready, PlainTree, DirsPack, ImageOk, Consistent, Nodes, ReadDirectory, ReadFile, ReadInode, Readable, DirNode,
      Intact, Direct12, DirOrder, DirEntries, EfsDir.Raw, EfsDirPack.Pack, EfsDirPack.ReadDir, EfsDir.ReadDirblk, Overlaid, Block;
    var j := DirByPath(t, p);
    var ns := Nodes(t);
    DirNodeReadable(t, p);
    DirPacks(t, p);
    DirNodeData(t, p);
    DirModes(t, p);
    ModeReads(g, ns, now, img, j);
    ReadDirectoryIs(img, FIRST_INODE + j);
    NodeRecovered(g, ns, now, img, j);
    if !Intact(g, ns, j) && Direct12(g, ns, j) {
      SuperIsNoDirblk(g, ns, now, img);
      OverlaidDir(ns[j].data, Block(img, 1));
    }
  }

  lemma DirModes(t: Tree, p: Path)
    requires PlainTree(t) && p in t.dirs
    ensures FileType(t.dirs[p].mode) == S_IFDIR
  {}

  lemma FileIsOk(t: Tree, p: Path)
    requires PlainTree(t) && p in t.files
    ensures FileOk(t.files[p])
  {}

  lemma FileRecovered(g: Geometry, t: Tree, now: int, img: seq<byte>, p: Path)
    requires WrittenImage(g, t, now, img) && p in t.files
    ensures FileReads(g, t, img, p)
  {
    hide TreeOk, Ready, PlainTree, DirsPack, ImageOk, Consistent, Nodes, ReadDirectory, ReadFile, ReadInode, Readable, FileNode,
      FileOk, Recovered, DirOrder, FileOrder, Block;
    var i := FileByPath(t, p);
    FileIsOk(t, p);
    FileNodeReadable(t, p);
    ModeReads(g, Nodes(t), now, img, |DirOrder(t)| + i);
    ReadDirectoryIs(img, FIRST_INODE + |DirOrder(t)| + i);
    NodeRecovered(g, Nodes(t), now, img, |DirOrder(t)| + i);
  }

  /** Every inode of a written image gives back what is left of its node. */
  lemma EverythingReads(g: Geometry, t: Tree, now: int, img: seq<byte>)
    requires WrittenImage(g, t, now, img)
    ensures DirsRead(g, t, img) && FilesRead(g, t, img)
  {
    hide DirReads, FileReads;
    forall p | p in t.dirs ensures DirReads(g, t, img, p) { DirRecovered(g, t, now, img, p); }
    forall p | p in t.files ensures FileReads(g, t, img, p) { FileRecovered(g, t, now, img, p); }
  }

  /** The image holds the whole tree: every directory with its listing, every file byte for byte. */
  ghost predicate AllRead(t: Tree, img: seq<byte>) {
    && (forall p :: p in t.dirs ==> DirWhole(t, img, p))
    && (forall p :: p in t.files ==> FileWhole(t, img, p))
  }

  ghost predicate DirWhole(t: Tree, img: seq<byte>, p: Path)
    requires p in t.dirs
  {
    ReadDirectory(img, t.dirs[p].inode) == Some(EfsDir.Raw(DirEntries(t, t.dirs[p])))
  }

  ghost predicate FileWhole(t: Tree, img: seq<byte>, p: Path)
    requires p in t.files
  {
    ReadFile(img, t.files[p].inode) == Some(FileData(t.files[p]))
  }

  lemma DirWholeIff(g: Geometry, t: Tree, now: int, img: seq<byte>, i: nat)
    requires WrittenImage(g, t, now, img) && i < |DirOrder(t)|
    ensures var p := DirOrder(t)[i]; p in t.dirs && (DirWhole(t, img, p) <==> Survives(g, Nodes(t), i, Block(img, 1)))
  {
    hide TreeOk, Ready, PlainTree, DirsPack, ImageOk, Consistent, Nodes, ReadDirectory, DirNode, NumDataBlocks, Demand, ExtsAt,
      DirOrder, FileOrder, DirEntries, EfsDir.Raw, EfsDirPack.ReadDir, EfsDirPack.Pack, EfsDir.ReadDirblk, Overlaid, EndsAs, Block;
    DirAt(t, i);
    var p, ns := DirOrder(t)[i], Nodes(t);
    DirRecovered(g, t, now, img, p);
    DirPacks(t, p);
    DirNodeData(t, p);
    if Survives(g, ns, i, Block(img, 1)) && !Intact(g, ns, i) {
      SuperIsNoDirblk(g, ns, now, img);
      OverlaidSame(ns[i].data, Block(img, 1));
      OverlaidDir(ns[i].data, Block(img, 1));
    }
  }

  lemma FileWholeIff(g: Geometry, t: Tree, now: int, img: seq<byte>, i: nat)
    requires WrittenImage(g, t, now, img) && i < |FileOrder(t)|
    ensures var p := FileOrder(t)[i];
            p in t.files && (FileWhole(t, img, p) <==> Survives(g, Nodes(t), |DirOrder(t)| + i, Block(img, 1)))
  {
    hide TreeOk, Ready, PlainTree, DirsPack, ImageOk, Consistent, Nodes, ReadFile, FileNode, FileOk, Survives, DirOrder, FileOrder,
      Block, FileData, Readable;
    FileAt(t, i);
    var p := FileOrder(t)[i];
    FileIsOk(t, p);
    FileNodeReadable(t, p);
    NodeReadsIff(g, Nodes(t), now, img, |DirOrder(t)| + i);
  }

  lemma NodeSurvives(g: Geometry, t: Tree, now: int, img: seq<byte>, j: nat)
    requires WrittenImage(g, t, now, img) && AllRead(t, img) && j < |Nodes(t)|
    ensures Survives(g, Nodes(t), j, Block(img, 1))
  {
    var d := |DirOrder(t)|;
    hide WrittenImage, Survives, Block, DirWhole, FileWhole, NodeOf, DirOrder, FileOrder;
    if j < d { DirWholeIff(g, t, now, img, j); } else { FileWholeIff(g, t, now, img, j - d); }
  }

  lemma SurvivingDir(g: Geometry, t: Tree, now: int, img: seq<byte>, p: Path)
    requires WrittenImage(g, t, now, img) && p in t.dirs
    requires forall j :: 0 <= j < |Nodes(t)| ==> Survives(g, Nodes(t), j, Block(img, 1))
    ensures DirWhole(t, img, p)
  {
    hide TreeOk, PlainTree, DirsPack, ImageOk, Consistent, NodeOf, Ready, Survives, DirOrder, FileOrder, Block, DirWhole, DirNode;
    var i := DirByPath(t, p);
    DirWholeIff(g, t, now, img, i);
  }

  lemma SurvivingFile(g: Geometry, t: Tree, now: int, img: seq<byte>, p: Path)
    requires WrittenImage(g, t, now, img) && p in t.files
    requires forall j :: 0 <= j < |Nodes(t)| ==> Survives(g, Nodes(t), j, Block(img, 1))
    ensures FileWhole(t, img, p)
  {
    hide TreeOk, PlainTree, DirsPack, ImageOk, Consistent, NodeOf, Ready, Survives, DirOrder, FileOrder, Block, FileWhole, FileNode;
    var i := FileByPath(t, p);
    FileWholeIff(g, t, now, img, i);
  }

  /** The whole tree reads back if and only if every node survives. */
  lemma AllReadIff(g: Geometry, t: Tree, now: int, img: seq<byte>)
    requires WrittenImage(g, t, now, img)
    ensures AllRead(t, img) <==> forall j :: 0 <= j < |Nodes(t)| ==> Survives(g, Nodes(t), j, Block(img, 1))
  {
    assert g.cgSize > 0;
    hide WrittenImage, Nodes, Survives, Block, DirWhole, FileWhole;
    if AllRead(t, img) {
      forall j | 0 <= j < |Nodes(t)| ensures Survives(g, Nodes(t), j, Block(img, 1)) { NodeSurvives(g, t, now, img, j); }
    }
    if forall j :: 0 <= j < |Nodes(t)| ==> Survives(g, Nodes(t), j, Block(img, 1)) {
      forall p | p in t.dirs ensures DirWhole(t, img, p) { SurvivingDir(g, t, now, img, p); }
      forall p | p in t.files ensures FileWhole(t, img, p) { SurvivingFile(g, t, now, img, p); }
    }
  }

  /** The place of `p` among the nodes. */
  lemma PlaceOf(t: Tree, p: Path) returns (j: nat)
    requires Ready(t) && IsNode(t, p)
    ensures j < |Nodes(t)| && InodeOf(t, p) == FIRST_INODE + j
  {
    hide Ready, DirNode, FileNode, DirOrder, FileOrder;
    if p in t.dirs {
      j := DirByPath(t, p);
    } else {
      var i := FileByPath(t, p);
      j := |DirOrder(t)| + i;
    }
  }

  lemma DirPacks(t: Tree, p: Path)
    requires DirsPack(t) && p in t.dirs
    ensures EfsDirPack.Pack(DirEntries(t, t.dirs[p])).Data?
  {}

  // -------------------------------------------------------------------- listings

  function NameOf(t: Tree, p: Path): string
    requires IsNode(t, p)
  {
    if p in t.dirs then t.dirs[p].name else t.files[p].name
  }

  lemma {:induction false} ChildEntriesAt(t: Tree, cs: seq<Path>)
    requires forall i :: 0 <= i < |cs| ==> IsNode(t, cs[i])
    ensures |ChildEntries(t, cs)| == |cs|
    ensures forall i :: 0 <= i < |cs| ==> ChildEntries(t, cs)[i] == EfsDir.Dirent(InodeOf(t, cs[i]), NameOf(t, cs[i]))
  {
    if cs != [] { ChildEntriesAt(t, cs[..|cs| - 1]); }
  }

  /** The sorted children of `p`. */
  function Children(t: Tree, p: Path): seq<Path>
    requires p in t.dirs
  {
    SortPaths(t.dirs[p].entries)
  }

  /** `cs` are the nodes whose parent is `p`, each once. */
  ghost predicate ExactChildren(t: Tree, p: Path, cs: seq<Path>) {
    NoDup(cs) && forall c :: c in cs <==> IsNode(t, c) && c != [] && Parent(c) == p
  }

  lemma ChildrenExact(t: Tree, p: Path)
    requires TreeOk(t) && p in t.dirs
    ensures ExactChildren(t, p, Children(t, p))
  {
    var es := t.dirs[p].entries;
    assert EntriesOk(t, p);
    assert forall c :: IsNode(t, c) && c != [] && Parent(c) == p ==> c in es;
    hide TreeOk;
    SortPathsSorts(es);
    NoDupPermutation(es, SortPaths(es));
    hide SortPaths;
  }

  lemma NodeName(t: Tree, p: Path)
    requires TreeOk(t) && IsNode(t, p) && p != []
    ensures NameOf(t, p) == Name(p) && Parent(p) in t.dirs && Parent(p) !in t.files
  {}

  /** What a listing holds: '.', '..', and each child under its own name. */
  ghost predicate IsListing(t: Tree, p: Path, es: seq<EfsDir.RawDirent>)
    requires p in t.dirs
  {
    var cs := Children(t, p);
    && |es| == 2 + |cs| && ExactChildren(t, p, cs)
    && es[0] == EfsDir.RawDirent(t.dirs[p].inode, EfsDir.Encode("."))
    && es[1] == EfsDir.RawDirent(t.dirs[p].parentInode, EfsDir.Encode(".."))
    && forall i :: 0 <= i < |cs| ==> IsNode(t, cs[i]) && es[2 + i] == EfsDir.RawDirent(InodeOf(t, cs[i]), EfsDir.Encode(Name(cs[i])))
  }

  lemma EntryAt(t: Tree, p: Path, i: nat)
    requires TreeOk(t) && p in t.dirs && i < |Children(t, p)|
    ensures |DirEntries(t, t.dirs[p])| == 2 + |Children(t, p)|
    ensures var c := Children(t, p)[i];
            IsNode(t, c) && DirEntries(t, t.dirs[p])[2 + i] == EfsDir.Dirent(InodeOf(t, c), Name(c))
  {
    var cs := Children(t, p);
    hide TreeOk, Children, NameOf, InodeOf, ChildEntries, SortPaths, Name;
    ChildrenExact(t, p);
    assert cs[i] in cs;
    forall j | 0 <= j < |cs|
      ensures IsNode(t, cs[j])
    {
      assert cs[j] in cs;
    }
    hide ExactChildren, IsNode;
    NodeName(t, cs[i]);
    ChildEntriesAt(t, cs);
    assert DirEntries(t, t.dirs[p])[2..] == ChildEntries(t, cs) by { ChildrenAreSorted(t, p); }
    assert DirEntries(t, t.dirs[p])[2 + i] == DirEntries(t, t.dirs[p])[2..][i];
  }

  lemma ChildrenAreSorted(t: Tree, p: Path)
    requires p in t.dirs
    ensures Children(t, p) == SortPaths(t.dirs[p].entries)
  {}

  lemma EntryCount(t: Tree, p: Path)
    requires TreeOk(t) && p in t.dirs
    ensures |DirEntries(t, t.dirs[p])| == 2 + |Children(t, p)|
  {
    var cs := Children(t, p);
    ChildrenExact(t, p);
    forall j | 0 <= j < |cs|
      ensures IsNode(t, cs[j])
    {
      assert cs[j] in cs;
    }
    hide TreeOk, SortPaths, ExactChildren, ChildEntries;
    ChildEntriesAt(t, cs);
  }

  lemma ListingExact(t: Tree, p: Path)
    requires TreeOk(t) && p in t.dirs
    ensures IsListing(t, p, EfsDir.Raw(DirEntries(t, t.dirs[p])))
  {
    hide TreeOk, IsNode, InodeOf, EfsDir.Encode, Children, ExactChildren, Name, ChildEntries;
    ChildrenExact(t, p);
    EntryCount(t, p);
    var es := DirEntries(t, t.dirs[p]);
    assert es[0] == EfsDir.Dirent(t.dirs[p].inode, ".") && es[1] == EfsDir.Dirent(t.dirs[p].parentInode, "..");
    hide DirEntries;
    forall i | 0 <= i < |Children(t, p)|
      ensures var c := Children(t, p)[i];
              IsNode(t, c) && EfsDir.Raw(es)[2 + i] == EfsDir.RawDirent(InodeOf(t, c), EfsDir.Encode(Name(c)))
    {
      EntryAt(t, p, i);
    }
  }

  // -------------------------------------------------------------------- resolving

  lemma {:induction false} FindOnly(es: seq<EfsDir.RawDirent>, name: seq<byte>, k: nat)
    requires forall i :: 0 <= i < |es| && es[i].name == name ==> es[i].ino == k
    ensures Find(es, name) == if exists i :: 0 <= i < |es| && es[i].name == name then Some(k) else None
  {
    if es != [] && es[0].name != name {
      FindOnly(es[1..], name, k);
      assert forall i :: 0 < i < |es| ==> es[i] == es[1..][i - 1];
      assert forall i :: 0 <= i < |es| - 1 ==> es[1..][i] == es[i + 1];
    }
  }

  predicate Ascii(s: string) { forall i :: 0 <= i < |s| ==> s[i] < 128 as char }

  lemma EncodeInjective(a: string, b: string)
    requires Ascii(a) && Ascii(b) && EfsDir.Encode(a) == EfsDir.Encode(b)
    ensures a == b
  {
    forall i | 0 <= i < |a| ensures a[i] == b[i] {
      assert EfsDir.Encode(a)[i] == EfsDir.Encode(b)[i];
    }
  }

  /** An entry of that name in a listing is the child of that name. */
  lemma EntryIsChild(t: Tree, p: Path, es: seq<EfsDir.RawDirent>, name: string, i: nat)
    requires PlainTree(t) && p in t.dirs && IsListing(t, p, es) && PlainName(name)
    requires i < |es| && es[i].name == EfsDir.Encode(name)
    ensures IsNode(t, p + [name]) && es[i].ino == InodeOf(t, p + [name])
  {
    hide EfsDir.Encode, InodeOf, NoDup, Children;
    var cs := Children(t, p);
    if i == 0 {
      EncodeInjective(".", name);
    } else if i == 1 {
      EncodeInjective("..", name);
    } else {
      var c := cs[i - 2];
      assert c in cs;
      EncodeInjective(Name(c), name);
      assert c == Parent(c) + [Name(c)];
    }
  }

  /** Looking a plain name up in a listing finds the child of that name, if there is one. */
  lemma FindChild(t: Tree, p: Path, es: seq<EfsDir.RawDirent>, name: string)
    requires PlainTree(t) && p in t.dirs && IsListing(t, p, es) && PlainName(name)
    ensures Find(es, EfsDir.Encode(name)) == if IsNode(t, p + [name]) then Some(InodeOf(t, p + [name])) else None
  {
    var c := p + [name];
    var k := if IsNode(t, c) then InodeOf(t, c) else 0;
    forall i | 0 <= i < |es| && es[i].name == EfsDir.Encode(name)
      ensures IsNode(t, c) && es[i].ino == k
    {
      EntryIsChild(t, p, es, name, i);
    }
    FindOnly(es, EfsDir.Encode(name), k);
    if IsNode(t, c) {
      var cs := Children(t, p);
      hide Children, EfsDir.Encode, InodeOf, PlainTree;
      assert Parent(c) == p && Name(c) == name;
      assert c in cs;
      var i :| 0 <= i < |cs| && cs[i] == c;
      assert es[2 + i].name == EfsDir.Encode(name);
    }
  }

  ghost predicate PlainPath(p: Path) { forall i :: 0 <= i < |p| ==> PlainName(p[i]) }

  /** All directories above `p` are intact. */
  ghost predicate Reachable(g: Geometry, t: Tree, p: Path)
    requires g.cgSize > 0
  {
    forall n :: 0 <= n < |p| ==> p[..n] in t.dirs && IntactAt(g, t, p[..n])
  }

  lemma ReachableStep(g: Geometry, t: Tree, q: Path, name: string)
    requires g.cgSize > 0
    ensures Reachable(g, t, q + [name]) <==> Reachable(g, t, q) && q in t.dirs && IntactAt(g, t, q)
  {
    hide IntactAt;
    var p := q + [name];
    assert forall n :: 0 <= n <= |q| ==> p[..n] == q[..n];
    assert q[..|q|] == q;
    if Reachable(g, t, p) {
      forall n | 0 <= n < |q| ensures q[..n] in t.dirs && IntactAt(g, t, q[..n]) { assert p[..n] in t.dirs; }
      assert p[..|q|] in t.dirs;
    }
  }

  lemma DirRead(g: Geometry, t: Tree, img: seq<byte>, q: Path)
    requires g.cgSize > 0 && TreeOk(t) && DirsRead(g, t, img) && q in t.dirs
    ensures var r := ReadDirectory(img, t.dirs[q].inode);
            (r.Some? <==> IntactAt(g, t, q)) && (r.Some? ==> IsListing(t, q, r.value))
  {
    assert DirReads(g, t, img, q);
    hide ReadDirectory, IsListing, EfsDir.Raw, DirEntries, TreeOk, IntactAt;
    ListingExact(t, q);
  }

  lemma FileRead(g: Geometry, t: Tree, img: seq<byte>, q: Path)
    requires g.cgSize > 0 && FilesRead(g, t, img) && q in t.files
    ensures ReadDirectory(img, t.files[q].inode) == None
  {
    assert FileReads(g, t, img, q);
  }

  lemma ResolveUnfolds(img: seq<byte>, q: Path, name: string)
    ensures Resolve(img, q + [name]) ==
            if Resolve(img, q).None? || ReadDirectory(img, Resolve(img, q).value).None? then None
            else Find(ReadDirectory(img, Resolve(img, q).value).value, EfsDir.Encode(name))
  {
    assert (q + [name])[..|q|] == q;
    hide ReadDirectory, Find;
  }

  /** Whatever path is looked up in the image, it is found exactly when it is in the tree and all directories
      above it found room. */
  lemma {:induction false} ResolveFindsTree(g: Geometry, t: Tree, img: seq<byte>, p: Path)
    requires g.cgSize > 0 && TreeOk(t) && PlainTree(t) && [] in t.dirs && t.dirs[[]].inode == ROOT_INODE
    requires DirsRead(g, t, img) && FilesRead(g, t, img) && PlainPath(p)
    ensures Resolve(img, p) == if IsNode(t, p) && Reachable(g, t, p) then Some(InodeOf(t, p)) else None
  {
    hide TreeOk, PlainTree, DirsRead, FilesRead, ReadDirectory, Find, EfsDir.Encode, PlainName, IsListing, IntactAt;
    if p != [] {
      var q, name := p[..|p| - 1], p[|p| - 1];
      ResolveFindsTree(g, t, img, q);
      assert Parent(p) == q && q + [name] == p && PlainName(name);
      hide Resolve, Reachable;
      ReachableStep(g, t, q, name);
      ResolveUnfolds(img, q, name);
      if IsNode(t, p) { NodeName(t, p); }
      if q in t.dirs {
        DirRead(g, t, img, q);
        if IntactAt(g, t, q) { FindChild(t, q, ReadDirectory(img, t.dirs[q].inode).value, name); }
      } else if q in t.files {
        FileRead(g, t, img, q);
      }
    }
  }

  /** The whole image reads back, as far as it found room: a path leads to a node exactly when it is in the tree
      and all directories above it are intact; a file gives back what is left of it, its exact bytes if it is
      intact; a directory is listed with exactly its children, or not at all. */
  lemma WholeImageReadsBack(g: Geometry, t: Tree, now: int, img: seq<byte>, p: Path)
    requires WrittenImage(g, t, now, img) && PlainPath(p)
    ensures Resolve(img, p) == if IsNode(t, p) && Reachable(g, t, p) then Some(InodeOf(t, p)) else None
    ensures p in t.files ==> FileReads(g, t, img, p)
    ensures p in t.dirs ==>
              var r := ReadDirectory(img, t.dirs[p].inode);
              (r.Some? <==> IntactAt(g, t, p)) && (r.Some? ==> IsListing(t, p, r.value))
  {
    EverythingReads(g, t, now, img);
    WrittenTree(g, t, now, img);
    hide WrittenImage, ReadDirectory, Resolve, PlainTree, TreeOk, IsListing, FileReads, DirReads, PlainPath, Reachable, IntactAt;
    ResolveFindsTree(g, t, img, p);
    if p in t.dirs { DirRead(g, t, img, p); }
  }

  lemma WrittenTree(g: Geometry, t: Tree, now: int, img: seq<byte>)
    requires WrittenImage(g, t, now, img)
    ensures TreeOk(t) && PlainTree(t) && [] in t.dirs && t.dirs[[]].inode == ROOT_INODE
  {
    hide Ready, ImageOk, DirsPack, Consistent, PlainTree;
  }
}
