/** Capacity: unless the groups are shrunk to fit a small image, everything that was added fits. */
module EfsCapacity {
  import opened Disk
  import opened EfsTree
  import opened EfsOrder
  import EfsDir
  import EfsDirPack
  import opened EfsGeometry
  import opened EfsAlloc
  import opened EfsImage
  import opened EfsPlan
  import opened EfsReadBack

  /** Names of at most 120 bytes (tar entries hold 100), link targets of at most a block. */
  ghost predicate ShortNames(t: Tree) {
    && (forall p :: p in t.dirs ==> |t.dirs[p].name| <= 120)
    && (forall p :: p in t.files ==> |t.files[p].name| <= 120)
    && (forall p :: p in t.files && IsLink(t.files[p]) ==> |FileData(t.files[p])| <= BLOCK_SIZE)
  }

  // ------------------------------------------------------------ counting the nodes

  ghost function EntryNodes(t: Tree, d: Path): set<Path> {
    if d in t.dirs then set e | e in t.dirs[d].entries else {}
  }

  ghost function SumEntries(t: Tree, ds: seq<Path>, n: nat): nat
    requires n <= |ds|
  {
    if n == 0 then 0 else SumEntries(t, ds, n - 1) + if ds[n - 1] in t.dirs then |t.dirs[ds[n - 1]].entries| else 0
  }

  ghost function EntrySet(t: Tree, ds: seq<Path>, n: nat): set<Path>
    requires n <= |ds|
  {
    if n == 0 then {} else EntrySet(t, ds, n - 1) + EntryNodes(t, ds[n - 1])
  }

  lemma EntryIffChild(t: Tree, d: Path, e: Path)
    requires TreeOk(t) && d in t.dirs
    ensures e in EntryNodes(t, d) <==> IsNode(t, e) && e != [] && Parent(e) == d
    ensures |EntryNodes(t, d)| == |t.dirs[d].entries|
  {
    assert EntriesOk(t, d);
    NoDupCount(t.dirs[d].entries);
  }

  lemma {:induction false} EntrySetIs(t: Tree, ds: seq<Path>, n: nat, e: Path)
    requires TreeOk(t) && n <= |ds| && forall i :: 0 <= i < |ds| ==> ds[i] in t.dirs
    ensures e in EntrySet(t, ds, n) <==> IsNode(t, e) && e != [] && Parent(e) in ds[..n]
  {
    hide TreeOk, IsNode, Parent, EntryNodes;
    if n > 0 {
      EntrySetIs(t, ds, n - 1, e);
      EntryIffChild(t, ds[n - 1], e);
      assert ds[..n] == ds[..n - 1] + [ds[n - 1]];
    }
  }

  ghost predicate AllDirs(t: Tree, ds: seq<Path>) { NoDup(ds) && forall i :: 0 <= i < |ds| ==> ds[i] in t.dirs }

  lemma EntriesApart(t: Tree, ds: seq<Path>, n: nat)
    requires TreeOk(t) && AllDirs(t, ds) && n < |ds|
    ensures EntrySet(t, ds, n) !! EntryNodes(t, ds[n])
  {
    hide TreeOk, IsNode, Parent, EntryNodes, EntrySet;
    forall e | e in EntryNodes(t, ds[n])
      ensures e !in EntrySet(t, ds, n)
    {
      EntrySetIs(t, ds, n, e);
      EntryIffChild(t, ds[n], e);
    }
  }

  lemma {:induction false} EntrySetCount(t: Tree, ds: seq<Path>, n: nat)
    requires TreeOk(t) && AllDirs(t, ds) && n <= |ds|
    ensures |EntrySet(t, ds, n)| == SumEntries(t, ds, n)
  {
    hide TreeOk, EntryNodes;
    if n > 0 {
      EntrySetCount(t, ds, n - 1);
      EntriesApart(t, ds, n - 1);
      EntryIffChild(t, ds[n - 1], []);
    }
  }

  lemma EntriesAreNodes(t: Tree, ds: seq<Path>, e: Path)
    requires TreeOk(t) && Lists(ds, t.dirs)
    ensures e in EntrySet(t, ds, |ds|) <==> IsNode(t, e) && e != []
  {
    forall i | 0 <= i < |ds| ensures ds[i] in t.dirs { assert ds[i] in ds; }
    hide TreeOk, Lists, Parent, EntrySet;
    EntrySetIs(t, ds, |ds|, e);
    assert ds[..|ds|] == ds;
    if IsNode(t, e) && e != [] { ParentListed(t, ds, e); }
  }

  lemma ListsAllDirs(t: Tree, ds: seq<Path>)
    requires Lists(ds, t.dirs)
    ensures AllDirs(t, ds)
  {
    forall i | 0 <= i < |ds| ensures ds[i] in t.dirs { assert ds[i] in ds; }
  }

  lemma NodeCount(dirs: set<Path>, files: set<Path>)
    requires [] in dirs && dirs !! files
    ensures |dirs + files - {[]}| == |dirs| + |files| - 1
  {
    assert |dirs + files| == |dirs| + |files|;
  }

  lemma RootFacts(t: Tree)
    requires TreeOk(t)
    ensures [] in t.dirs && t.dirs.Keys !! t.files.Keys
  {}

  /** Directory entries add up to the number of nodes but the root. */
  lemma EntriesCountNodes(t: Tree, ds: seq<Path>)
    requires TreeOk(t) && Lists(ds, t.dirs)
    ensures SumEntries(t, ds, |ds|) == |t.dirs| + |t.files| - 1
  {
    hide TreeOk, Lists, EntrySet, SumEntries, AllDirs;
    ListsAllDirs(t, ds);
    RootFacts(t);
    EntrySetCount(t, ds, |ds|);
    var all, nodes := EntrySet(t, ds, |ds|), t.dirs.Keys + t.files.Keys - {[]};
    forall e
      ensures e in all <==> e in nodes
    {
      EntriesAreNodes(t, ds, e);
    }
    assert all == nodes;
    NodeCount(t.dirs.Keys, t.files.Keys);
  }

  lemma ParentListed(t: Tree, ds: seq<Path>, e: Path)
    requires TreeOk(t) && Lists(ds, t.dirs) && IsNode(t, e) && e != []
    ensures Parent(e) in ds
  {}

  // ------------------------------------------------------------------- demand

  lemma DirDemand(t: Tree, p: Path)
    requires TreeOk(t) && ShortNames(t) && p in t.dirs && EfsDirPack.Pack(DirEntries(t, t.dirs[p])).Data?
    ensures 4 * NodeBlocks(DirNode(t, p)) <= |t.dirs[p].entries| + 5
  {
    hide EfsDirPack.Pack, DirEntries, EfsDirPack.Greedy, EfsDirPack.ReadDir, TreeOk, ShortNames, CountChildren, EfsDir.Raw;
    var es := DirEntries(t, t.dirs[p]);
    EfsDirPack.PackSucceedsIff(es);
    EfsDirPack.DirRoundTrip(es);
    ShortEntries(t, p);
    EfsDirPack.BlocksForShortNames(es);
    EntryTotal(t, p);
  }

  lemma EntryTotal(t: Tree, p: Path)
    requires TreeOk(t) && p in t.dirs
    ensures |DirEntries(t, t.dirs[p])| == |t.dirs[p].entries| + 2
  {
    EntryCount(t, p);
    hide TreeOk, DirEntries;
    SortPathsSorts(t.dirs[p].entries);
    assert |multiset(Children(t, p))| == |multiset(t.dirs[p].entries)|;
  }

  lemma ShortEntries(t: Tree, p: Path)
    requires TreeOk(t) && ShortNames(t) && p in t.dirs
    ensures forall i :: 0 <= i < |DirEntries(t, t.dirs[p])| ==> |DirEntries(t, t.dirs[p])[i].name| <= 120
  {
    EntryCount(t, p);
    var es := DirEntries(t, t.dirs[p]);
    forall i | 0 <= i < |es|
      ensures |es[i].name| <= 120
    {
      if i >= 2 { ShortEntry(t, p, i - 2); }
    }
  }

  lemma ShortEntry(t: Tree, p: Path, i: nat)
    requires TreeOk(t) && ShortNames(t) && p in t.dirs && i < |Children(t, p)|
    ensures 2 + i < |DirEntries(t, t.dirs[p])| && |DirEntries(t, t.dirs[p])[2 + i].name| <= 120
  {
    hide TreeOk, Children, DirEntries;
    EntryAt(t, p, i);
    var c := Children(t, p)[i];
    NodeName2(t, c);
  }

  lemma NodeName2(t: Tree, c: Path)
    requires TreeOk(t) && ShortNames(t) && IsNode(t, c)
    ensures |Name(c)| <= 120
  {}

  lemma {:induction false} DirsDemand(t: Tree, n: nat)
    requires TreeOk(t) && Ready(t) && ShortNames(t) && DirsPack(t) && n <= |DirOrder(t)|
    ensures 4 * Demand(Nodes(t), n) <= SumEntries(t, DirOrder(t), n) + 5 * n
  {
    hide TreeOk, Ready, ShortNames, NodeBlocks, DirNode, DirOrder, FileOrder, Nodes, DirEntries, EfsDirPack.Pack, DirsPack;
    if n > 0 {
      DirsDemand(t, n - 1);
      DirAt(t, n - 1);
      var p := DirOrder(t)[n - 1];
      assert Demand(Nodes(t), n) == Demand(Nodes(t), n - 1) + NodeBlocks(Nodes(t)[n - 1]);
      assert EfsDirPack.Pack(DirEntries(t, t.dirs[p])).Data? by { DirPacks(t, p); }
      DirDemand(t, p);
    }
  }

  lemma FileDemand(t: Tree, p: Path)
    requires ShortNames(t) && p in t.files
    ensures 512 * NodeBlocks(FileNode(t, p)) <= |t.files[p].data| + 512
  {}

  lemma {:induction false} FilesDemand(t: Tree, n: nat)
    requires Ready(t) && ShortNames(t) && n <= |FileOrder(t)|
    ensures var d := |DirOrder(t)|;
            512 * (Demand(Nodes(t), d + n) - Demand(Nodes(t), d)) <= DataBytes(FileOrder(t)[..n], t.files) + 512 * n
  {
    hide Ready, ShortNames, NodeBlocks, FileNode, DirOrder, FileOrder, Nodes;
    if n > 0 {
      FilesDemand(t, n - 1);
      FileAt(t, n - 1);
      FileDemand(t, FileOrder(t)[n - 1]);
      assert FileOrder(t)[..n][..n - 1] == FileOrder(t)[..n - 1];
    }
  }

  lemma {:induction false} DataBytesConcat(a: seq<Path>, b: seq<Path>, files: map<Path, FileEntry>)
    ensures DataBytes(a + b, files) == DataBytes(a, files) + DataBytes(b, files)
  {
    if b == [] {
      assert a + b == a;
    } else {
      assert (a + b)[..|a + b| - 1] == a + b[..|b| - 1];
      DataBytesConcat(a, b[..|b| - 1], files);
    }
  }

  lemma {:induction false} DataBytesInsert(s: seq<Path>, p: Path, files: map<Path, FileEntry>)
    ensures DataBytes(Insert(s, p), files) == DataBytes(s, files) + DataBytes([p], files)
  {
    if s == [] || PathLe(p, s[0]) {
      DataBytesConcat([p], s, files);
    } else {
      DataBytesInsert(s[1..], p, files);
      DataBytesConcat([s[0]], Insert(s[1..], p), files);
      DataBytesConcat([s[0]], s[1..], files);
      assert s == [s[0]] + s[1..];
    }
  }

  /** Sorting does not change the number of bytes. */
  lemma {:induction false} DataBytesSorted(s: seq<Path>, files: map<Path, FileEntry>)
    ensures DataBytes(SortPaths(s), files) == DataBytes(s, files)
  {
    if s != [] {
      DataBytesSorted(s[1..], files);
      DataBytesInsert(SortPaths(s[1..]), s[0], files);
      DataBytesConcat([s[0]], s[1..], files);
      assert s == [s[0]] + s[1..];
    }
  }

  /** Capacity: unless the groups are shrunk, the demand of directories, links and files stays below the
      number of data blocks, so no allocation is cut short and the replica's block is never handed out. */
  lemma EverythingFits(t: Tree, imageBlocks: ImageSize)
    requires TreeOk(t) && Ready(t) && ShortNames(t) && DirsPack(t)
    requires Unshrunk(t, imageBlocks)
    ensures PlanFor(t, imageBlocks).cgSize >= INODE_BLOCKS + 100
    ensures Demand(Nodes(t), |Nodes(t)|) < NumDataBlocks(PlanFor(t, imageBlocks))
  {
    var d, f, bytes := |t.dirs|, |t.files|, DataBytes(t.fileOrder, t.files);
    hide TreeOk, Ready, DirsPack, ShortNames, DirOrder, FileOrder, Nodes, GeometryFor, Shrinks, DataBytes, Demand, SumEntries, Lists;
    OrderCounts(t);
    EntriesCountNodes(t, DirOrder(t));
    DirsDemand(t, d);
    FilesDemand(t, f);
    FileBytes(t);
    DataAreaBound(f + d, bytes, imageBlocks);
    DemandArithmetic(d, f, bytes, Demand(Nodes(t), d), Demand(Nodes(t), d + f), GeometryFor(f + d, bytes, imageBlocks).numCgs);
  }

  lemma OrderCounts(t: Tree)
    requires Ready(t)
    ensures Lists(DirOrder(t), t.dirs) && |DirOrder(t)| == |t.dirs| && |FileOrder(t)| == |t.files|
    ensures |Nodes(t)| == |t.dirs| + |t.files|
  {
    OrderLists(t);
    hide Numbered, DirOrder, FileOrder;
    ListsCount(DirOrder(t), t.dirs);
    ListsCount(FileOrder(t), t.files);
  }

  lemma FileBytes(t: Tree)
    requires |FileOrder(t)| == |t.files|
    ensures DataBytes(FileOrder(t)[..|t.files|], t.files) == DataBytes(t.fileOrder, t.files)
  {
    DataBytesSorted(t.fileOrder, t.files);
    assert FileOrder(t)[..|t.files|] == FileOrder(t);
  }

  lemma DemandArithmetic(d: nat, f: nat, bytes: nat, dirs: nat, all: nat, cgs: int)
    requires 4 * dirs <= d + f - 1 + 5 * d && 512 * (all - dirs) <= bytes + 512 * f && 32 * cgs >= d + f + 100
    ensures all < CeilDiv(bytes, 512) + 50 * cgs
  {
    FloorDivBound(bytes + 511, 512);
  }
}
