/** `EFSBuilder`: collects files and directories and writes them as one image. */
module EfsBuilder {
  import opened Common
  import opened Bytes
  import opened Disk
  import opened EfsTree
  import opened EfsOrder
  import EfsDir
  import EfsDirPack
  import opened EfsGeometry
  import opened EfsAlloc
  import opened EfsInode
  import opened EfsImage
  import opened EfsPlan
  import opened EfsNumbering
  import EfsSuper

  class EFSBuilder {
    const imageBlocks: ImageSize
    var files: map<Path, FileEntry>
    var dirs: map<Path, DirEntry>
    var fileOrder: seq<Path>
    var dirOrder: seq<Path>
    var nextInode: nat
    var geometry: Geometry
    var blockBitmap: seq<bool>
    var nextDataBlock: int

    ghost function T(): Tree
      reads this
    {
      Tree(dirs, files, dirOrder, fileOrder)
    }

    constructor (sizeMb: int, now: int)
      ensures T() == Empty(now) && imageBlocks == ImageBlocks(sizeMb) && nextInode == ROOT_INODE + 1
    {
      imageBlocks := ImageBlocks(sizeMb);
      files, fileOrder := map[], [];
      dirs := map[[] := DirEntry("/", OrDir(0x1ED), 0, 0, now, ROOT_INODE, ROOT_INODE, [])];
      dirOrder := [[]];
      nextInode := ROOT_INODE + 1;
      geometry := Geometry(0, 0, 0, 0, 0, 0);
      blockBitmap, nextDataBlock := [], 0;
    }

    // -------------------------------------------------------- collecting entries

    /** `_ensure_parent_dirs`. */
    method EnsureParentDirs(p: Path, m: Meta)
      modifies this`dirs, this`dirOrder
      ensures T() == EnsureParents(old(T()), p, m)
      decreases |p|, 0
    {
      if p == [] { return; }
      for i := 1 to |p|
        invariant T() == EnsureDirs(old(T()), p, i - 1, m)
      {
        if p[..i] !in dirs {
          EnsureDirsAgain(old(T()), p, i, m);
          AddDirectory(p[..i], 0x1ED, m);
        }
      }
    }

    /** `add_directory`. */
    method AddDirectory(p: Path, mode: int, m: Meta)
      modifies this`dirs, this`dirOrder
      ensures T() == EfsTree.AddDirectory(old(T()), p, mode, m)
      decreases |p|, 1
    {
      if p == [] { return; }
      EnsureParentDirs(p, m);
      if p !in dirs {
        dirs := dirs[p := DirEntry(Name(p), OrDir(mode), m.uid, m.gid, m.mtime, 0, 0, [])];
        dirOrder := dirOrder + [p];
        var parent := Parent(p);
        if parent in dirs && p !in dirs[parent].entries {
          dirs := dirs[parent := dirs[parent].(entries := dirs[parent].entries + [p])];
        }
      }
    }

    /** `add_file`. */
    method AddFile(p: Path, mode: int, size: int, data: seq<byte>, linkTarget: string, m: Meta)
      modifies this`dirs, this`dirOrder, this`files, this`fileOrder
      ensures T() == EfsTree.AddFile(old(T()), p, FileEntry(Name(p), mode, m.uid, m.gid, size, m.mtime, data, linkTarget, 0, 0), m)
    {
      EnsureParentDirs(p, m);
      if p !in files { fileOrder := fileOrder + [p]; }
      files := files[p := FileEntry(Name(p), mode, m.uid, m.gid, size, m.mtime, data, linkTarget, 0, 0)];
      var parent := Parent(p);
      if parent in dirs {
        dirs := dirs[parent := dirs[parent].(entries := dirs[parent].entries + [p])];
      }
    }

    // --------------------------------------------------------------- inode numbers

    method NumberDir(p: Path)
      requires p in dirs
      modifies this`dirs, this`nextInode
      ensures nextInode == old(nextInode) + if old(dirs)[p].inode == 0 then 1 else 0
      ensures var n := if old(dirs)[p].inode == 0 then old(nextInode) else old(dirs)[p].inode;
              var parent := if Parent(p) == p then n else if Parent(p) in old(dirs) then old(dirs)[Parent(p)].inode else ROOT_INODE;
              dirs == old(dirs)[p := old(dirs)[p].(inode := n, parentInode := parent)]
    {
      if dirs[p].inode == 0 {
        dirs := dirs[p := dirs[p].(inode := nextInode)];
        nextInode := nextInode + 1;
      }
      var parent := Parent(p);
      var parentInode := if parent in dirs then dirs[parent].inode else ROOT_INODE;
      dirs := dirs[p := dirs[p].(parentInode := parentInode)];
    }

    method NumberFile(p: Path)
      requires p in files
      modifies this`files, this`nextInode
      ensures nextInode == old(nextInode) + 1
      ensures var parent := if Parent(p) in dirs then dirs[Parent(p)].inode else ROOT_INODE;
              files == old(files)[p := old(files)[p].(inode := old(nextInode), parentInode := parent)]
    {
      files := files[p := files[p].(inode := nextInode)];
      nextInode := nextInode + 1;
      var parent := Parent(p);
      var parentInode := if parent in dirs then dirs[parent].inode else ROOT_INODE;
      files := files[p := files[p].(parentInode := parentInode)];
    }

    /** `allocate_inodes`. */
    method AllocateInodes()
      requires TreeOk(T()) && NormalPaths(T()) && Unnumbered(T()) && nextInode == ROOT_INODE + 1
      modifies this`dirs, this`files, this`nextInode
      ensures SameButNumbers(old(T()), T()) && Numbered(T())
      ensures nextInode == ROOT_INODE + |Order(T())|
    {
      var ds, fs := SortPaths(dirOrder), SortPaths(fileOrder);
      ghost var t := T();
      hide TreeOk, NormalPaths, Unnumbered, SortPaths, DirLoop, FileLoop, ParentsEarlier, Lists, NoDup, IsNumberOf;
      ReadyToNumber(t);
      NumberDirs(ds);
      ReadyForFiles(t.dirs, dirs, files, ds, fs);
      NumberFiles(ds, fs);
      hide DirsNumbered, FilesNumbered, SameButNumbers;
      NumberingDone(t, T(), ds, fs);
    }

    method NumberDirs(ds: seq<Path>)
      requires DirLoop(dirs, dirs, ds, 0) && ParentsEarlier(ds) && |ds| >= 1 && nextInode == ROOT_INODE + 1
      modifies this`dirs, this`nextInode
      ensures DirLoop(old(dirs), dirs, ds, |ds|) && nextInode == ROOT_INODE + |ds|
    {
      hide DirLoop;
      RootIsNumbered(dirs, ds);
      dirs := dirs[[] := dirs[[]].(inode := ROOT_INODE)];
      for i := 0 to |ds|
        invariant nextInode == ROOT_INODE + (if i == 0 then 1 else i) && DirLoop(old(dirs), dirs, ds, i)
      {
        DirStep(old(dirs), dirs, ds, i, nextInode);
        NumberDir(ds[i]);
      }
    }

    method NumberFiles(ds: seq<Path>, fs: seq<Path>)
      requires FileLoop(files, files, dirs, ds, fs, 0) && nextInode == ROOT_INODE + |ds|
      modifies this`files, this`nextInode
      ensures FileLoop(old(files), files, dirs, ds, fs, |fs|) && nextInode == ROOT_INODE + |ds| + |fs|
    {
      for i := 0 to |fs|
        invariant nextInode == ROOT_INODE + |ds| + i && FileLoop(old(files), files, dirs, ds, fs, i)
      {
        FileStep(old(files), files, dirs, ds, fs, i);
        hide FileLoop;
        NumberFile(fs[i]);
      }
    }

    // ------------------------------------------------------------ block allocation

    /** `_allocate_blocks`. The source's branch for an empty extent cannot be reached: the end of a
        group's data area is always ahead. */
    method AllocateBlocks(numBlocks: nat) returns (exts: seq<Extent>)
      requires geometry.cgSize > 0 && nextDataBlock >= geometry.firstCg >= 0
      modifies this`nextDataBlock, this`blockBitmap
      ensures Alloc(geometry, old(nextDataBlock), numBlocks, 0) == (exts, nextDataBlock)
      ensures blockBitmap == MarkAll(old(blockBitmap), exts)
    {
      hide Alloc, MarkAll, Mark, SkipInodes, ExtentLength;
      var g := geometry;
      var remain: nat, off: nat := numBlocks, 0;
      exts := [];
      MarkNone(blockBitmap);
      ghost var all := Alloc(g, nextDataBlock, numBlocks, 0);
      assert [] + all.0 == all.0;
      while remain > 0
        invariant nextDataBlock >= g.firstCg && geometry == g
        invariant var rest := Alloc(g, nextDataBlock, remain, off);
                  all == (exts + rest.0, rest.1)
        invariant blockBitmap == MarkAll(old(blockBitmap), exts)
      {
        AllocStep(g, exts, nextDataBlock, remain, off);
        var pos := PastInodes(g, nextDataBlock);
        nextDataBlock := pos;
        if pos >= g.totalBlocks {
          assert exts + [] == exts;
          return;
        }
        var avail := RoomAt(g, pos, remain);
        var e := Extent(pos, avail, off, 0);
        MarkAllSnoc(old(blockBitmap), exts, e);
        exts := exts + [e];
        MarkUsed(pos, avail);
        nextDataBlock := pos + avail;
        remain, off := remain - avail, off + avail;
      }
      AllocNone(g, nextDataBlock, off);
      assert exts + [] == exts;
    }

    /** Skips a group's inode blocks. */
    static method PastInodes(g: Geometry, start: int) returns (pos: int)
      requires g.cgSize > 0 && start >= g.firstCg
      ensures pos == SkipInodes(g, start)
    {
      pos := start;
      var rel := pos - g.firstCg;
      if rel % g.cgSize < INODE_BLOCKS {
        pos := g.firstCg + rel / g.cgSize * g.cgSize + INODE_BLOCKS;
      }
    }

    /** How long an extent at `pos` can be. */
    static method RoomAt(g: Geometry, pos: int, remain: nat) returns (avail: nat)
      requires g.cgSize > 0 && g.firstCg <= pos < g.totalBlocks && remain > 0
      ensures avail == ExtentLength(g, pos, remain)
    {
      var dataEnd := g.firstCg + ((pos - g.firstCg) / g.cgSize + 1) * g.cgSize;
      assert dataEnd == DataEnd(g, pos);
      DataEndIsAhead(g, pos);
      avail := Min(Min(dataEnd - pos, remain), Min(MAX_EXTENT_LENGTH, g.totalBlocks - pos));
    }

    method MarkUsed(pos: nat, len: nat)
      modifies this`blockBitmap
      ensures blockBitmap == Mark(old(blockBitmap), pos, len)
    {
      for i := 0 to len
        invariant blockBitmap == Mark(old(blockBitmap), pos, i)
      {
        if pos + i < |blockBitmap| { blockBitmap := blockBitmap[pos + i := true]; }
      }
    }

    /** The bitmap set-up in `build`. With groups of no more than their inode blocks nothing is left free; with groups
        of negative size the filesystem ends before its first group, and marking that raises. */
    method InitBitmap() returns (ok: bool)
      requires Consistent(geometry)
      modifies this`blockBitmap, this`nextDataBlock
      ensures ok <==> geometry.cgSize >= 0
      ensures ok ==> nextDataBlock == geometry.firstCg + INODE_BLOCKS
      ensures ok && geometry.cgSize > INODE_BLOCKS ==> BitmapOk(geometry, blockBitmap, 0)
      ensures ok && geometry.cgSize <= INODE_BLOCKS ==> AllMarked(blockBitmap, geometry.totalBlocks, geometry.totalBlocks)
    {
      var g := geometry;
      MarkedSize(g);
      if g.totalBlocks < g.firstCg { return false; }
      blockBitmap := seq(g.totalBlocks, _ => false);
      MarkUsed(0, g.firstCg);
      if g.cgSize > INODE_BLOCKS { GroupsStart(g, blockBitmap); }
      for cg := 0 to g.numCgs
        invariant geometry == g
        invariant g.cgSize > INODE_BLOCKS ==> GroupsMarked(g, blockBitmap, cg)
        invariant g.cgSize <= INODE_BLOCKS ==> AllMarked(blockBitmap, g.totalBlocks, g.firstCg + cg * g.cgSize)
      {
        hide GroupsMarked, AllMarked, Consistent, Mark;
        MulMono(g.cgSize, 0, cg);
        if g.cgSize > INODE_BLOCKS { MarkGroup(g, blockBitmap, cg); } else { MarkSmallGroup(g, blockBitmap, cg); }
        MarkUsed(g.firstCg + cg * g.cgSize, INODE_BLOCKS);
      }
      if g.cgSize > INODE_BLOCKS { AllGroupsMarked(g, blockBitmap); }
      nextDataBlock := g.firstCg + INODE_BLOCKS;
      ok := true;
    }

    // -------------------------------------------------------------- file contents

    /** Allocates blocks for `data` and writes it there, extent by extent. */
    method WriteNode(f: DiskFile, data: seq<byte>) returns (exts: seq<Extent>)
      requires Roomy(geometry) && nextDataBlock >= geometry.firstCg
      requires DataIndex(geometry, nextDataBlock) <= NumDataBlocks(geometry)
      requires BitmapOk(geometry, blockBitmap, DataIndex(geometry, nextDataBlock))
      requires |f.data| <= geometry.totalBlocks * 512
      modifies this`nextDataBlock, this`blockBitmap, f
      ensures Alloc(geometry, old(nextDataBlock), BlocksFor(|data|), 0) == (exts, nextDataBlock)
      ensures nextDataBlock >= geometry.firstCg
      ensures |f.data| <= geometry.totalBlocks * 512
      ensures var g := geometry;
              var i, j := DataIndex(g, old(nextDataBlock)), DataIndex(g, nextDataBlock);
              && j == Min(i + BlocksFor(|data|), NumDataBlocks(g)) && BitmapOk(g, blockBitmap, j)
              && OnDisk(g, f.data, data, i, j - i) && SameOutside(g, old(f.data), f.data, i, j)
    {
      ghost var g, i := geometry, DataIndex(geometry, nextDataBlock);
      ghost var bits := blockBitmap;
      AllocIsBump(g, nextDataBlock, BlocksFor(|data|), 0);
      hide BitmapOk, DataIndex, Alloc, MarkAll, Maps;
      exts := AllocateBlocks(BlocksFor(|data|));
      ghost var m := DataIndex(g, nextDataBlock) - i;
      MarkAllOk(g, bits, exts, 0, i, m);
      WriteExtents(f, g, data, exts, i, m);
    }

    static method WriteExtents(f: DiskFile, ghost g: Geometry, data: seq<byte>, exts: seq<Extent>, ghost i: nat, ghost m: nat)
      requires Roomy(g) && Maps(g, exts, 0, i, m) && i + m <= NumDataBlocks(g)
      requires |f.data| <= g.totalBlocks * 512
      modifies f
      ensures |f.data| <= g.totalBlocks * 512
      ensures OnDisk(g, f.data, data, i, m) && SameOutside(g, old(f.data), f.data, i, i + m)
    {
      ghost var done := 0;
      assert exts[0..] == exts;
      for n := 0 to |exts|
        invariant 0 <= done && PartWritten(g, old(f.data), f.data, data, exts[n..], i, done, m)
      {
        var e := exts[n];
        ghost var rest := exts[n..];
        assert rest[0] == e && rest[1..] == exts[n + 1..];
        PartStep(g, old(f.data), f.data, data, rest, i, done, m);
        hide PartWritten;
        f.Seek(e.bn * 512);
        f.Write(ExtentBytes(data, e));
        done := done + e.length;
      }
    }

    // ------------------------------------------------------------ the inode table

    /** Writes one inode slot; false when packing the inode raises. */
    static method WriteSlot(f: DiskFile, inodes: Inodes, k: int) returns (ok: bool)
      modifies f
      ensures ok <==> (k in inodes ==> Packable(inodes[k]))
      ensures ok ==> f.data == WriteAt(old(f.data), old(f.pos), TableSlot(inodes, k)) && f.pos == old(f.pos) + INODE_SIZE
    {
      hide Packable, InodeBytes, WriteAt;
      var bytes := Zeros(INODE_SIZE);
      if k in inodes {
        if !Packable(inodes[k]) { return false; }
        bytes := PackInode(inodes[k]);
      }
      f.Write(bytes);
      ok := true;
    }

    /** Writes the 32 inode slots of one group. */
    static method WriteGroup(f: DiskFile, inodes: Inodes, base: int) returns (ok: bool)
      modifies f
      ensures ok <==> forall k :: base <= k < base + INODES_PER_CG && k in inodes ==> Packable(inodes[k])
      ensures ok ==> f.data == WriteAt(old(f.data), old(f.pos), TableBytes(inodes, base, INODES_PER_CG))
    {
      hide Packable, TableSlot, WriteAt, TableBytes;
      SlotsStart(f.data, f.pos, inodes, base);
      for slot := 0 to INODES_PER_CG
        invariant SlotsWritten(old(f.data), old(f.pos), inodes, base, slot, f.data, f.pos)
      {
        ghost var d, pos := f.data, f.pos;
        var done := WriteSlot(f, inodes, base + slot);
        if !done { return false; }
        SlotStep(old(f.data), old(f.pos), inodes, base, slot, d, pos);
        hide SlotsWritten;
      }
      ok := true;
    }

    /** One pass over the inode areas: slot k of the table gets inode number k + shift. */
    static method WriteInodeTable(f: DiskFile, g: Geometry, inodes: Inodes, shift: int) returns (ok: bool)
      requires Roomy(g) && |f.data| <= g.totalBlocks * 512
      requires forall k :: k in inodes ==> shift <= k < shift + g.numCgs * 32
      modifies f
      ensures ok <==> AllPackable(inodes)
      ensures |f.data| <= g.totalBlocks * 512 || !ok
      ensures ok ==> TablePass(g, inodes, shift, old(f.data), f.data, g.numCgs)
    {
      for cg := 0 to g.numCgs
        invariant |f.data| <= g.totalBlocks * 512
        invariant TablePass(g, inodes, shift, old(f.data), f.data, cg)
        invariant forall k :: k in inodes && k < shift + cg * 32 ==> Packable(inodes[k])
      {
        var base := shift + cg * 32;
        GroupBounds(g, cg);
        TablePassStep(g, inodes, shift, old(f.data), f.data, cg);
        hide TablePass, WriteAt, TableBytes, Packable;
        f.Seek((g.firstCg + cg * g.cgSize) * 512);
        var done := WriteGroup(f, inodes, base);
        if !done { return false; }
      }
      ok := true;
    }

    // ------------------------------------------------------------- the whole image

    /** The link counts' sub-directory counts. */
    method SubdirCounts() returns (counts: map<Path, nat>)
      requires Lists(dirOrder, dirs)
      ensures counts.Keys == dirs.Keys
      ensures forall p :: p in dirs ==> counts[p] == CountChildren(dirOrder, p)
    {
      hide CountChildren, Lists, Parent;
      counts := map p | p in dirs :: 0;
      assert dirOrder[..0] == [];
      NoChildren();
      for i := 0 to |dirOrder|
        invariant counts.Keys == dirs.Keys
        invariant forall p :: p in dirs ==> counts[p] == CountChildren(dirOrder[..i], p)
      {
        ChildrenStep(dirOrder, i);
        var parent := Parent(dirOrder[i]);
        if parent in counts { counts := counts[parent := counts[parent] + 1]; }
      }
      assert dirOrder[..|dirOrder|] == dirOrder;
    }

    /** The inode dictionary before any data is placed. */
    method MakeInodes(counts: map<Path, nat>) returns (inodes: Inodes)
      requires Ready(T()) && Roomy(geometry)
      requires counts.Keys == dirs.Keys && forall p :: p in dirs ==> counts[p] == CountChildren(dirOrder, p)
      ensures inodes == InodesAt(geometry, Nodes(T()), 0)
    {
      hide Nodes, Ready, Order, DirOrder, FileOrder;
      ghost var t, ns := T(), Nodes(T());
      inodes := map[];
      for i := 0 to |dirOrder|
        invariant InodesSoFar(ns, inodes)
        invariant forall j :: 0 <= j < i ==> dirOrder[j] in t.dirs && t.dirs[dirOrder[j]].inode in inodes
      {
        var p := dirOrder[i];
        DirInodeRight(t, i);
        inodes := inodes[dirs[p].inode := DirInode(dirs[p], counts[p])];
      }
      for i := 0 to |fileOrder|
        invariant InodesSoFar(ns, inodes)
        invariant forall j :: 0 <= j < |dirOrder| ==> dirOrder[j] in t.dirs && t.dirs[dirOrder[j]].inode in inodes
        invariant forall j :: 0 <= j < i ==> fileOrder[j] in t.files && t.files[fileOrder[j]].inode in inodes
      {
        var p := fileOrder[i];
        FileInodeRight(t, i);
        inodes := inodes[files[p].inode := FileInode(files[p])];
      }
      AllInodesMade(t, inodes, geometry);
    }

    /** `_build_directory_data`. */
    method BuildDirectoryData(d: DirEntry) returns (r: EfsDirPack.Outcome)
      ensures r == EfsDirPack.Pack(DirEntries(T(), d))
    {
      var children := SortPaths(d.entries);
      var all := [EfsDir.Dirent(d.inode, "."), EfsDir.Dirent(d.parentInode, "..")];
      for i := 0 to |children|
        invariant all == [EfsDir.Dirent(d.inode, "."), EfsDir.Dirent(d.parentInode, "..")] + ChildEntries(T(), children[..i])
      {
        assert children[..i + 1][..i] == children[..i];
        var c := children[i];
        if c in dirs {
          all := all + [EfsDir.Dirent(dirs[c].inode, dirs[c].name)];
        } else if c in files {
          all := all + [EfsDir.Dirent(files[c].inode, files[c].name)];
        }
      }
      assert children[..|children|] == children;
      r := EfsDirPack.PackEntries(all);
    }

    /** Places the data of node `i`, and updates its inode. */
    method PlaceNode(f: DiskFile, ghost nodes: seq<Node>, ghost i: nat, k: int, size: int, data: seq<byte>, inodes: Inodes)
      returns (inodes': Inodes)
      requires Roomy(geometry) && Writing(geometry, nodes, i, f.data, nextDataBlock, blockBitmap) && i < |nodes|
      requires inodes == InodesAt(geometry, nodes, i) && k == FIRST_INODE + i
      requires nodes[i].data == data && nodes[i].size == size
      modifies this`nextDataBlock, this`blockBitmap, f
      ensures Writing(geometry, nodes, i + 1, f.data, nextDataBlock, blockBitmap)
      ensures inodes' == InodesAt(geometry, nodes, i + 1)
    {
      ghost var g, img, pos, bits := geometry, f.data, nextDataBlock, blockBitmap;
      WritingReady(g, nodes, i, img, pos, bits);
      hide Writing, InodesAt, DataIndex, BitmapOk, OnDisk, SameOutside, Consistent;
      var exts := WriteNode(f, data);
      WritingStep(g, nodes, i, img, pos, bits, f.data, nextDataBlock, blockBitmap, exts);
      InodesStep(g, nodes, i);
      InodesAtStart(g, nodes, i);
      inodes' := inodes;
      if data != [] {
        inodes' := inodes[k := inodes[k].(size := size, numExtents := |exts|, extents := exts)];
      }
    }

    /** The directory loop of `_write_image`; false when a directory cannot be packed. */
    method WriteDirs(f: DiskFile, inodes0: Inodes, ghost t: Tree, ghost ns: seq<Node>) returns (ok: bool, inodes: Inodes)
      requires T() == t && Ready(t) && Roomy(geometry) && ns == Nodes(t) && inodes0 == InodesAt(geometry, ns, 0)
      requires Writing(geometry, ns, 0, f.data, nextDataBlock, blockBitmap)
      modifies this`nextDataBlock, this`blockBitmap, f
      ensures ok <==> DirsPack(t)
      ensures ok ==> inodes == InodesAt(geometry, ns, |DirOrder(t)|)
      ensures ok ==> Writing(geometry, ns, |DirOrder(t)|, f.data, nextDataBlock, blockBitmap)
    {
      hide Nodes, Writing, InodesAt, Ready, SortPaths, FileOrder, Consistent, DirEntries;
      var ds := SortPaths(dirOrder);
      inodes := inodes0;
      for i := 0 to |ds|
        invariant inodes == InodesAt(geometry, ns, i)
        invariant Writing(geometry, ns, i, f.data, nextDataBlock, blockBitmap)
        invariant forall j :: 0 <= j < i ==> ds[j] in t.dirs && EfsDirPack.Pack(DirEntries(t, t.dirs[ds[j]])).Data?
      {
        DirAt(t, i);
        var d := dirs[ds[i]];
        var r := BuildDirectoryData(d);
        if !r.Data? { return false, inodes; }
        inodes := PlaceNode(f, ns, i, d.inode, |r.bytes|, r.bytes, inodes);
      }
      AllDirsPack(t);
      ok := true;
    }

    /** The file loop of `_write_image`: links, then files with data. */
    method WriteFiles(f: DiskFile, inodes0: Inodes, ghost t: Tree, ghost ns: seq<Node>) returns (inodes: Inodes)
      requires T() == t && Ready(t) && Roomy(geometry) && ns == Nodes(t)
      requires inodes0 == InodesAt(geometry, ns, |DirOrder(t)|)
      requires Writing(geometry, ns, |DirOrder(t)|, f.data, nextDataBlock, blockBitmap)
      modifies this`nextDataBlock, this`blockBitmap, f
      ensures inodes == InodesAt(geometry, ns, |ns|)
      ensures Writing(geometry, ns, |ns|, f.data, nextDataBlock, blockBitmap)
    {
      hide Nodes, Writing, InodesAt, Ready, SortPaths, DirOrder, Consistent;
      var fs := SortPaths(fileOrder);
      ghost var base := |DirOrder(t)|;
      inodes := inodes0;
      for i := 0 to |fs|
        invariant inodes == InodesAt(geometry, ns, base + i)
        invariant Writing(geometry, ns, base + i, f.data, nextDataBlock, blockBitmap)
      {
        FileAt(t, i);
        var fe := files[fs[i]];
        if FileType(fe.mode) == S_IFLNK {
          var link := EfsDir.Encode(fe.linkTarget);
          inodes := PlaceNode(f, ns, base + i, fe.inode, |link|, link, inodes);
        } else {
          inodes := PlaceNode(f, ns, base + i, fe.inode, fe.size, fe.data, inodes);
        }
      }
    }

    method CountFreeBlocks() returns (free: nat)
      ensures free == CountFree(blockBitmap)
    {
      free := 0;
      for i := 0 to |blockBitmap|
        invariant free == CountFree(blockBitmap[..i])
      {
        assert blockBitmap[..i + 1][..i] == blockBitmap[..i];
        if !blockBitmap[i] { free := free + 1; }
      }
      assert blockBitmap[..|blockBitmap|] == blockBitmap;
    }

    /** The superblock's fields. */
    method SuperRecord(now: int, nodes: nat, ghost used: int) returns (s: EfsSuper.Superblock)
      requires nextInode == FIRST_INODE + nodes
      requires CountFree(blockBitmap) == NumDataBlocks(geometry) - used
      ensures s == SuperFor(geometry, used, nodes, now)
    {
      var g := geometry;
      var free := CountFreeBlocks();
      s := EfsSuper.Superblock(
        g.totalBlocks, g.firstCg, g.cgSize, INODE_BLOCKS, 16, 16, g.numCgs, 0, 0, now, EfsSuper.EFS_MAGIC,
        [101, 102, 115], [112, 97, 99, 107], (g.totalBlocks + 7) / 8, free,
        g.numCgs * g.inodesPerCg - nodes, 0, g.totalBlocks - 1, nextInode - 1, []);
    }

    /** The end of `_write_image`: bitmap, superblock, replica and the last byte of the image. `nodes` is the
        number of inodes. */
    method FinishImage(f: DiskFile, now: int, nodes: nat, ghost used: int) returns (ok: bool, ghost bits: seq<byte>)
      requires geometry.totalBlocks >= 1 && nextInode == FIRST_INODE + nodes
      requires CountFree(blockBitmap) == NumDataBlocks(geometry) - used
      modifies f
      ensures ok <==> EfsSuper.Packable(SuperFor(geometry, used, nodes, now))
      ensures IsBitmap(blockBitmap, bits)
      ensures ok ==> f.data == Finish(geometry, old(f.data), bits, SuperBlockBytes(SuperFor(geometry, used, nodes, now)))
    {
      hide WriteAt, EfsSuper.Packable, SuperFor;
      var g := geometry;
      f.Seek(2 * 512);
      var bitmap := EfsSuper.BuildBitmap(blockBitmap);
      bits := bitmap;
      f.Write(bitmap);
      var s := SuperRecord(now, nodes, used);
      if !EfsSuper.Packable(s) { return false, bits; }
      var checksum := EfsSuper.CalculateChecksum(EfsSuper.SuperBytes(s, 0));
      WriteSupers(f, g, EfsSuper.SuperBytes(s, checksum));
      ok := true;
    }

    static method WriteSupers(f: DiskFile, g: Geometry, sb: seq<byte>)
      requires g.totalBlocks >= 1
      modifies f
      ensures f.data == WriteAt(WriteAt(WriteAt(old(f.data), BLOCK_SIZE, sb), (g.totalBlocks - 1) * 512, sb),
                                g.totalBlocks * 512 - 1, [0])
    {
      hide WriteAt;
      f.Seek(BLOCK_SIZE);
      f.Write(sb);
      f.Seek((g.totalBlocks - 1) * 512);
      f.Write(sb);
      f.Seek(g.totalBlocks * 512 - 1);
      f.Write([0]);
    }

    /** Boot block, superblock and bitmap, still empty. */
    static method WriteBlankHeader(f: DiskFile, n: nat)
      requires f.data == [] && f.pos == 0
      modifies f
      ensures |f.data| == n * 512
    {
      for i := 0 to n
        invariant f.pos == i * 512 == |f.data|
      {
        ZerosAppended(f.data, f.pos);
        f.Write(Zeros(BLOCK_SIZE));
      }
    }

    /** From the first inode pass to the last file: makes the inodes and places all data. */
    method PlaceAll(f: DiskFile, ghost t: Tree, ghost ns: seq<Node>) returns (ok: bool, inodes: Inodes)
      requires T() == t && Ready(t) && Roomy(geometry) && ns == Nodes(t)
      requires BitmapOk(geometry, blockBitmap, 0) && nextDataBlock == geometry.firstCg + INODE_BLOCKS
      requires FIRST_INODE + |ns| <= geometry.numCgs * 32 && |f.data| <= geometry.totalBlocks * 512
      modifies this`nextDataBlock, this`blockBitmap, f
      ensures ok <==> AllPackable(InodesAt(geometry, ns, 0)) && DirsPack(t)
      ensures ok ==> inodes == InodesAt(geometry, ns, |ns|)
      ensures ok ==> Writing(geometry, ns, |ns|, f.data, nextDataBlock, blockBitmap)
    {
      hide Ready, Nodes, InodesAt, AllPackable, DirsPack, BitmapOk, TablePass, Writing, DirOrder, Consistent;
      var counts := SubdirCounts() by { ReadyLists(t); }
      inodes := MakeInodes(counts);
      InodeKeys(geometry, ns, 0);
      ok := WriteInodeTable(f, geometry, inodes, FIRST_INODE);
      if !ok { return; }
      WritingStart(geometry, ns, f.data, nextDataBlock, blockBitmap);
      ok, inodes := WriteDirs(f, inodes, t, ns);
      if !ok { return; }
      inodes := WriteFiles(f, inodes, t, ns);
    }

    /** `_write_image`. */
    method WriteImage(f: DiskFile, now: int, ghost t: Tree, ghost ns: seq<Node>) returns (ok: bool)
      requires T() == t && Ready(t) && Roomy(geometry) && ns == Nodes(t)
      requires BitmapOk(geometry, blockBitmap, 0) && nextDataBlock == geometry.firstCg + INODE_BLOCKS
      requires nextInode == FIRST_INODE + |ns| <= geometry.numCgs * 32
      requires f.data == [] && f.pos == 0
      modifies this`nextDataBlock, this`blockBitmap, f
      ensures ok <==> Encodable(geometry, t, now)
      ensures ok ==> ImageOk(geometry, ns, now, f.data)
    {
      hide Ready, Nodes, InodesAt, AllPackable, DirsPack, BitmapOk, TablePass, SuperFor, ImageOk, Writing, StartAt, CountFree, EfsSuper.Packable;
      ghost var g := geometry;
      RoomyHasBlocks(g);
      WriteBlankHeader(f, 2 + geometry.bitmapBlocks);
      var inodes: Inodes;
      ok, inodes := PlaceAll(f, t, ns);
      if !ok { return; }
      ghost var img1 := f.data;
      InodeKeys(g, ns, |ns|);
      WritingSize(g, ns, |ns|, f.data, nextDataBlock, blockBitmap);
      ok := WriteInodeTable(f, geometry, inodes, 0);
      if !ok { return; }
      ghost var img2 := f.data;
      FreeAtEnd(g, ns, img1, nextDataBlock, blockBitmap);
      ghost var bits: seq<byte>;
      InodeCount(g, ns, |ns|);
      ok, bits := FinishImage(f, now, |inodes|, StartAt(g, ns, |ns|));
      if ok { FinishedImage(g, ns, now, img1, img2, nextDataBlock, blockBitmap, bits); }
    }

    method TotalDataBytes() returns (n: nat)
      requires Lists(fileOrder, files)
      ensures n == DataBytes(fileOrder, files)
    {
      n := 0;
      for i := 0 to |fileOrder|
        invariant n == DataBytes(fileOrder[..i], files)
      {
        assert fileOrder[..i + 1][..i] == fileOrder[..i] && fileOrder[i] in fileOrder;
        n := n + |files[fileOrder[i]].data|;
      }
      assert fileOrder[..|fileOrder|] == fileOrder;
    }

    method PlanGeometry()
      requires TreeOk(T())
      modifies this`geometry
      ensures geometry == PlanFor(T(), imageBlocks)
      ensures KeysOk(T())
    {
      hide TreeOk, KeysOk, GeometryFor, DataBytes, Lists;
      TreeHasKeys(T());
      var bytes := TotalDataBytes();
      geometry := CalculateGeometry(|files| + |dirs|, bytes, imageBlocks);
    }

    /** `build`: geometry, inode numbers, bitmap, image. */
    method Build(f: DiskFile, now: int) returns (ok: bool)
      requires TreeOk(T()) && NormalPaths(T()) && Unnumbered(T()) && nextInode == ROOT_INODE + 1
      requires f.data == [] && f.pos == 0
      requires PlanFor(T(), imageBlocks).cgSize > INODE_BLOCKS || PlanFor(T(), imageBlocks).cgSize <= 0
      modifies this, f
      ensures geometry == PlanFor(T(), imageBlocks)
      ensures SameButNumbers(old(T()), T()) && Ready(T())
      ensures ok <==> Roomy(geometry) && Encodable(geometry, T(), now)
      ensures ok ==> Built(old(T()), T(), imageBlocks, now, f.data)
    {
      hide TreeOk, KeysOk, Numbered, NormalPaths, Unnumbered, SameButNumbers, Ready, Nodes, ImageOk, Encodable, Lists, Consistent,
        BitmapOk, GeometryFor, DataBytes;
      ghost var t0 := T();
      PlanGeometry();
      PlanFits(t0, imageBlocks);
      AllocateInodes();
      NumberedReady(t0, T(), imageBlocks);
      ok := InitBitmap();
      if !ok { return; }
      if geometry.cgSize == 0 {
        // The first allocation, for the root directory, divides by the size of a group.
        return false;
      }
      ok := WriteImage(f, now, T(), Nodes(T()));
    }
  }

  /** What `build` promises of the image it has written: `r` is the tree `t`, numbered. */
  ghost predicate Built(t: Tree, r: Tree, imageBlocks: ImageSize, now: int, img: seq<byte>) {
    var g := PlanFor(r, imageBlocks);
    SameButNumbers(t, r) && Ready(r) && Roomy(g) && Encodable(g, r, now) && ImageOk(g, Nodes(r), now, img)
  }

  lemma SamePlan(t: Tree, r: Tree, imageBlocks: ImageSize)
    requires SameButNumbers(t, r)
    ensures PlanFor(r, imageBlocks) == PlanFor(t, imageBlocks)
  {
    SameBytes(t, r, t.fileOrder);
    assert |r.dirs.Keys| == |t.dirs.Keys| && |r.files.Keys| == |t.files.Keys|;
    assert r.fileOrder == t.fileOrder;
    hide SameButNumbers, GeometryFor, DataBytes;
  }

  lemma SameCount(t: Tree, r: Tree)
    requires KeysOk(r) && SameButNumbers(t, r)
    ensures |Nodes(r)| == |t.dirOrder| + |t.fileOrder|
  {
    assert r.dirOrder == t.dirOrder && r.fileOrder == t.fileOrder;
    hide SameButNumbers, SortPaths, NoDup, Lists;
    OrderLists(r);
  }

  lemma NumberedReady(t: Tree, r: Tree, imageBlocks: ImageSize)
    requires KeysOk(t) && SameButNumbers(t, r) && Numbered(r)
    ensures Ready(r) && |Nodes(r)| == |t.dirOrder| + |t.fileOrder| && PlanFor(r, imageBlocks) == PlanFor(t, imageBlocks)
  {
    hide KeysOk, Numbered, SameButNumbers, Nodes, PlanFor;
    NumberingKeepsKeys(t, r);
    SameCount(t, r);
    SamePlan(t, r, imageBlocks);
  }

  lemma {:induction false} SameBytes(t: Tree, r: Tree, order: seq<Path>)
    requires SameButNumbers(t, r)
    ensures DataBytes(order, r.files) == DataBytes(order, t.files)
  {
    if order != [] { SameBytes(t, r, order[..|order| - 1]); }
  }

  lemma TreeHasKeys(t: Tree)
    requires TreeOk(t)
    ensures KeysOk(t) && Lists(t.dirOrder, t.dirs) && Lists(t.fileOrder, t.files)
  {}

  /** What makes `build` succeed: every inode can be packed before and after its data is placed, every
      directory can be packed, and so can the superblock. */
  ghost predicate Encodable(g: Geometry, t: Tree, now: int)
    requires Roomy(g)
  {
    var ns := Nodes(t);
    && AllPackable(InodesAt(g, ns, 0)) && DirsPack(t) && AllPackable(InodesAt(g, ns, |ns|))
    && EfsSuper.Packable(SuperFor(g, StartAt(g, ns, |ns|), |ns|, now))
  }

  lemma ReadyLists(t: Tree)
    requires Ready(t)
    ensures Lists(t.dirOrder, t.dirs)
  {}

  lemma ZerosAppended(d: seq<byte>, pos: nat)
    requires |d| == pos
    ensures |WriteAt(d, pos, Zeros(BLOCK_SIZE))| == pos + BLOCK_SIZE
  {}

  ghost predicate AllMarked(bitmap: seq<bool>, size: int, n: int) {
    |bitmap| == size && forall b :: 0 <= b < n && b < size ==> bitmap[b]
  }

  /** The groups take up the blocks from the first group to the last. */
  lemma MarkedSize(g: Geometry)
    requires Consistent(g)
    ensures g.totalBlocks >= g.firstCg <==> g.cgSize >= 0
    ensures g.firstCg + g.numCgs * g.cgSize == g.totalBlocks
  {
    if g.cgSize < 0 { MulMono(g.numCgs, g.cgSize, -1); } else { MulMono(g.numCgs, 0, g.cgSize); }
  }

  lemma MarkSmallGroup(g: Geometry, bitmap: seq<bool>, cg: int)
    requires 0 <= g.cgSize <= INODE_BLOCKS && AllMarked(bitmap, g.totalBlocks, g.firstCg + cg * g.cgSize)
    ensures AllMarked(Mark(bitmap, g.firstCg + cg * g.cgSize, INODE_BLOCKS), g.totalBlocks, g.firstCg + (cg + 1) * g.cgSize)
  {
    assert (cg + 1) * g.cgSize == cg * g.cgSize + g.cgSize;
  }

  lemma GroupsStart(g: Geometry, bitmap: seq<bool>)
    requires Roomy(g) && |bitmap| == g.totalBlocks
    requires forall b :: 0 <= b < |bitmap| ==> (bitmap[b] <==> b < g.firstCg)
    ensures GroupsMarked(g, bitmap, 0)
  {
    forall b | 0 <= b < |bitmap|
      ensures !(IsInodeBlock(g, b) && (b - g.firstCg) / g.cgSize < 0)
    {
      if b >= g.firstCg { GroupBelow(g, b); }
    }
  }
}
