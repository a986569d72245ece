/** Reading a finished image by the on-disk rules: superblock, inode slots, extents, directory blocks. */
module EfsRead {
  import opened Common
  import opened Bytes
  import opened Disk
  import opened EfsGeometry
  import opened EfsAlloc
  import opened EfsInode
  import opened EfsTree
  import EfsDir
  import EfsDirPack
  import EfsSuper
  import opened EfsImage

  // ------------------------------------------------------------------- the reader

  /** The inode with number `k`: groups of `cgfSize` blocks each start with `cgiSize` inode blocks. */
  function ReadInode(img: seq<byte>, k: int): Option<Inode> {
    if |img| < 1024 then None
    else
      var sb := EfsSuper.ParseSuper(Block(img, 1));
      if sb.magic != EfsSuper.EFS_MAGIC || sb.cgiSize <= 0 || k < 0 || k >= sb.ncg * (sb.cgiSize * 4) then None
      else
        var perCg := sb.cgiSize * 4;
        Some(ParseInode(SlotAt(img, sb.firstCg + k / perCg * sb.cgfSize + k % perCg / 4, k % perCg % 4)))
  }

  /** The bytes of a file, each found through the extent that covers its block. */
  function ReadData(img: seq<byte>, ino: Inode): Option<seq<byte>> {
    if ino.size < 0 || exists k :: 0 <= k < ino.size && FindBlock(ino.extents, k / 512).None? then None
    else
      Some(seq<byte>(ino.size, k requires 0 <= k < ino.size && FindBlock(ino.extents, k / 512).Some? =>
        Peek(img, FindBlock(ino.extents, k / 512).value * 512 + k % 512)))
  }

  function ReadFile(img: seq<byte>, k: int): Option<seq<byte>> {
    var ino := ReadInode(img, k);
    if ino.None? then None else ReadData(img, ino.value)
  }

  /** The entries of the directory with inode number `k`. */
  function ReadDirectory(img: seq<byte>, k: int): Option<seq<EfsDir.RawDirent>> {
    var ino := ReadInode(img, k);
    if ino.None? || FileType(ino.value.mode) != S_IFDIR then None
    else
      var data := ReadData(img, ino.value);
      if data.None? then None
      else
        var es := EfsDirPack.ReadDir(data.value);
        if es.None? then None else Some(es.value)
  }

  function Find(es: seq<EfsDir.RawDirent>, name: seq<byte>): Option<nat> {
    if es == [] then None
    else if es[0].name == name then Some(es[0].ino)
    else Find(es[1..], name)
  }

  /** Walks from the root directory, inode 2, component by component. */
  function Resolve(img: seq<byte>, p: Path): Option<nat> {
    if p == [] then Some(ROOT_INODE)
    else
      var parent := Resolve(img, p[..|p| - 1]);
      if parent.None? then None
      else
        var es := ReadDirectory(img, parent.value);
        if es.None? then None else Find(es.value, EfsDir.Encode(p[|p| - 1]))
  }

  // ------------------------------------------------------------- inodes read back

  lemma {:induction false} MapsFit(g: Geometry, exts: seq<Extent>, off: nat, i: nat, m: nat)
    requires Roomy(g) && Maps(g, exts, off, i, m) && i + m <= NumDataBlocks(g) && off + m <= NumDataBlocks(g)
    ensures forall k :: 0 <= k < |exts| ==> ExtentFits(exts[k])
    decreases |exts|
  {
    if exts != [] {
      var e := exts[0];
      ExtentInside(g, exts, off, i, m);
      GroupTotals(g);
      hide Run, SameGroup, Consistent, NumDataBlocks;
      MapsFit(g, exts[1..], off + e.length, i + e.length, m - e.length);
      assert forall k :: 0 < k < |exts| ==> exts[k] == exts[1..][k - 1];
    }
  }

  lemma GroupTotals(g: Geometry)
    requires Roomy(g)
    ensures NumDataBlocks(g) < g.totalBlocks <= 0x100_0000
  {}

  /** The superblock of the whole image: both its copies hold these bytes. */
  function FinalSuper(g: Geometry, nodes: seq<Node>, now: int): EfsSuper.Superblock {
    SuperFor(g, StartAt(g, nodes, |nodes|), |nodes|, now)
  }

  /** A reader finds the superblock, field for field, in block 1 and again in the last block, and the checksum in
      it is that of the block. */
  lemma SuperReads(g: Geometry, nodes: seq<Node>, now: int, img: seq<byte>)
    requires Roomy(g) && ImageOk(g, nodes, now, img)
    ensures |img| >= 1024
    ensures forall n :: n == 1 || n == g.totalBlocks - 1 ==>
              && EfsSuper.ParseSuper(Block(img, n)) == EfsSuper.Stored(FinalSuper(g, nodes, now))
              && Sign32(Get32(Block(img, n), EfsSuper.SUM_BYTES)) == EfsSuper.Checksum(Block(img, n))
  {
    hide EfsSuper.ParseSuper, EfsSuper.Checksum, EfsSuper.Stored, EfsSuper.Packable, FinalSuper, SuperBlockBytes, Block,
      ImageOk, Consistent, Get32, Sign32;
    RoomyHasBlocks(g);
    SuperCopies(g, nodes, now, img);
    SuperBlockReads(FinalSuper(g, nodes, now));
  }

  lemma SuperCopies(g: Geometry, nodes: seq<Node>, now: int, img: seq<byte>)
    requires Roomy(g) && ImageOk(g, nodes, now, img)
    ensures |img| == g.totalBlocks * 512 && EfsSuper.Packable(FinalSuper(g, nodes, now))
    ensures Block(img, 1) == SuperBlockBytes(FinalSuper(g, nodes, now)) == Block(img, g.totalBlocks - 1)
  {
    hide SuperFor, SuperBlockBytes, Block, TableOk, NodesOk, BitsOk, AllPackable, StartAt, EfsSuper.Packable;
  }

  lemma SuperBlockReads(s: EfsSuper.Superblock)
    requires EfsSuper.Packable(s)
    ensures var b := SuperBlockBytes(s);
            && EfsSuper.ParseSuper(b) == EfsSuper.Stored(s)
            && Sign32(Get32(b, EfsSuper.SUM_BYTES)) == EfsSuper.Checksum(b)
  {
    hide EfsSuper.SuperBytes, EfsSuper.ParseSuper, EfsSuper.Checksum, EfsSuper.Stored;
    EfsSuper.SuperRoundTrip(s, EfsSuper.Checksum(EfsSuper.SuperBytes(s, 0)));
    EfsSuper.ChecksumReads(s);
  }

  /** Blocks that the bitmap on disk has as free. */
  ghost function FreeBits(img: seq<byte>, n: nat): nat {
    if n == 0 then 0 else FreeBits(img, n - 1) + if DiskBit(img, n - 1) then 0 else 1
  }

  lemma {:induction false} FreeBitsCount(img: seq<byte>, bitmap: seq<bool>)
    requires forall b :: 0 <= b < |bitmap| ==> (bitmap[b] <==> DiskBit(img, b))
    ensures FreeBits(img, |bitmap|) == CountFree(bitmap)
  {
    hide DiskBit;
    if bitmap != [] { FreeBitsCount(img, bitmap[..|bitmap| - 1]); }
  }

  lemma FreeOnDisk(g: Geometry, nodes: seq<Node>, now: int, img: seq<byte>)
    requires Roomy(g) && ImageOk(g, nodes, now, img)
    ensures g.totalBlocks >= 0 && FreeBits(img, g.totalBlocks) == NumDataBlocks(g) - StartAt(g, nodes, |nodes|)
  {
    RoomyHasBlocks(g);
    StartMonotone(g, nodes, 0, |nodes|);
    var used := StartAt(g, nodes, |nodes|);
    assert BitsOk(g, img, used);
    hide ImageOk, StartAt, DiskBit, DataIndex, IsInodeBlock, NumDataBlocks;
    var bitmap := seq<bool>(g.totalBlocks, b requires 0 <= b < g.totalBlocks => DiskBit(img, b));
    assert BitmapOk(g, bitmap, used);
    FreeBitsCount(img, bitmap);
    FreeCount(g, bitmap, used);
  }

  /** What the superblock says of the image it is on, in either place: sizes, where the groups are, and how much is free. */
  lemma SuperSays(g: Geometry, nodes: seq<Node>, now: int, img: seq<byte>, n: int)
    requires Roomy(g) && ImageOk(g, nodes, now, img) && (n == 1 || n == g.totalBlocks - 1)
    ensures g.totalBlocks >= 0
    ensures var s := EfsSuper.ParseSuper(Block(img, n));
            && 512 * s.size == |img| && s.firstCg == g.firstCg && s.cgfSize == g.cgSize && s.cgiSize == 8 && s.ncg == g.numCgs
            && s.sectors == 16 && s.heads == 16 && s.dirty == 0 && s.padding == 0 && s.time == now && s.magic == 0x072959
            && s.fname == [101, 102, 115, 0, 0, 0] && s.fpack == [112, 97, 99, 107, 0, 0]
            && 8 * s.bmSize - 7 <= s.size <= 8 * s.bmSize && s.bmBlock == 0 && s.replSb == s.size - 1
            && s.tfree == FreeBits(img, g.totalBlocks) && s.tinode == 32 * s.ncg - |nodes|
            && s.lastIalloc == |nodes| + 1 && s.spare == Zeros(20)
  {
    SuperReads(g, nodes, now, img);
    FreeOnDisk(g, nodes, now, img);
    SuperCopies(g, nodes, now, img);
    hide ImageOk, StartAt, Block, EfsSuper.ParseSuper, FreeBits, NumDataBlocks, EfsSuper.Packable, EfsSuper.Checksum,
      SuperBlockBytes;
    NamesStored();
  }

  lemma NamesStored()
    ensures EfsSuper.Fixed([101, 102, 115], 6) == [101, 102, 115, 0, 0, 0]
    ensures EfsSuper.Fixed([112, 97, 99, 107], 6) == [112, 97, 99, 107, 0, 0] && EfsSuper.Fixed([], 20) == Zeros(20)
  {}

  lemma ImageParts(g: Geometry, nodes: seq<Node>, now: int, img: seq<byte>, c: int)
    requires Roomy(g) && ImageOk(g, nodes, now, img) && 0 <= c < g.numCgs
    ensures GroupTable(g, InodesAt(g, nodes, |nodes|), c * 32, img, c) && AllPackable(InodesAt(g, nodes, |nodes|))
  {
    hide GroupTable, InodesAt, AllPackable, SuperFor, DiskBit;
  }

  lemma GroupSlot(g: Geometry, inodes: Inodes, img: seq<byte>, k: int)
    requires Roomy(g) && 0 <= k < g.numCgs * 32 && GroupTable(g, inodes, k / 32 * 32, img, k / 32)
    ensures SlotAt(img, g.firstCg + k / 32 * g.cgSize + k % 32 / 4, k % 32 % 4) == TableSlot(inodes, k)
  {
    hide SlotAt, TableSlot, Consistent;
    var j := k % 32;
    assert SlotAt(img, GroupStart(g, k / 32) + j / 4, j % 4) == TableSlot(inodes, k / 32 * 32 + j);
  }

  /** Inode number k reads back from its slot in group k / 32. */
  lemma SlotReads(g: Geometry, nodes: seq<Node>, now: int, img: seq<byte>, k: int)
    requires Roomy(g) && ImageOk(g, nodes, now, img) && 0 <= k < g.numCgs * 32
    ensures ReadInode(img, k) == Some(ParseInode(TableSlot(InodesAt(g, nodes, |nodes|), k)))
  {
    hide ParseInode, TableSlot, InodesAt, SlotAt, EfsSuper.ParseSuper, ImageOk, GroupTable, AllPackable, StartAt, Consistent, Block;
    SuperReads(g, nodes, now, img);
    ImageParts(g, nodes, now, img, k / 32);
    GroupSlot(g, InodesAt(g, nodes, |nodes|), img, k);
    assert ReadInode(img, k) == Some(ParseInode(SlotAt(img, g.firstCg + k / 32 * g.cgSize + k % 32 / 4, k % 32 % 4)));
  }

  function Direct(exts: seq<Extent>): seq<Extent> {
    if |exts| > MAX_EXTENTS then exts[..MAX_EXTENTS] else exts
  }

  lemma NodeSlot(g: Geometry, nodes: seq<Node>, j: nat)
    requires Roomy(g) && j < |nodes| && AllPackable(InodesAt(g, nodes, |nodes|))
    ensures var ino := WithExtents(nodes[j], ExtsAt(g, nodes, j));
            Packable(ino) && TableSlot(InodesAt(g, nodes, |nodes|), FIRST_INODE + j) == InodeBytes(ino)
  {
    var inodes := InodesAt(g, nodes, |nodes|);
    hide WithExtents, ExtsAt, Packable, InodeBytes, Consistent;
    assert FIRST_INODE + j in inodes && inodes[FIRST_INODE + j] == WithExtents(nodes[j], ExtsAt(g, nodes, j));
  }

  /** A node's inode reads back, with its first twelve extents. */
  lemma NodeInodeReads(g: Geometry, nodes: seq<Node>, now: int, img: seq<byte>, j: nat)
    requires Roomy(g) && ImageOk(g, nodes, now, img) && j < |nodes| && FIRST_INODE + |nodes| <= g.numCgs * 32
    requires nodes[j].inode.extents == [] && nodes[j].inode.numExtents == 0
    ensures ReadInode(img, FIRST_INODE + j) ==
            Some(WithExtents(nodes[j], ExtsAt(g, nodes, j)).(extents := Direct(ExtsAt(g, nodes, j))))
  {
    hide ImageOk, GroupTable, AllPackable, Consistent, ReadInode, InodesAt, TableSlot, Packable, ParseInode, InodeBytes, ExtsAt, Direct;
    ImageParts(g, nodes, now, img, 0);
    NodeSlot(g, nodes, j);
    SlotReads(g, nodes, now, img, FIRST_INODE + j);
    NodeExtentsFit(g, nodes, j);
    EmptyNodeExtents(g, nodes, j);
    InodeReadsDirect(WithExtents(nodes[j], ExtsAt(g, nodes, j)));
  }

  lemma InodeReadsDirect(ino: Inode)
    requires Packable(ino) && ino.numExtents == |ino.extents|
    requires forall k :: 0 <= k < |ino.extents| ==> ExtentFits(ino.extents[k])
    ensures ParseInode(InodeBytes(ino)) == ino.(extents := Direct(ino.extents))
  {
    hide Packable, ParseInode, InodeBytes;
    InodeRoundTrip(ino);
    assert ino.extents[..|ino.extents|] == ino.extents;
  }

  lemma NodeExtentsFit(g: Geometry, nodes: seq<Node>, j: nat)
    requires Roomy(g) && j < |nodes|
    ensures forall k :: 0 <= k < |ExtsAt(g, nodes, j)| ==> ExtentFits(ExtsAt(g, nodes, j)[k])
  {
    GroupTotals(g);
    NodesAreBumped(g, nodes, j + 1);
    StartMonotone(g, nodes, 0, j);
    StartMonotone(g, nodes, j, j + 1);
    hide Maps, StartAt, ExtsAt, ExtentFits;
    MapsFit(g, ExtsAt(g, nodes, j), 0, StartAt(g, nodes, j), StartAt(g, nodes, j + 1) - StartAt(g, nodes, j));
  }

  lemma EmptyNodeExtents(g: Geometry, nodes: seq<Node>, j: nat)
    requires g.cgSize > 0 && j < |nodes|
    ensures nodes[j].data == [] ==> ExtsAt(g, nodes, j) == []
  {}

  // ----------------------------------------------------------- contents read back

  /** The first `n` extents map fewer blocks than all of them. */
  lemma {:induction false} MapsPrefix(g: Geometry, exts: seq<Extent>, off: nat, i: nat, m: nat, n: nat) returns (m': nat)
    requires g.cgSize > INODE_BLOCKS && Maps(g, exts, off, i, m) && n <= |exts|
    ensures Maps(g, exts[..n], off, i, m') && m' <= m && (n < |exts| ==> m' < m)
    decreases n
  {
    hide Run, SameGroup;
    if n == 0 {
      m' := 0;
    } else {
      var e := exts[0];
      var rest := MapsPrefix(g, exts[1..], off + e.length, i + e.length, m - e.length, n - 1);
      m' := e.length + rest;
      assert exts[..n][1..] == exts[1..][..n - 1];
    }
  }

  lemma {:induction false} MapsLength(g: Geometry, exts: seq<Extent>, off: nat, i: nat, m: nat)
    requires g.cgSize > INODE_BLOCKS && Maps(g, exts, off, i, m)
    ensures m <= MAX_EXTENT_LENGTH * |exts|
    decreases |exts|
  {
    hide Run, SameGroup;
    if exts != [] { MapsLength(g, exts[1..], off + exts[0].length, i + exts[0].length, m - exts[0].length); }
  }

  /** With all blocks mapped, each byte is read from its data block. */
  lemma MappedReads(g: Geometry, img: seq<byte>, ino: Inode, i: nat, m: nat)
    requires Roomy(g) && Maps(g, ino.extents, 0, i, m) && 0 <= ino.size <= 512 * m
    ensures var r := ReadData(img, ino);
            && r.Some? && |r.value| == ino.size
            && forall k :: 0 <= k < ino.size ==> r.value[k] == Peek(img, DataBlock(g, i + k / 512) * 512 + k % 512)
  {
    hide Maps, DataBlock, FindBlock, Consistent;
    forall k | 0 <= k < ino.size
      ensures FindBlock(ino.extents, k / 512) == Some(DataBlock(g, i + k / 512))
    {
      MapsFind(g, ino.extents, 0, i, m, k / 512);
    }
  }

  lemma ByteOnDisk(g: Geometry, img: seq<byte>, data: seq<byte>, i: nat, m: nat, k: nat)
    requires g.cgSize > INODE_BLOCKS && OnDisk(g, img, data, i, m) && k < |data| && k / 512 < m
    ensures Peek(img, DataBlock(g, i + k / 512) * 512 + k % 512) == data[k]
  {
    hide DataBlock, Block;
    var l, b := k / 512, DataBlock(g, i + k / 512);
    assert Block(img, b) == Chunk(data, i + l - i);
    BlockPeek(img, b, k % 512);
    BlockPeek(data, l, k % 512);
  }

  /** With all blocks on disk, reading gives the data. */
  lemma DataReads(g: Geometry, img: seq<byte>, data: seq<byte>, ino: Inode, i: nat, m: nat)
    requires Roomy(g) && Maps(g, ino.extents, 0, i, m) && OnDisk(g, img, data, i, m)
    requires m == BlocksFor(|data|) && ino.size == |data|
    ensures ReadData(img, ino) == Some(data)
  {
    MappedReads(g, img, ino, i, m);
    hide Maps, DataBlock, Consistent, OnDisk, ReadData, Peek;
    var r := ReadData(img, ino).value;
    forall k | 0 <= k < |data| ensures r[k] == data[k] { ByteOnDisk(g, img, data, i, m, k); }
    assert r == data;
  }

  /** `data` with its last block taken from `sb`. */
  function Overlaid(data: seq<byte>, sb: seq<byte>): (r: seq<byte>)
    requires data != [] && |sb| == BLOCK_SIZE
    ensures |r| == |data|
  {
    var l := 512 * (BlocksFor(|data|) - 1);
    data[..l] + sb[..|data| - l]
  }

  lemma OverlaidAt(data: seq<byte>, sb: seq<byte>, k: nat)
    requires k < |data| && |sb| == BLOCK_SIZE
    ensures Overlaid(data, sb)[k] == if k / 512 < BlocksFor(|data|) - 1 then data[k] else sb[k % 512]
  {}

  lemma OverlaidReads(g: Geometry, img: seq<byte>, data: seq<byte>, ino: Inode, i: nat, m: nat)
    requires Roomy(g) && Maps(g, ino.extents, 0, i, m) && data != [] && OnDisk(g, img, data, i, m - 1)
    requires m == BlocksFor(|data|) && ino.size == |data|
    ensures ReadData(img, ino) == Some(Overlaid(data, Block(img, DataBlock(g, i + m - 1))))
  {
    MappedReads(g, img, ino, i, m);
    hide Maps, DataBlock, Consistent, OnDisk, ReadData, Peek, Overlaid, Block;
    var r, sb := ReadData(img, ino).value, Block(img, DataBlock(g, i + m - 1));
    forall k | 0 <= k < |data|
      ensures r[k] == Overlaid(data, sb)[k]
    {
      OverlaidAt(data, sb, k);
      if k / 512 < m - 1 {
        ByteOnDisk(g, img, data, i, m - 1, k);
      } else {
        assert k / 512 == m - 1;
        BlockPeek(img, DataBlock(g, i + k / 512), k % 512);
      }
    }
    assert r == Overlaid(data, sb);
  }

  /** Reading past the mapped blocks fails. */
  lemma ReadStops(g: Geometry, img: seq<byte>, ino: Inode, i: nat, m: nat)
    requires Roomy(g) && Maps(g, ino.extents, 0, i, m) && ino.size > m * 512
    ensures ReadData(img, ino) == None
  {
    MapsFind(g, ino.extents, 0, i, m, m);
    hide Maps, FindBlock, Consistent;
    var k := m * 512;
    assert k / 512 == m;
    assert 0 <= k < ino.size && FindBlock(ino.extents, k / 512).None?;
  }

  // ------------------------------------------------------------ which nodes survive

  /** Every block of node `j` was allocated, and twelve extents hold them. */
  ghost predicate Direct12(g: Geometry, nodes: seq<Node>, j: nat)
    requires g.cgSize > 0 && j < |nodes|
  {
    Demand(nodes, j + 1) <= NumDataBlocks(g) && |ExtsAt(g, nodes, j)| <= MAX_EXTENTS
  }

  /** And none is the last data block. */
  ghost predicate Intact(g: Geometry, nodes: seq<Node>, j: nat)
    requires g.cgSize > 0 && j < |nodes|
  {
    nodes[j].data == [] || (Direct12(g, nodes, j) && Demand(nodes, j + 1) < NumDataBlocks(g))
  }

  /** What a reader gets of node `j`: its data; its data with the superblock's replica for its last block, if it
      ends in the last data block; or nothing, if its data was cut short or needs a thirteenth extent. */
  ghost function Recovered(g: Geometry, nodes: seq<Node>, j: nat, sb: seq<byte>): Option<seq<byte>>
    requires g.cgSize > 0 && j < |nodes| && |sb| == BLOCK_SIZE
  {
    if Intact(g, nodes, j) then Some(nodes[j].data)
    else if Direct12(g, nodes, j) then Some(Overlaid(nodes[j].data, sb))
    else None
  }

  /** A node as `build` makes them: no extents yet, and the size it will get is that of its data. */
  ghost predicate Readable(n: Node) {
    n.inode.extents == [] && n.inode.numExtents == 0 && n.size == |n.data| && (n.data == [] ==> n.inode.size == 0)
  }

  lemma NodeKeepsData(g: Geometry, nodes: seq<Node>, now: int, img: seq<byte>, j: nat)
    requires Roomy(g) && ImageOk(g, nodes, now, img) && j < |nodes|
    ensures NodeKeeps(g, img, nodes, j)
  {
    hide NodeKeeps, GroupTable, DiskBit, StartAt, AllPackable;
  }

  /** Where the data of node `j` lies: on the blocks it was given. */
  lemma NodeMapped(g: Geometry, nodes: seq<Node>, j: nat)
    requires Roomy(g) && j < |nodes|
    ensures 0 <= StartAt(g, nodes, j) <= StartAt(g, nodes, j + 1)
    ensures Maps(g, ExtsAt(g, nodes, j), 0, StartAt(g, nodes, j), StartAt(g, nodes, j + 1) - StartAt(g, nodes, j))
  {
    NodesAreBumped(g, nodes, j + 1);
    NodeRange(g, nodes, j);
    hide Maps, StartAt, ExtsAt;
  }

  lemma LastBlockIsReplica(g: Geometry)
    requires Roomy(g)
    ensures DataBlock(g, NumDataBlocks(g) - 1) == g.totalBlocks - 1
  {
    RoomyHasBlocks(g);
    LastDataBlock(g);
    LastIsData(g);
    hide DataBlock, DataIndex, NumDataBlocks, IsDataBlock;
    DataIndexInverse(g, g.totalBlocks - 1);
  }

  /** The last block of the filesystem ends the last group's data area. */
  lemma LastIsData(g: Geometry)
    requires Roomy(g)
    ensures IsDataBlock(g, g.totalBlocks - 1)
  {
    RoomyHasBlocks(g);
    LessOne(g.numCgs, g.cgSize);
    DivModIs(g.numCgs * g.cgSize - 1, g.cgSize, g.numCgs - 1, g.cgSize - 1);
  }

  /** The blocks of a node that was given all it asked for. */
  lemma {:induction false} NodeBlocksAt(g: Geometry, nodes: seq<Node>, img: seq<byte>, j: nat)
    requires Roomy(g) && j < |nodes| && NodeKeeps(g, img, nodes, j) && Demand(nodes, j + 1) <= NumDataBlocks(g)
    ensures Demand(nodes, j + 1) == Demand(nodes, j) + NodeBlocks(nodes[j])
    ensures Maps(g, ExtsAt(g, nodes, j), 0, Demand(nodes, j), NodeBlocks(nodes[j]))
    ensures OnDisk(g, img, nodes[j].data, Demand(nodes, j),
                   NodeBlocks(nodes[j]) - if Demand(nodes, j + 1) < NumDataBlocks(g) then 0 else 1)
  {
    hide StartAt, ExtsAt, OnDisk, Maps, NodeBlocks, Demand, NumDataBlocks, Consistent;
    NodeRange(g, nodes, j);
    NodeMapped(g, nodes, j);
  }

  /** A node's data, read through all its extents. */
  lemma {:induction false} WholeNodeReads(g: Geometry, nodes: seq<Node>, now: int, img: seq<byte>, j: nat, ino: Inode)
    requires Roomy(g) && ImageOk(g, nodes, now, img) && j < |nodes| && nodes[j].data != []
    requires ino.extents == ExtsAt(g, nodes, j) && ino.size == |nodes[j].data|
    requires Demand(nodes, j + 1) <= NumDataBlocks(g)
    ensures ReadData(img, ino) ==
            Some(if Demand(nodes, j + 1) < NumDataBlocks(g) then nodes[j].data else Overlaid(nodes[j].data, Block(img, 1)))
  {
    hide ExtsAt, OnDisk, Maps, DataBlock, Block, Overlaid, ReadData, Demand, NumDataBlocks, Consistent, ImageOk;
    NodeKeepsData(g, nodes, now, img, j);
    NodeBlocksAt(g, nodes, img, j);
    var i, m := Demand(nodes, j), NodeBlocks(nodes[j]);
    if Demand(nodes, j + 1) < NumDataBlocks(g) {
      DataReads(g, img, nodes[j].data, ino, i, m);
    } else {
      OverlaidReads(g, img, nodes[j].data, ino, i, m);
      LastBlockIsReplica(g);
      SuperCopies(g, nodes, now, img);
    }
  }

  lemma {:induction false} CutNodeStops(g: Geometry, nodes: seq<Node>, img: seq<byte>, j: nat, ino: Inode)
    requires Roomy(g) && j < |nodes| && nodes[j].data != [] && !Direct12(g, nodes, j)
    requires ino.extents == Direct(ExtsAt(g, nodes, j)) && ino.size == |nodes[j].data|
    ensures ReadData(img, ino) == None
  {
    NodeRange(g, nodes, j);
    NodeMapped(g, nodes, j);
    hide StartAt, ExtsAt, Maps, ReadData, Demand, NumDataBlocks, Consistent;
    var exts, i, m := ExtsAt(g, nodes, j), StartAt(g, nodes, j), StartAt(g, nodes, j + 1) - StartAt(g, nodes, j);
    assert Demand(nodes, j + 1) > NumDataBlocks(g) ==> m < NodeBlocks(nodes[j]);
    if |exts| <= MAX_EXTENTS {
      ReadStops(g, img, ino, i, m);
    } else {
      var m' := MapsPrefix(g, exts, 0, i, m, MAX_EXTENTS);
      ReadStops(g, img, ino, i, m');
    }
  }

  /** What a reader gets of any node of any image that was written. */
  lemma {:induction false} NodeRecovered(g: Geometry, nodes: seq<Node>, now: int, img: seq<byte>, j: nat)
    requires Roomy(g) && ImageOk(g, nodes, now, img) && j < |nodes| && FIRST_INODE + |nodes| <= g.numCgs * 32
    requires Readable(nodes[j])
    ensures ReadFile(img, FIRST_INODE + j) == Recovered(g, nodes, j, Block(img, 1))
  {
    EmptyNodeExtents(g, nodes, j);
    hide ImageOk, ExtsAt, Demand, ReadInode, ReadData, Overlaid, Block, NumDataBlocks, Consistent;
    NodeInodeReads(g, nodes, now, img, j);
    var ino := WithExtents(nodes[j], ExtsAt(g, nodes, j)).(extents := Direct(ExtsAt(g, nodes, j)));
    if nodes[j].data == [] {
      EmptyReads(img, ino);
    } else if Direct12(g, nodes, j) {
      WholeNodeReads(g, nodes, now, img, j, ino);
    } else {
      CutNodeStops(g, nodes, img, j, ino);
    }
  }

  lemma EmptyReads(img: seq<byte>, ino: Inode)
    requires ino.size == 0
    ensures ReadData(img, ino) == Some([])
  {
    hide FindBlock;
    assert ReadData(img, ino).Some? && |ReadData(img, ino).value| == 0;
  }

  /** The last block of `data`, as far as it is filled, begins `sb`. */
  predicate EndsAs(data: seq<byte>, sb: seq<byte>)
    requires data != []
  {
    data[512 * (BlocksFor(|data|) - 1)..] <= sb
  }

  lemma OverlaidSame(data: seq<byte>, sb: seq<byte>)
    requires data != [] && |sb| == BLOCK_SIZE
    ensures Overlaid(data, sb) == data <==> EndsAs(data, sb)
  {
    var l := 512 * (BlocksFor(|data|) - 1);
    assert Overlaid(data, sb)[l..] == sb[..|data| - l];
    assert data == data[..l] + data[l..];
  }

  /** Node `j` is empty; or it needs no more than twelve extents, was given all the blocks it asked for, and does not
      end in the last data block with other bytes than those of the superblock `sb`. */
  ghost predicate Survives(g: Geometry, nodes: seq<Node>, j: nat, sb: seq<byte>)
    requires g.cgSize > 0 && j < |nodes|
  {
    || nodes[j].data == []
    || (&& |ExtsAt(g, nodes, j)| <= MAX_EXTENTS
        && (|| Demand(nodes, j + 1) < NumDataBlocks(g)
            || (Demand(nodes, j + 1) == NumDataBlocks(g) && EndsAs(nodes[j].data, sb))))
  }

  /** A node reads back whole if and only if it survives in this sense. */
  lemma {:induction false} NodeReadsIff(g: Geometry, nodes: seq<Node>, now: int, img: seq<byte>, j: nat)
    requires Roomy(g) && ImageOk(g, nodes, now, img) && j < |nodes| && FIRST_INODE + |nodes| <= g.numCgs * 32
    requires Readable(nodes[j])
    ensures ReadFile(img, FIRST_INODE + j) == Some(nodes[j].data) <==> Survives(g, nodes, j, Block(img, 1))
  {
    hide ImageOk, ExtsAt, Demand, ReadFile, Overlaid, EndsAs, Block, NumDataBlocks, Consistent;
    NodeRecovered(g, nodes, now, img, j);
    if nodes[j].data != [] { OverlaidSame(nodes[j].data, Block(img, 1)); }
  }

  /** The node at which the data blocks run out. */
  lemma {:induction false} CutNode(g: Geometry, nodes: seq<Node>, n: nat) returns (j: nat)
    requires Roomy(g) && n <= |nodes| && Demand(nodes, n) > NumDataBlocks(g)
    ensures j < n && Demand(nodes, j) <= NumDataBlocks(g) < Demand(nodes, j + 1)
  {
    RoomyHasBlocks(g);
    hide NumDataBlocks, NodeBlocks;
    assert n > 0;
    if Demand(nodes, n - 1) > NumDataBlocks(g) { j := CutNode(g, nodes, n - 1); } else { j := n - 1; }
  }

  /** If node `j` ends in the last data block, the superblock begins as it ends. */
  ghost predicate EndsWell(g: Geometry, nodes: seq<Node>, j: nat, sb: seq<byte>)
    requires j < |nodes|
  {
    nodes[j].data != [] && Demand(nodes, j + 1) == NumDataBlocks(g) ==> EndsAs(nodes[j].data, sb)
  }

  lemma {:induction false} SurvivesInRoom(g: Geometry, nodes: seq<Node>, j: nat, sb: seq<byte>)
    requires Roomy(g) && j < |nodes| && Demand(nodes, |nodes|) <= NumDataBlocks(g)
    ensures Survives(g, nodes, j, sb) <==> |ExtsAt(g, nodes, j)| <= MAX_EXTENTS && EndsWell(g, nodes, j, sb)
    ensures Demand(nodes, |nodes|) < NumDataBlocks(g) ==> EndsWell(g, nodes, j, sb)
  {
    RoomyHasBlocks(g);
    EmptyNodeExtents(g, nodes, j);
    StartMonotone(g, nodes, j + 1, |nodes|);
    hide ExtsAt, NumDataBlocks, EndsAs, Consistent, Demand, StartAt;
  }

  lemma {:induction false} CutNodeIsLost(g: Geometry, nodes: seq<Node>, sb: seq<byte>) returns (j: nat)
    requires Roomy(g) && Demand(nodes, |nodes|) > NumDataBlocks(g)
    ensures j < |nodes| && !Survives(g, nodes, j, sb)
  {
    hide ExtsAt, NumDataBlocks, EndsAs, Consistent;
    j := CutNode(g, nodes, |nodes|);
    assert Demand(nodes, j + 1) == Demand(nodes, j) + NodeBlocks(nodes[j]);
    hide Demand;
  }

  /** All nodes read back if and only if none needs a thirteenth extent and they ask for fewer blocks than there are,
      or for just as many and the last one ends as the superblock begins. */
  lemma {:induction false} AllSurviveIff(g: Geometry, nodes: seq<Node>, sb: seq<byte>)
    requires Roomy(g)
    ensures (forall j :: 0 <= j < |nodes| ==> Survives(g, nodes, j, sb)) <==>
            && (forall j :: 0 <= j < |nodes| ==> |ExtsAt(g, nodes, j)| <= MAX_EXTENTS)
            && (|| Demand(nodes, |nodes|) < NumDataBlocks(g)
                || (&& Demand(nodes, |nodes|) == NumDataBlocks(g)
                    && forall j :: 0 <= j < |nodes| ==> EndsWell(g, nodes, j, sb)))
  {
    hide ExtsAt, NumDataBlocks, Consistent, Demand, Survives, EndsWell;
    if Demand(nodes, |nodes|) > NumDataBlocks(g) {
      var j := CutNodeIsLost(g, nodes, sb);
    } else {
      forall j | 0 <= j < |nodes|
        ensures Survives(g, nodes, j, sb) <==> |ExtsAt(g, nodes, j)| <= MAX_EXTENTS && EndsWell(g, nodes, j, sb)
        ensures Demand(nodes, |nodes|) < NumDataBlocks(g) ==> EndsWell(g, nodes, j, sb)
      {
        SurvivesInRoom(g, nodes, j, sb);
      }
    }
  }

  /** More than 2976 blocks (1,523,712 bytes) can never read back. */
  lemma {:induction false} BigFilesAreLost(g: Geometry, nodes: seq<Node>, now: int, img: seq<byte>, j: nat)
    requires Roomy(g) && ImageOk(g, nodes, now, img) && j < |nodes| && FIRST_INODE + |nodes| <= g.numCgs * 32
    requires Readable(nodes[j]) && |nodes[j].data| > 1523712
    ensures ReadFile(img, FIRST_INODE + j) == None
  {
    BigNodeIsCut(g, nodes, j);
    hide ImageOk, Readable, ReadFile, Direct12, Overlaid, Block, Consistent;
    NodeRecovered(g, nodes, now, img, j);
  }

  lemma {:induction false} BigNodeIsCut(g: Geometry, nodes: seq<Node>, j: nat)
    requires Roomy(g) && j < |nodes| && |nodes[j].data| > 1523712
    ensures !Direct12(g, nodes, j)
  {
    hide ExtsAt, Demand, Maps, StartAt, NumDataBlocks, Consistent;
    NodeRange(g, nodes, j);
    NodeMapped(g, nodes, j);
    var i, e := StartAt(g, nodes, j), StartAt(g, nodes, j + 1);
    MapsLength(g, ExtsAt(g, nodes, j), 0, i, e - i);
  }
}
