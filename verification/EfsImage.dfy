/** What the image writer leaves on disk: inode table, file contents, bitmap. */
module EfsImage {
  import opened Common
  import opened Bytes
  import opened Disk
  import opened EfsGeometry
  import opened EfsAlloc
  import opened EfsInode
  import EfsSuper

  const FIRST_INODE: nat := 2

  type Inodes = map<int, Inode>

  ghost predicate AllPackable(inodes: Inodes) { forall k :: k in inodes ==> Packable(inodes[k]) }

  // -------------------------------------------------------------- inode table

  /** Slot for inode number `k`: its inode, or zeros. */
  function TableSlot(inodes: Inodes, k: int): (b: seq<byte>)
    ensures |b| == INODE_SIZE
  {
    if k in inodes && Packable(inodes[k]) then InodeBytes(inodes[k]) else Zeros(INODE_SIZE)
  }

  function TableBytes(inodes: Inodes, base: int, n: nat): (b: seq<byte>)
    ensures |b| == 128 * n
  {
    if n == 0 then [] else TableBytes(inodes, base, n - 1) + TableSlot(inodes, base + n - 1)
  }

  lemma {:induction false} TableBytesSlot(inodes: Inodes, base: int, n: nat, j: nat)
    requires j < n
    ensures TableBytes(inodes, base, n)[128 * j..][..INODE_SIZE] == TableSlot(inodes, base + j)
  {
    hide TableSlot;
    var init := TableBytes(inodes, base, n - 1);
    if j == n - 1 {
      assert TableBytes(inodes, base, n)[128 * j..] == TableSlot(inodes, base + j);
    } else {
      TableBytesSlot(inodes, base, n - 1, j);
      assert TableBytes(inodes, base, n)[128 * j..][..INODE_SIZE] == init[128 * j..][..INODE_SIZE];
    }
  }

  /** Part-way through one group's table: `n` slots are written. */
  ghost predicate SlotsWritten(d0: seq<byte>, at: nat, inodes: Inodes, base: int, n: nat, d: seq<byte>, pos: nat) {
    && pos == at + 128 * n && d == WriteAt(d0, at, TableBytes(inodes, base, n))
    && forall k :: base <= k < base + n && k in inodes ==> Packable(inodes[k])
  }

  lemma SlotsStart(d0: seq<byte>, at: nat, inodes: Inodes, base: int)
    ensures SlotsWritten(d0, at, inodes, base, 0, d0, at)
  {}

  lemma SlotStep(d0: seq<byte>, at: nat, inodes: Inodes, base: int, n: nat, d: seq<byte>, pos: nat)
    requires SlotsWritten(d0, at, inodes, base, n, d, pos) && (base + n in inodes ==> Packable(inodes[base + n]))
    ensures SlotsWritten(d0, at, inodes, base, n + 1, WriteAt(d, pos, TableSlot(inodes, base + n)), pos + INODE_SIZE)
  {
    hide WriteAt, Packable;
    WriteConcat(d0, at, TableBytes(inodes, base, n), TableSlot(inodes, base + n));
  }

  /** The `s`-th inode slot of block `n`. */
  function SlotAt(img: seq<byte>, n: int, s: nat): (b: seq<byte>)
    requires s < INODES_PER_BLOCK
    ensures |b| == INODE_SIZE
  {
    Block(img, n)[128 * s..][..INODE_SIZE]
  }

  function GroupStart(g: Geometry, c: int): int { g.firstCg + c * g.cgSize }

  /** The inode blocks of group `c` hold the 32 inodes from `base` on. */
  ghost predicate GroupTable(g: Geometry, inodes: Inodes, base: int, img: seq<byte>, c: int)
    requires Roomy(g) && 0 <= c < g.numCgs
  {
    forall j :: 0 <= j < INODES_PER_CG ==>
                  SlotAt(img, GroupStart(g, c) + j / 4, j % 4) == TableSlot(inodes, base + j)
  }

  lemma SlotWritten(img: seq<byte>, start: nat, inodes: Inodes, base: int, j: nat)
    requires j < INODES_PER_CG
    ensures SlotAt(WriteAt(img, start * 512, TableBytes(inodes, base, INODES_PER_CG)),
                   start + j / 4, j % 4) == TableSlot(inodes, base + j)
  {
    hide TableBytes, TableSlot, WriteAt, Block;
    var t := TableBytes(inodes, base, INODES_PER_CG);
    var b, s := j / 4, j % 4;
    assert b < 8 && b * 512 + 128 * s == 128 * j;
    WriteBlocks(img, start, t, start + b);
    TableBytesSlot(inodes, base, INODES_PER_CG, j);
    SliceOfSlice(t, b * 512, BLOCK_SIZE, 128 * s, INODE_SIZE);
  }

  lemma GroupWritten(g: Geometry, inodes: Inodes, base: int, img: seq<byte>, c: int)
    requires Roomy(g) && 0 <= c < g.numCgs
    ensures GroupStart(g, c) >= 0
    ensures GroupTable(g, inodes, base, WriteAt(img, GroupStart(g, c) * 512, TableBytes(inodes, base, INODES_PER_CG)), c)
  {
    GroupBounds(g, c);
    hide TableBytes, TableSlot, SlotAt;
    forall j | 0 <= j < INODES_PER_CG { SlotWritten(img, GroupStart(g, c), inodes, base, j); }
  }

  lemma SliceOfSlice(t: seq<byte>, a: nat, m: nat, b: nat, n: nat)
    requires a + m <= |t| && b + n <= m
    ensures t[a..][..m][b..][..n] == t[a + b..][..n]
  {}

  /** `img'` differs from `img` at most in inode blocks. */
  ghost predicate SameButInodes(g: Geometry, img: seq<byte>, img': seq<byte>)
    requires g.cgSize > 0
  {
    forall n :: !IsInodeBlock(g, n) ==> Block(img', n) == Block(img, n)
  }

  /** Writing one group's inode blocks leaves every other block alone. */
  lemma GroupFrame(g: Geometry, img: seq<byte>, c: int, t: seq<byte>, n: int)
    requires Roomy(g) && 0 <= c < g.numCgs && |t| == INODE_BLOCKS * 512
    requires !IsInodeBlock(g, n) || (n - g.firstCg) / g.cgSize != c
    ensures GroupStart(g, c) >= 0
    ensures Block(WriteAt(img, GroupStart(g, c) * 512, t), n) == Block(img, n)
  {
    GroupBounds(g, c);
    WriteBlocks(img, GroupStart(g, c), t, n);
    if GroupStart(g, c) <= n < GroupStart(g, c) + INODE_BLOCKS {
      DivModIs(n - g.firstCg, g.cgSize, c, n - GroupStart(g, c));
    }
  }

  lemma GroupTableKept(g: Geometry, inodes: Inodes, base: int, img: seq<byte>, img': seq<byte>, c: int)
    requires Roomy(g) && 0 <= c < g.numCgs && GroupTable(g, inodes, base, img, c)
    requires forall n :: GroupStart(g, c) <= n < GroupStart(g, c) + INODE_BLOCKS ==> Block(img', n) == Block(img, n)
    ensures GroupTable(g, inodes, base, img', c)
  {
    GroupBounds(g, c);
    forall j | 0 <= j < INODES_PER_CG
      ensures SlotAt(img', GroupStart(g, c) + j / 4, j % 4) == TableSlot(inodes, base + j)
    {
      assert GroupStart(g, c) <= GroupStart(g, c) + j / 4 < GroupStart(g, c) + INODE_BLOCKS;
      hide TableSlot;
    }
  }

  lemma GroupBlocksAreInodeBlocks(g: Geometry, c: int, n: int)
    requires Roomy(g) && 0 <= c < g.numCgs && GroupStart(g, c) <= n < GroupStart(g, c) + INODE_BLOCKS
    ensures IsInodeBlock(g, n) && (n - g.firstCg) / g.cgSize == c
  {
    GroupBounds(g, c);
    DivModIs(n - g.firstCg, g.cgSize, c, n - GroupStart(g, c));
  }

  ghost predicate GroupsDone(g: Geometry, inodes: Inodes, shift: int, img: seq<byte>, n: int)
    requires Roomy(g) && n <= g.numCgs
  {
    forall c :: 0 <= c < n ==> GroupTable(g, inodes, shift + c * 32, img, c)
  }

  /** The inode areas of the first `n` groups are rewritten; nothing but inode blocks has changed. */
  ghost predicate TablePass(g: Geometry, inodes: Inodes, shift: int, img0: seq<byte>, img: seq<byte>, n: int)
    requires Roomy(g) && n <= g.numCgs
  {
    SameButInodes(g, img0, img) && GroupsDone(g, inodes, shift, img, n)
  }

  lemma GroupsStep(g: Geometry, inodes: Inodes, shift: int, img: seq<byte>, n: int, t: seq<byte>)
    requires Roomy(g) && 0 <= n < g.numCgs && GroupsDone(g, inodes, shift, img, n)
    requires t == TableBytes(inodes, shift + n * 32, INODES_PER_CG)
    ensures GroupStart(g, n) >= 0
    ensures GroupsDone(g, inodes, shift, WriteAt(img, GroupStart(g, n) * 512, t), n + 1)
  {
    hide GroupTable, TableBytes, WriteAt;
    GroupWritten(g, inodes, shift + n * 32, img, n);
    forall c | 0 <= c < n
      ensures GroupTable(g, inodes, shift + c * 32, WriteAt(img, GroupStart(g, n) * 512, t), c)
    {
      OtherGroupKept(g, inodes, shift + c * 32, img, t, n, c);
    }
  }

  lemma TablePassStep(g: Geometry, inodes: Inodes, shift: int, img0: seq<byte>, img: seq<byte>, n: int)
    requires Roomy(g) && 0 <= n < g.numCgs && TablePass(g, inodes, shift, img0, img, n)
    ensures GroupStart(g, n) >= 0
    ensures TablePass(g, inodes, shift, img0, WriteAt(img, GroupStart(g, n) * 512, TableBytes(inodes, shift + n * 32, INODES_PER_CG)), n + 1)
  {
    var t := TableBytes(inodes, shift + n * 32, INODES_PER_CG);
    hide GroupsDone, TableBytes, WriteAt, SameButInodes, Consistent;
    GroupsStep(g, inodes, shift, img, n, t);
    PassFrame(g, img0, img, n, t);
  }

  lemma PassFrame(g: Geometry, img0: seq<byte>, img: seq<byte>, n: int, t: seq<byte>)
    requires Roomy(g) && 0 <= n < g.numCgs && SameButInodes(g, img0, img) && |t| == INODE_BLOCKS * 512
    ensures GroupStart(g, n) >= 0
    ensures SameButInodes(g, img0, WriteAt(img, GroupStart(g, n) * 512, t))
  {
    GroupBounds(g, n);
    hide WriteAt, Block, IsInodeBlock;
    forall b | !IsInodeBlock(g, b)
      ensures Block(WriteAt(img, GroupStart(g, n) * 512, t), b) == Block(img0, b)
    {
      GroupFrame(g, img, n, t, b);
    }
  }

  lemma OtherGroupKept(g: Geometry, inodes: Inodes, base: int, img: seq<byte>, t: seq<byte>, n: int, c: int)
    requires Roomy(g) && 0 <= c < n < g.numCgs && |t| == INODE_BLOCKS * 512 && GroupTable(g, inodes, base, img, c)
    ensures GroupStart(g, n) >= 0
    ensures GroupTable(g, inodes, base, WriteAt(img, GroupStart(g, n) * 512, t), c)
  {
    GroupBounds(g, n);
    var img' := WriteAt(img, GroupStart(g, n) * 512, t);
    hide GroupTable, WriteAt, Block;
    forall b | GroupStart(g, c) <= b < GroupStart(g, c) + INODE_BLOCKS
      ensures Block(img', b) == Block(img, b)
    {
      GroupBlocksAreInodeBlocks(g, c, b);
      GroupFrame(g, img, n, t, b);
    }
    GroupTableKept(g, inodes, base, img, img', c);
  }

  // ------------------------------------------------------------ file contents

  /** Logical blocks 0..m of `data` are on data blocks i..i+m. */
  ghost predicate OnDisk(g: Geometry, img: seq<byte>, data: seq<byte>, i: int, m: int)
    requires g.cgSize > INODE_BLOCKS
  {
    forall k :: i <= k < i + m ==> Block(img, DataBlock(g, k)) == Chunk(data, k - i)
  }

  /** `img'` differs from `img` at most in data blocks lo..hi. */
  ghost predicate SameOutside(g: Geometry, img: seq<byte>, img': seq<byte>, lo: int, hi: int)
    requires g.cgSize > INODE_BLOCKS
  {
    forall n :: !(IsDataBlock(g, n) && lo <= DataIndex(g, n) < hi) ==> Block(img', n) == Block(img, n)
  }

  /** The bytes written for one extent of a file. */
  function ExtentBytes(data: seq<byte>, e: Extent): seq<byte>
    requires e.offset >= 0 && e.length >= 0
  {
    Padded(data, e.offset * 512, e.length * 512)
  }

  lemma ExtentWrite(g: Geometry, img: seq<byte>, data: seq<byte>, e: Extent, i: nat, n: int)
    requires Roomy(g) && e.offset >= 0 && e.length >= 0 && e.bn >= 0 && Run(g, i, e.bn, e.length)
    requires i + e.length <= NumDataBlocks(g)
    ensures var img' := WriteAt(img, e.bn * 512, ExtentBytes(data, e));
            if IsDataBlock(g, n) && i <= DataIndex(g, n) < i + e.length
            then Block(img', n) == Chunk(data, e.offset + DataIndex(g, n) - i)
            else Block(img', n) == Block(img, n)
  {
    WriteBlocks(img, e.bn, ExtentBytes(data, e), n);
    RunMembers(g, i, e.bn, e.length, n);
    hide DataIndex, Run, IsDataBlock, Consistent;
    if e.bn <= n < e.bn + e.length {
      var k := n - e.bn;
      assert ExtentBytes(data, e)[k * 512..][..BLOCK_SIZE] == Chunk(data, e.offset + k);
    }
  }

  /** A run of data blocks is exactly the disk blocks with those numbers. */
  lemma RunMembers(g: Geometry, i: nat, p: int, len: nat, n: int)
    requires Roomy(g) && Run(g, i, p, len) && i + len <= NumDataBlocks(g)
    ensures p <= n < p + len <==> IsDataBlock(g, n) && i <= DataIndex(g, n) < i + len
    ensures p <= n < p + len ==> DataIndex(g, n) == i + n - p
  {
    if p <= n < p + len {
      assert DataBlock(g, i + n - p) == n;
      hide DataBlock, DataIndex;
      DataBlockNumbering(g, i + n - p);
    }
    if IsDataBlock(g, n) && i <= DataIndex(g, n) < i + len {
      hide DataBlock;
      DataIndexInverse(g, n);
    }
  }

  /** Writing the next extent of a file extends what is on disk by that extent. */
  lemma ExtentStep(g: Geometry, img0: seq<byte>, img: seq<byte>, data: seq<byte>, exts: seq<Extent>, i: nat, done: nat, m: nat)
    requires Roomy(g) && exts != [] && Maps(g, exts, done, i + done, m) && i + done + m <= NumDataBlocks(g)
    requires OnDisk(g, img, data, i, done) && SameOutside(g, img0, img, i, i + done)
    ensures exts[0].bn >= 0 && exts[0].offset >= 0 && exts[0].length >= 1
    ensures var img' := WriteAt(img, exts[0].bn * 512, ExtentBytes(data, exts[0]));
            && OnDisk(g, img', data, i, done + exts[0].length)
            && SameOutside(g, img0, img', i, i + done + exts[0].length)
  {
    var e := exts[0];
    assert e.bn == DataBlock(g, i + done);
    DataBlockNumbering(g, i + done);
    assert e.bn >= 0;
    var img' := WriteAt(img, e.bn * 512, ExtentBytes(data, e));
    hide DataBlock, DataIndex, IsDataBlock, Run, SameGroup, ExtentBytes;
    forall k | i <= k < i + done + e.length
      ensures Block(img', DataBlock(g, k)) == Chunk(data, k - i)
    {
      DataBlockNumbering(g, k);
      ExtentWrite(g, img, data, e, i + done, DataBlock(g, k));
    }
    forall n | !(IsDataBlock(g, n) && i <= DataIndex(g, n) < i + done + e.length)
      ensures Block(img', n) == Block(img0, n)
    {
      ExtentWrite(g, img, data, e, i + done, n);
    }
  }

  /** Part-way through writing a file: `done` of its blocks are in place, `exts` are left to write. */
  ghost predicate PartWritten(g: Geometry, img0: seq<byte>, img: seq<byte>, data: seq<byte>, exts: seq<Extent>, i: nat, done: nat, m: nat)
    requires Roomy(g)
  {
    && done <= m && i + m <= NumDataBlocks(g) && Maps(g, exts, done, i + done, m - done)
    && OnDisk(g, img, data, i, done) && SameOutside(g, img0, img, i, i + done)
    && |img| <= g.totalBlocks * 512
  }

  lemma PartStep(g: Geometry, img0: seq<byte>, img: seq<byte>, data: seq<byte>, exts: seq<Extent>, i: nat, done: nat, m: nat)
    requires Roomy(g) && exts != [] && PartWritten(g, img0, img, data, exts, i, done, m)
    ensures exts[0].bn >= 0 && exts[0].offset >= 0 && exts[0].length >= 1
    ensures PartWritten(g, img0, WriteAt(img, exts[0].bn * 512, ExtentBytes(data, exts[0])), data, exts[1..],
                        i, done + exts[0].length, m)
  {
    hide OnDisk, SameOutside, SameGroup, Run;
    ExtentStep(g, img0, img, data, exts, i, done, m - done);
    ExtentInside(g, exts, done, i + done, m - done);
  }

  /** What lies on other data blocks stays. */
  lemma OnDiskKept(g: Geometry, img: seq<byte>, img': seq<byte>, data: seq<byte>, i: int, m: int, lo: int, hi: int)
    requires Roomy(g) && OnDisk(g, img, data, i, m) && SameOutside(g, img, img', lo, hi)
    requires 0 <= i && i + m <= NumDataBlocks(g) && (i + m <= lo || hi <= i)
    ensures OnDisk(g, img', data, i, m)
  {
    hide DataBlock, DataIndex, IsDataBlock;
    forall k | i <= k < i + m
      ensures Block(img', DataBlock(g, k)) == Chunk(data, k - i)
    {
      DataBlockNumbering(g, k);
    }
  }

  // -------------------------------------------------------------- all the nodes

  /** A directory, link or file to be written: its inode without extents, the size its inode gets once
      its data is placed, and the data. */
  datatype Node = Node(inode: Inode, size: int, data: seq<byte>)

  function NodeBlocks(n: Node): nat { BlocksFor(|n.data|) }

  /** The inode once the node's data is on `exts`. */
  function WithExtents(n: Node, exts: seq<Extent>): Inode {
    if n.data == [] then n.inode
    else n.inode.(size := n.size, numExtents := |exts|, extents := exts)
  }

  /** Blocks the first `i` nodes ask for. */
  function Demand(nodes: seq<Node>, i: nat): nat
    requires i <= |nodes|
  {
    if i == 0 then 0 else Demand(nodes, i - 1) + NodeBlocks(nodes[i - 1])
  }

  /** Where the allocator stands before node `i`. */
  function PosAt(g: Geometry, nodes: seq<Node>, i: nat): int
    requires g.cgSize > 0 && i <= |nodes|
  {
    if i == 0 then g.firstCg + INODE_BLOCKS
    else Alloc(g, PosAt(g, nodes, i - 1), NodeBlocks(nodes[i - 1]), 0).1
  }

  function ExtsAt(g: Geometry, nodes: seq<Node>, i: nat): seq<Extent>
    requires g.cgSize > 0 && i < |nodes|
  {
    Alloc(g, PosAt(g, nodes, i), NodeBlocks(nodes[i]), 0).0
  }

  /** Index of the first data block of node `i`; the last index when the filesystem is full. */
  function StartAt(g: Geometry, nodes: seq<Node>, i: nat): int
    requires i <= |nodes|
  {
    Min(Demand(nodes, i), NumDataBlocks(g))
  }

  lemma {:induction false} NodesAreBumped(g: Geometry, nodes: seq<Node>, i: nat)
    requires Roomy(g) && i <= |nodes|
    ensures PosAt(g, nodes, i) >= g.firstCg && DataIndex(g, PosAt(g, nodes, i)) == StartAt(g, nodes, i)
    ensures i > 0 ==> Maps(g, ExtsAt(g, nodes, i - 1), 0, StartAt(g, nodes, i - 1),
                           StartAt(g, nodes, i) - StartAt(g, nodes, i - 1))
  {
    GroupBounds(g, 0);
    if i == 0 {
      DataIndexAt(g, 0, INODE_BLOCKS);
    } else {
      NodesAreBumped(g, nodes, i - 1);
      hide DataIndex, Maps, Alloc;
      AllocIsBump(g, PosAt(g, nodes, i - 1), NodeBlocks(nodes[i - 1]), 0);
    }
  }

  /** The data of node `j` is in place. */
  ghost predicate NodeOnDisk(g: Geometry, img: seq<byte>, nodes: seq<Node>, j: nat)
    requires g.cgSize > INODE_BLOCKS && j < |nodes|
  {
    OnDisk(g, img, nodes[j].data, StartAt(g, nodes, j), StartAt(g, nodes, j + 1) - StartAt(g, nodes, j))
  }

  lemma {:induction false} StartMonotone(g: Geometry, nodes: seq<Node>, i: nat, j: nat)
    requires i <= j <= |nodes| && NumDataBlocks(g) >= 0
    ensures 0 <= StartAt(g, nodes, i) <= StartAt(g, nodes, j) <= NumDataBlocks(g)
    ensures Demand(nodes, i) <= Demand(nodes, j)
  {
    if i < j { StartMonotone(g, nodes, i, j - 1); }
  }

  /** Writing node `i` keeps the nodes before it. */
  lemma NodeKept(g: Geometry, img: seq<byte>, img': seq<byte>, nodes: seq<Node>, i: nat, j: nat)
    requires Roomy(g) && j < i < |nodes| && NodeOnDisk(g, img, nodes, j)
    requires SameOutside(g, img, img', StartAt(g, nodes, i), StartAt(g, nodes, i + 1))
    ensures NodeOnDisk(g, img', nodes, j)
  {
    GroupBounds(g, 0);
    StartMonotone(g, nodes, 0, j);
    StartMonotone(g, nodes, j, j + 1);
    StartMonotone(g, nodes, j + 1, i);
    hide StartAt, OnDisk, SameOutside, NumDataBlocks;
    OnDiskKept(g, img, img', nodes[j].data, StartAt(g, nodes, j), StartAt(g, nodes, j + 1) - StartAt(g, nodes, j),
               StartAt(g, nodes, i), StartAt(g, nodes, i + 1));
  }

  function NodeInode(g: Geometry, nodes: seq<Node>, i: nat, k: int): Inode
    requires g.cgSize > 0 && i <= |nodes| && FIRST_INODE <= k < FIRST_INODE + |nodes|
  {
    var n := k - FIRST_INODE;
    if n < i then WithExtents(nodes[n], ExtsAt(g, nodes, n)) else nodes[n].inode
  }

  /** The inodes once the first `i` nodes are placed: node n has inode number n + 2. */
  function InodesAt(g: Geometry, nodes: seq<Node>, i: nat): Inodes
    requires g.cgSize > 0 && i <= |nodes|
  {
    map k | FIRST_INODE <= k < FIRST_INODE + |nodes| :: NodeInode(g, nodes, i, k)
  }

  // -------------------------------------------------------------------- bitmap

  /** The bitmap marks the blocks before the first group, the inode blocks, and the first `used` data blocks. */
  ghost predicate BitmapOk(g: Geometry, bitmap: seq<bool>, used: int)
    requires g.cgSize > INODE_BLOCKS
  {
    && |bitmap| == g.totalBlocks
    && forall b :: 0 <= b < |bitmap| ==>
         (bitmap[b] <==> b < g.firstCg || IsInodeBlock(g, b) || DataIndex(g, b) < used)
  }

  function Mark(bitmap: seq<bool>, p: int, len: int): (r: seq<bool>)
    ensures |r| == |bitmap|
  {
    seq(|bitmap|, b requires 0 <= b < |bitmap| => bitmap[b] || p <= b < p + len)
  }

  function MarkAll(bitmap: seq<bool>, exts: seq<Extent>): (r: seq<bool>)
    ensures |r| == |bitmap|
    decreases exts
  {
    if exts == [] then bitmap else MarkAll(Mark(bitmap, exts[0].bn, exts[0].length), exts[1..])
  }

  lemma MarkRun(g: Geometry, bitmap: seq<bool>, i: nat, p: int, len: nat)
    requires Roomy(g) && BitmapOk(g, bitmap, i) && Run(g, i, p, len) && i + len <= NumDataBlocks(g)
    ensures BitmapOk(g, Mark(bitmap, p, len), i + len)
  {
    forall b | 0 <= b < |bitmap|
      ensures Mark(bitmap, p, len)[b] <==> b < g.firstCg || IsInodeBlock(g, b) || DataIndex(g, b) < i + len
    {
      RunMembers(g, i, p, len, b);
      hide DataIndex, Run;
    }
  }

  /** Allocating marks exactly the blocks handed out. */
  lemma {:induction false} MarkAllOk(g: Geometry, bitmap: seq<bool>, exts: seq<Extent>, off: nat, i: nat, m: nat)
    requires Roomy(g) && BitmapOk(g, bitmap, i) && Maps(g, exts, off, i, m) && i + m <= NumDataBlocks(g)
    ensures BitmapOk(g, MarkAll(bitmap, exts), i + m)
    decreases |exts|
  {
    hide BitmapOk, Run, SameGroup;
    if exts != [] {
      MarkRun(g, bitmap, i, exts[0].bn, exts[0].length);
      MarkAllOk(g, Mark(bitmap, exts[0].bn, exts[0].length), exts[1..], off + exts[0].length, i + exts[0].length, m - exts[0].length);
    }
  }

  lemma MarkNone(bitmap: seq<bool>)
    ensures MarkAll(bitmap, []) == bitmap
  {}

  lemma {:induction false} MarkAllSnoc(bitmap: seq<bool>, exts: seq<Extent>, e: Extent)
    ensures MarkAll(bitmap, exts + [e]) == Mark(MarkAll(bitmap, exts), e.bn, e.length)
    decreases exts
  {
    if exts == [] {
      assert [e][1..] == [];
    } else {
      assert (exts + [e])[0] == exts[0] && (exts + [e])[1..] == exts[1..] + [e];
      MarkAllSnoc(Mark(bitmap, exts[0].bn, exts[0].length), exts[1..], e);
    }
  }

  /** The bitmap once the inode blocks of the first `n` groups are marked. */
  ghost predicate GroupsMarked(g: Geometry, bitmap: seq<bool>, n: int)
    requires g.cgSize > 0
  {
    && |bitmap| == g.totalBlocks
    && forall b :: 0 <= b < |bitmap| ==>
         (bitmap[b] <==> b < g.firstCg || (IsInodeBlock(g, b) && (b - g.firstCg) / g.cgSize < n))
  }

  lemma MarkGroup(g: Geometry, bitmap: seq<bool>, n: int)
    requires Roomy(g) && GroupsMarked(g, bitmap, n) && 0 <= n < g.numCgs
    ensures GroupsMarked(g, Mark(bitmap, GroupStart(g, n), INODE_BLOCKS), n + 1)
  {
    forall b | 0 <= b < |bitmap|
      ensures GroupStart(g, n) <= b < GroupStart(g, n) + INODE_BLOCKS <==> IsInodeBlock(g, b) && (b - g.firstCg) / g.cgSize == n
    {
      InodeBlocksOfGroup(g, n, b);
    }
    hide IsInodeBlock, Consistent;
  }

  lemma AllGroupsMarked(g: Geometry, bitmap: seq<bool>)
    requires Roomy(g) && GroupsMarked(g, bitmap, g.numCgs)
    ensures BitmapOk(g, bitmap, 0)
  {
    forall b | g.firstCg <= b < |bitmap|
      ensures DataIndex(g, b) >= 0 && (b - g.firstCg) / g.cgSize < g.numCgs
    {
      IndexNonNegative(g, b);
      GroupBelow(g, b);
    }
    hide DataIndex;
  }

  function CountFree(bitmap: seq<bool>): nat {
    if bitmap == [] then 0
    else CountFree(bitmap[..|bitmap| - 1]) + if bitmap[|bitmap| - 1] then 0 else 1
  }

  lemma IndexStepAt(g: Geometry, c: int, o: int)
    requires g.cgSize > INODE_BLOCKS && 0 <= o < g.cgSize
    ensures var b := g.firstCg + c * g.cgSize + o;
            DataIndex(g, b + 1) == DataIndex(g, b) + if o < INODE_BLOCKS then 0 else 1
  {
    DataIndexAt(g, c, o);
    hide DataIndex;
    if o + 1 < g.cgSize {
      DataIndexAt(g, c, o + 1);
    } else {
      assert (c + 1) * g.cgSize == c * g.cgSize + g.cgSize && (c + 1) * PerCg(g) == c * PerCg(g) + PerCg(g);
      DataIndexAt(g, c + 1, 0);
    }
  }

  lemma IndexStep(g: Geometry, b: int)
    requires Roomy(g) && g.firstCg <= b < g.totalBlocks
    ensures DataIndex(g, b + 1) == DataIndex(g, b) + if IsInodeBlock(g, b) then 0 else 1
  {
    var c, o := (b - g.firstCg) / g.cgSize, (b - g.firstCg) % g.cgSize;
    assert b == g.firstCg + c * g.cgSize + o;
    hide DataIndex;
    IndexStepAt(g, c, o);
  }

  lemma {:induction false} FreeBelow(g: Geometry, bitmap: seq<bool>, used: nat, b: nat)
    requires Roomy(g) && BitmapOk(g, bitmap, used) && b <= g.totalBlocks
    ensures CountFree(bitmap[..b]) == if b >= g.firstCg && DataIndex(g, b) > used then DataIndex(g, b) - used else 0
  {
    if b == 0 {
      assert bitmap[..0] == [];
    } else {
      FreeBelow(g, bitmap, used, b - 1);
      assert bitmap[..b][..b - 1] == bitmap[..b - 1];
      hide DataIndex, IsInodeBlock;
      if b - 1 >= g.firstCg {
        IndexStep(g, b - 1);
      } else if b == g.firstCg {
        GroupBounds(g, 0);
        DataIndexAt(g, 0, 0);
      }
    }
  }

  /** Every data block is either handed out or free. */
  lemma FreeCount(g: Geometry, bitmap: seq<bool>, used: nat)
    requires Roomy(g) && BitmapOk(g, bitmap, used) && used <= NumDataBlocks(g)
    ensures CountFree(bitmap) == NumDataBlocks(g) - used
  {
    FreeBelow(g, bitmap, used, g.totalBlocks);
    assert bitmap[..g.totalBlocks] == bitmap;
    DataIndexAt(g, g.numCgs, 0);
  }

  /** Block `b`'s bit in the bitmap on disk, which starts at block 2. */
  ghost predicate DiskBit(img: seq<byte>, b: nat) {
    EfsSuper.Digit(Peek(img, 2 * 512 + b / 8) as nat, 7 - b % 8)
  }

  // ------------------------------------------------------- from node to node

  /** The state of the writer before node `i`. */
  ghost predicate Writing(g: Geometry, nodes: seq<Node>, i: nat, img: seq<byte>, pos: int, bitmap: seq<bool>)
    requires Roomy(g)
  {
    && i <= |nodes| && pos == PosAt(g, nodes, i) && |img| <= g.totalBlocks * 512
    && BitmapOk(g, bitmap, StartAt(g, nodes, i))
    && forall j :: 0 <= j < i ==> NodeOnDisk(g, img, nodes, j)
  }

  lemma WritingReady(g: Geometry, nodes: seq<Node>, i: nat, img: seq<byte>, pos: int, bitmap: seq<bool>)
    requires Roomy(g) && Writing(g, nodes, i, img, pos, bitmap)
    ensures pos >= g.firstCg && DataIndex(g, pos) == StartAt(g, nodes, i) <= NumDataBlocks(g)
    ensures BitmapOk(g, bitmap, DataIndex(g, pos))
  {
    NodesAreBumped(g, nodes, i);
  }

  /** Writing one node takes the state to the next node. */
  lemma WritingStep(g: Geometry, nodes: seq<Node>, i: nat, img: seq<byte>, pos: int, bitmap: seq<bool>,
                    img': seq<byte>, pos': int, bitmap': seq<bool>, exts: seq<Extent>)
    requires Roomy(g) && Writing(g, nodes, i, img, pos, bitmap) && i < |nodes|
    requires Alloc(g, pos, NodeBlocks(nodes[i]), 0) == (exts, pos')
    requires |img'| <= g.totalBlocks * 512
    requires var s, e := DataIndex(g, pos), DataIndex(g, pos');
             && e == Min(s + NodeBlocks(nodes[i]), NumDataBlocks(g)) && BitmapOk(g, bitmap', e)
             && OnDisk(g, img', nodes[i].data, s, e - s) && SameOutside(g, img, img', s, e)
    ensures Writing(g, nodes, i + 1, img', pos', bitmap') && exts == ExtsAt(g, nodes, i)
  {
    hide Maps;
    NodesAreBumped(g, nodes, i);
    NodesAreBumped(g, nodes, i + 1);
    hide DataIndex, Alloc, BitmapOk, OnDisk, SameOutside;
    assert NodeOnDisk(g, img', nodes, i);
    hide DataIndex, Alloc, BitmapOk, StartAt, OnDisk, SameOutside, Maps;
    forall j | 0 <= j < i ensures NodeOnDisk(g, img', nodes, j) { NodeKept(g, img, img', nodes, i, j); }
  }

  lemma InodesAtStart(g: Geometry, nodes: seq<Node>, i: nat)
    requires g.cgSize > 0 && i < |nodes|
    ensures FIRST_INODE + i in InodesAt(g, nodes, i) && InodesAt(g, nodes, i)[FIRST_INODE + i] == nodes[i].inode
  {}

  lemma InodesStep(g: Geometry, nodes: seq<Node>, i: nat)
    requires g.cgSize > 0 && i < |nodes|
    ensures InodesAt(g, nodes, i + 1) == InodesAt(g, nodes, i)[FIRST_INODE + i := WithExtents(nodes[i], ExtsAt(g, nodes, i))]
  {
    hide ExtsAt, WithExtents;
  }

  // ------------------------------------------------------------ the whole image

  /** The superblock of a filesystem with `used` data blocks in use by `nodes` nodes. */
  function SuperFor(g: Geometry, used: int, nodes: nat, now: int): EfsSuper.Superblock {
    EfsSuper.Superblock(
      g.totalBlocks, g.firstCg, g.cgSize, INODE_BLOCKS, 16, 16, g.numCgs, 0, 0, now, EfsSuper.EFS_MAGIC,
      [101, 102, 115], [112, 97, 99, 107], (g.totalBlocks + 7) / 8, NumDataBlocks(g) - used,
      g.numCgs * g.inodesPerCg - nodes, 0, g.totalBlocks - 1, FIRST_INODE + nodes - 1, [])
  }

  function SuperBlockBytes(s: EfsSuper.Superblock): (b: seq<byte>)
    requires EfsSuper.Packable(s)
    ensures |b| == BLOCK_SIZE
  {
    EfsSuper.SuperBytes(s, EfsSuper.Checksum(EfsSuper.SuperBytes(s, 0)))
  }

  /** What a finished image holds. */
  ghost predicate ImageOk(g: Geometry, nodes: seq<Node>, now: int, img: seq<byte>)
    requires Roomy(g)
  {
    var used := StartAt(g, nodes, |nodes|);
    var sb := SuperFor(g, used, |nodes|, now);
    && |img| == g.totalBlocks * 512
    && EfsSuper.Packable(sb) && Block(img, 1) == SuperBlockBytes(sb) == Block(img, g.totalBlocks - 1)
    && TableOk(g, InodesAt(g, nodes, |nodes|), img)
    && AllPackable(InodesAt(g, nodes, |nodes|))
    && NodesOk(g, nodes, img)
    && BitsOk(g, img, used)
  }

  ghost predicate TableOk(g: Geometry, inodes: Inodes, img: seq<byte>)
    requires Roomy(g)
  {
    forall c :: 0 <= c < g.numCgs ==> GroupTable(g, inodes, c * 32, img, c)
  }

  /** The data of node `j` is in place on all blocks it was given but the last data block, which the
      superblock's replica takes. */
  ghost predicate NodeKeeps(g: Geometry, img: seq<byte>, nodes: seq<Node>, j: nat)
    requires g.cgSize > INODE_BLOCKS && j < |nodes|
  {
    OnDisk(g, img, nodes[j].data, StartAt(g, nodes, j),
           Min(StartAt(g, nodes, j + 1), NumDataBlocks(g) - 1) - StartAt(g, nodes, j))
  }

  ghost predicate NodesOk(g: Geometry, nodes: seq<Node>, img: seq<byte>)
    requires Roomy(g)
  {
    forall j :: 0 <= j < |nodes| ==> NodeKeeps(g, img, nodes, j)
  }

  /** The bitmap marks the reserved blocks, the inode blocks and the first `used` data blocks, and no others. */
  ghost predicate BitsOk(g: Geometry, img: seq<byte>, used: int)
    requires Roomy(g)
  {
    forall b :: 0 <= b < g.totalBlocks ==>
      (DiskBit(img, b) <==> b < g.firstCg || IsInodeBlock(g, b) || DataIndex(g, b) < used)
  }

  // ------------------------------------------------------------ finishing touches

  /** Bitmap, superblock, replica and the last byte, written over `img`. */
  function Finish(g: Geometry, img: seq<byte>, bits: seq<byte>, sb: seq<byte>): seq<byte>
    requires g.totalBlocks >= 1
  {
    var i3 := WriteAt(img, 2 * 512, bits);
    var i4 := WriteAt(i3, BLOCK_SIZE, sb);
    var i5 := WriteAt(i4, (g.totalBlocks - 1) * 512, sb);
    WriteAt(i5, g.totalBlocks * 512 - 1, [0])
  }

  lemma FinishBlock(g: Geometry, img: seq<byte>, bits: seq<byte>, sb: seq<byte>, n: int)
    requires Roomy(g) && |bits| % 512 == 0 && |bits| <= g.bitmapBlocks * 512
    requires |sb| == BLOCK_SIZE && sb[BLOCK_SIZE - 1] == 0
    ensures n == 1 || n == g.totalBlocks - 1 ==> Block(Finish(g, img, bits, sb), n) == sb
    ensures n != 1 && n != g.totalBlocks - 1 && n >= g.firstCg ==> Block(Finish(g, img, bits, sb), n) == Block(img, n)
  {
    GroupBounds(g, 0);
    var last: nat := g.totalBlocks - 1;
    assert 1 < last;
    FinishBlockAt(img, bits, sb, last, n);
  }

  lemma FinishBlockAt(img: seq<byte>, bits: seq<byte>, sb: seq<byte>, last: nat, n: int)
    requires |bits| % 512 == 0 && |sb| == BLOCK_SIZE && sb[BLOCK_SIZE - 1] == 0 && last > 1
    ensures var i4 := WriteAt(WriteAt(img, 2 * 512, bits), BLOCK_SIZE, sb);
            var r := WriteAt(WriteAt(i4, last * 512, sb), (last + 1) * 512 - 1, [0]);
            Block(r, n) == if n == 1 || n == last then sb
                           else if 2 <= n < 2 + |bits| / 512 then bits[(n - 2) * 512..][..BLOCK_SIZE]
                           else Block(img, n)
  {
    hide WriteAt, Block;
    var i3 := WriteAt(img, 2 * 512, bits);
    var i4 := WriteAt(i3, 1 * 512, sb);
    var i5 := WriteAt(i4, last * 512, sb);
    assert sb[0..][..BLOCK_SIZE] == sb;
    WriteBlocks(img, 2, bits, n);
    WriteBlocks(i3, 1, sb, n);
    WriteBlocks(i4, last, sb, n);
    WriteBlocks(i4, last, sb, last);
    assert |sb| / 512 == 1;
    assert Block(i4, n) == if n == 1 then sb else Block(i3, n);
    assert Block(i5, n) == if n == last then sb else Block(i4, n);
    LastByte(i5, last + 1, n);
  }

  lemma LastByte(img: seq<byte>, total: nat, n: int)
    requires total >= 1 && Block(img, total - 1)[BLOCK_SIZE - 1] == 0
    ensures Block(WriteAt(img, total * 512 - 1, [0]), n) == Block(img, n)
  {
    var a, b := Block(WriteAt(img, total * 512 - 1, [0]), n), Block(img, n);
    forall k | 0 <= k < BLOCK_SIZE
      ensures a[k] == b[k]
    {
      WritePeek(img, total * 512 - 1, [0], n * 512 + k);
      if n * 512 + k == total * 512 - 1 { assert n == total - 1 && k == BLOCK_SIZE - 1; }
      hide WriteAt;
    }
  }

  /** Between the superblock and its replica only the bitmap is written. */
  lemma FinishPeek(img: seq<byte>, bits: seq<byte>, sb: seq<byte>, last: nat, at: nat)
    requires |sb| == BLOCK_SIZE && 2 * 512 <= at < last * 512 && at - 2 * 512 < |bits|
    ensures var i4 := WriteAt(WriteAt(img, 2 * 512, bits), BLOCK_SIZE, sb);
            Peek(WriteAt(WriteAt(i4, last * 512, sb), (last + 1) * 512 - 1, [0]), at) == bits[at - 2 * 512]
  {
    hide WriteAt, Peek;
    var i3 := WriteAt(img, 2 * 512, bits);
    var i4 := WriteAt(i3, BLOCK_SIZE, sb);
    WritePeek(img, 2 * 512, bits, at);
    WritePeek(i3, BLOCK_SIZE, sb, at);
    WritePeek(i4, last * 512, sb, at);
    WritePeek(WriteAt(i4, last * 512, sb), (last + 1) * 512 - 1, [0], at);
  }

  lemma FinishBit(g: Geometry, img: seq<byte>, bits: seq<byte>, sb: seq<byte>, b: nat)
    requires Roomy(g) && b / 8 < |bits| <= g.bitmapBlocks * 512 && |sb| == BLOCK_SIZE
    ensures DiskBit(Finish(g, img, bits, sb), b) <==> EfsSuper.BitAt(bits, b)
  {
    GroupBounds(g, 0);
    var at := 2 * 512 + b / 8;
    assert at < g.firstCg * 512 <= (g.totalBlocks - 1) * 512;
    FinishPeek(img, bits, sb, g.totalBlocks - 1, at);
  }

  lemma FinishLength(g: Geometry, img: seq<byte>, bits: seq<byte>, sb: seq<byte>)
    requires Roomy(g) && |img| <= g.totalBlocks * 512 && |bits| <= g.bitmapBlocks * 512 && |sb| == BLOCK_SIZE
    ensures |Finish(g, img, bits, sb)| == g.totalBlocks * 512
  {
    GroupBounds(g, 0);
  }

  /** The inode table survives the finishing touches. */
  lemma FinishTable(g: Geometry, inodes: Inodes, base: int, img: seq<byte>, bits: seq<byte>, sb: seq<byte>, c: int)
    requires Roomy(g) && |bits| % 512 == 0 && |bits| <= g.bitmapBlocks * 512
    requires |sb| == BLOCK_SIZE && sb[BLOCK_SIZE - 1] == 0
    requires 0 <= c < g.numCgs && GroupTable(g, inodes, base, img, c)
    ensures GroupTable(g, inodes, base, Finish(g, img, bits, sb), c)
  {
    hide Finish, GroupTable;
    forall n | GroupStart(g, c) <= n < GroupStart(g, c) + INODE_BLOCKS
      ensures Block(Finish(g, img, bits, sb), n) == Block(img, n)
    {
      GroupBounds(g, c);
      FinishBlock(g, img, bits, sb, n);
    }
    GroupTableKept(g, inodes, base, img, Finish(g, img, bits, sb), c);
  }

  /** So does the data of every node, but for what was placed on the last data block. */
  lemma FinishNode(g: Geometry, nodes: seq<Node>, img0: seq<byte>, img: seq<byte>, bits: seq<byte>, sb: seq<byte>, j: nat)
    requires Roomy(g) && |bits| % 512 == 0 && |bits| <= g.bitmapBlocks * 512
    requires |sb| == BLOCK_SIZE && sb[BLOCK_SIZE - 1] == 0
    requires j < |nodes| && NodeOnDisk(g, img0, nodes, j) && SameButInodes(g, img0, img)
    ensures NodeKeeps(g, Finish(g, img, bits, sb), nodes, j)
  {
    hide StartAt, SameButInodes, Demand, Finish, DataBlock, NumDataBlocks;
    RoomyHasBlocks(g);
    StartMonotone(g, nodes, 0, j);
    var s, m := StartAt(g, nodes, j), Min(StartAt(g, nodes, j + 1), NumDataBlocks(g) - 1) - StartAt(g, nodes, j);
    assert OnDisk(g, img0, nodes[j].data, s, m);
    if m > 0 { FinishData(g, img0, img, bits, sb, nodes[j].data, s, m); }
  }

  /** Node `j` starts where the demand before it ends, and is given what it asks for or all that is left. */
  lemma NodeRange(g: Geometry, nodes: seq<Node>, j: nat)
    requires Roomy(g) && j < |nodes|
    ensures 0 <= StartAt(g, nodes, j) <= StartAt(g, nodes, j + 1) <= NumDataBlocks(g)
    ensures Demand(nodes, j + 1) == Demand(nodes, j) + NodeBlocks(nodes[j])
    ensures Demand(nodes, j + 1) <= NumDataBlocks(g) ==>
              StartAt(g, nodes, j) == Demand(nodes, j) && StartAt(g, nodes, j + 1) == Demand(nodes, j + 1)
    ensures Demand(nodes, j + 1) > NumDataBlocks(g) ==>
              StartAt(g, nodes, j + 1) - StartAt(g, nodes, j) < NodeBlocks(nodes[j]) || nodes[j].data == []
  {
    GroupBounds(g, 0);
    StartMonotone(g, nodes, 0, j);
    StartMonotone(g, nodes, j, j + 1);
  }

  lemma FinishData(g: Geometry, img0: seq<byte>, img: seq<byte>, bits: seq<byte>, sb: seq<byte>, data: seq<byte>, i: int, m: int)
    requires Roomy(g) && |bits| % 512 == 0 && |bits| <= g.bitmapBlocks * 512
    requires |sb| == BLOCK_SIZE && sb[BLOCK_SIZE - 1] == 0 && SameButInodes(g, img0, img)
    requires 0 <= i && i + m < NumDataBlocks(g) && OnDisk(g, img0, data, i, m)
    ensures OnDisk(g, Finish(g, img, bits, sb), data, i, m)
  {
    hide Finish, DataBlock, Block, Chunk, SameButInodes, IsInodeBlock;
    forall k | i <= k < i + m
      ensures Block(Finish(g, img, bits, sb), DataBlock(g, k)) == Chunk(data, k - i)
    {
      FinishDataBlock(g, img0, img, bits, sb, k);
    }
  }

  lemma FinishDataBlock(g: Geometry, img0: seq<byte>, img: seq<byte>, bits: seq<byte>, sb: seq<byte>, k: int)
    requires Roomy(g) && |bits| % 512 == 0 && |bits| <= g.bitmapBlocks * 512
    requires |sb| == BLOCK_SIZE && sb[BLOCK_SIZE - 1] == 0 && SameButInodes(g, img0, img)
    requires 0 <= k < NumDataBlocks(g) - 1
    ensures Block(Finish(g, img, bits, sb), DataBlock(g, k)) == Block(img0, DataBlock(g, k))
  {
    hide Finish, DataBlock, DataIndex, Block;
    DataBlockNumbering(g, k);
    LastDataBlock(g);
    FinishBlock(g, img, bits, sb, DataBlock(g, k));
  }

  lemma LastDataBlock(g: Geometry)
    requires Roomy(g)
    ensures DataIndex(g, g.totalBlocks - 1) == NumDataBlocks(g) - 1
  {
    hide DataIndex;
    var c := g.numCgs - 1;
    DataIndexAt(g, c, g.cgSize - 1);
    LessOne(g.numCgs, g.cgSize);
    LessOne(g.numCgs, PerCg(g));
  }

  lemma LessOne(a: int, b: int)
    ensures (a - 1) * b + b == a * b
  {}

  // ------------------------------------------------------- putting it together

  lemma RoomyHasBlocks(g: Geometry)
    requires Roomy(g)
    ensures 3 <= g.firstCg <= g.totalBlocks - 9 && NumDataBlocks(g) >= 1
  {
    GroupBounds(g, 0);
  }

  lemma WritingStart(g: Geometry, nodes: seq<Node>, img: seq<byte>, pos: int, bitmap: seq<bool>)
    requires Roomy(g) && pos == g.firstCg + INODE_BLOCKS && BitmapOk(g, bitmap, 0) && |img| <= g.totalBlocks * 512
    ensures Writing(g, nodes, 0, img, pos, bitmap)
  {
    RoomyHasBlocks(g);
    hide BitmapOk;
  }

  lemma WritingSize(g: Geometry, nodes: seq<Node>, i: nat, img: seq<byte>, pos: int, bitmap: seq<bool>)
    requires Roomy(g) && Writing(g, nodes, i, img, pos, bitmap)
    ensures |img| <= g.totalBlocks * 512
  {}

  lemma InodeKeys(g: Geometry, nodes: seq<Node>, i: nat)
    requires g.cgSize > 0 && i <= |nodes|
    ensures forall k :: k in InodesAt(g, nodes, i) ==> FIRST_INODE <= k < FIRST_INODE + |nodes|
  {}

  lemma {:induction false} RangeSize(s: set<int>, n: nat)
    requires forall k :: k in s <==> FIRST_INODE <= k < FIRST_INODE + n
    ensures |s| == n
  {
    if n > 0 {
      assert FIRST_INODE + n - 1 in s;
      RangeSize(s - {FIRST_INODE + n - 1}, n - 1);
    } else {
      forall k: int ensures k !in s { assert k in s <==> FIRST_INODE <= k < FIRST_INODE; }
      assert s == {};
    }
  }

  /** There is one inode for each node. */
  lemma InodeCount(g: Geometry, nodes: seq<Node>, i: nat)
    requires g.cgSize > 0 && i <= |nodes|
    ensures |InodesAt(g, nodes, i)| == |nodes|
  {
    RangeSize(InodesAt(g, nodes, i).Keys, |nodes|);
  }

  lemma FreeAtEnd(g: Geometry, nodes: seq<Node>, img: seq<byte>, pos: int, bitmap: seq<bool>)
    requires Roomy(g) && Writing(g, nodes, |nodes|, img, pos, bitmap)
    ensures NumDataBlocks(g) - CountFree(bitmap) == StartAt(g, nodes, |nodes|)
  {
    RoomyHasBlocks(g);
    hide BitmapOk;
    FreeCount(g, bitmap, StartAt(g, nodes, |nodes|));
  }

  ghost predicate IsBitmap(bitmap: seq<bool>, bits: seq<byte>) {
    && |bits| == 512 * BlocksFor((|bitmap| + 7) / 8)
    && forall i :: 0 <= i < 8 * |bits| ==> (EfsSuper.BitAt(bits, i) <==> i < |bitmap| && bitmap[i])
  }

  lemma SuperEndsInZero(s: EfsSuper.Superblock)
    requires EfsSuper.Packable(s)
    ensures SuperBlockBytes(s)[BLOCK_SIZE - 1] == 0
  {}

  lemma BitsOnDisk(g: Geometry, img: seq<byte>, bitmap: seq<bool>, bits: seq<byte>, sb: seq<byte>, used: int)
    requires Roomy(g) && BitmapOk(g, bitmap, used) && IsBitmap(bitmap, bits) && |sb| == BLOCK_SIZE
    ensures |bits| % 512 == 0 && |bits| <= g.bitmapBlocks * 512 && g.totalBlocks >= 1
    ensures BitsOk(g, Finish(g, img, bits, sb), used)
  {
    RoomyHasBlocks(g);
    hide Finish, DiskBit, DataIndex, IsInodeBlock;
    forall b | 0 <= b < g.totalBlocks
      ensures DiskBit(Finish(g, img, bits, sb), b) <==> bitmap[b]
    {
      FinishBit(g, img, bits, sb, b);
      assert EfsSuper.BitAt(bits, b) <==> bitmap[b];
    }
  }

  lemma FinishedEnds(g: Geometry, img: seq<byte>, bits: seq<byte>, s: EfsSuper.Superblock)
    requires Roomy(g) && EfsSuper.Packable(s) && |img| <= g.totalBlocks * 512
    requires |bits| % 512 == 0 && |bits| <= g.bitmapBlocks * 512
    ensures g.totalBlocks >= 1
    ensures var sb := SuperBlockBytes(s); var r := Finish(g, img, bits, sb);
            && |sb| == BLOCK_SIZE && sb[BLOCK_SIZE - 1] == 0
            && |r| == g.totalBlocks * 512 && Block(r, 1) == sb == Block(r, g.totalBlocks - 1)
  {
    hide Finish, Consistent, EfsSuper.Packable, SuperBlockBytes;
    RoomyHasBlocks(g);
    SuperEndsInZero(s);
    var sb := SuperBlockBytes(s);
    FinishLength(g, img, bits, sb);
    FinishBlock(g, img, bits, sb, 1);
    FinishBlock(g, img, bits, sb, g.totalBlocks - 1);
  }

  lemma FinishedParts(g: Geometry, nodes: seq<Node>, inodes: Inodes, used: int, s: EfsSuper.Superblock, img1: seq<byte>,
                      img2: seq<byte>, pos: int, bitmap: seq<bool>, bits: seq<byte>)
    requires Roomy(g) && Writing(g, nodes, |nodes|, img1, pos, bitmap) && IsBitmap(bitmap, bits)
    requires used == StartAt(g, nodes, |nodes|) && |img2| <= g.totalBlocks * 512
    requires TablePass(g, inodes, 0, img1, img2, g.numCgs) && EfsSuper.Packable(s)
    ensures g.totalBlocks >= 1
    ensures var sb := SuperBlockBytes(s); var r := Finish(g, img2, bits, sb);
            && |r| == g.totalBlocks * 512 && Block(r, 1) == sb == Block(r, g.totalBlocks - 1)
            && TableOk(g, inodes, r) && BitsOk(g, r, used)
            && NodesOk(g, nodes, r)
  {
    hide SuperBlockBytes, StartAt, Finish, Demand, IsBitmap, GroupTable, NodeOnDisk, SameButInodes, Consistent,
      EfsSuper.Packable, TableOk, NodesOk, BitsOk, BitmapOk, NumDataBlocks;
    RoomyHasBlocks(g);
    SuperEndsInZero(s);
    var sb := SuperBlockBytes(s);
    BitsOnDisk(g, img2, bitmap, bits, sb, used);
    FinishedEnds(g, img2, bits, s);
    FinishTables(g, inodes, img1, img2, bits, sb);
    FinishNodes(g, nodes, img1, img2, bits, sb, pos, bitmap);
  }

  /** The finished image holds every node, the inode table, the bitmap and both superblocks. */
  lemma FinishedImage(g: Geometry, nodes: seq<Node>, now: int, img1: seq<byte>, img2: seq<byte>, pos: int, bitmap: seq<bool>, bits: seq<byte>)
    requires Roomy(g) && Writing(g, nodes, |nodes|, img1, pos, bitmap) && IsBitmap(bitmap, bits)
    requires AllPackable(InodesAt(g, nodes, |nodes|)) && |img2| <= g.totalBlocks * 512
    requires TablePass(g, InodesAt(g, nodes, |nodes|), 0, img1, img2, g.numCgs)
    requires EfsSuper.Packable(SuperFor(g, StartAt(g, nodes, |nodes|), |nodes|, now))
    ensures g.totalBlocks >= 1
    ensures ImageOk(g, nodes, now, Finish(g, img2, bits, SuperBlockBytes(SuperFor(g, StartAt(g, nodes, |nodes|), |nodes|, now))))
  {
    hide InodesAt, AllPackable, SuperFor, SuperBlockBytes, StartAt, Finish, Demand, IsBitmap, Writing, TablePass,
      Consistent, EfsSuper.Packable, TableOk, NodesOk, BitsOk, NumDataBlocks;
    var used := StartAt(g, nodes, |nodes|);
    FinishedParts(g, nodes, InodesAt(g, nodes, |nodes|), used, SuperFor(g, used, |nodes|, now), img1, img2, pos, bitmap, bits);
  }

  lemma FinishTables(g: Geometry, inodes: Inodes, img1: seq<byte>, img2: seq<byte>, bits: seq<byte>, sb: seq<byte>)
    requires Roomy(g) && |bits| % 512 == 0 && |bits| <= g.bitmapBlocks * 512
    requires |sb| == BLOCK_SIZE && sb[BLOCK_SIZE - 1] == 0 && TablePass(g, inodes, 0, img1, img2, g.numCgs)
    ensures TableOk(g, inodes, Finish(g, img2, bits, sb))
  {
    hide GroupTable, Finish, SameButInodes;
    forall c | 0 <= c < g.numCgs
      ensures GroupTable(g, inodes, c * 32, Finish(g, img2, bits, sb), c)
    {
      assert GroupsDone(g, inodes, 0, img2, g.numCgs) && GroupTable(g, inodes, 0 + c * 32, img2, c);
      FinishTable(g, inodes, c * 32, img2, bits, sb, c);
    }
  }

  lemma FinishNodes(g: Geometry, nodes: seq<Node>, img1: seq<byte>, img2: seq<byte>, bits: seq<byte>, sb: seq<byte>, pos: int, bitmap: seq<bool>)
    requires Roomy(g) && |bits| % 512 == 0 && |bits| <= g.bitmapBlocks * 512
    requires |sb| == BLOCK_SIZE && sb[BLOCK_SIZE - 1] == 0 && SameButInodes(g, img1, img2)
    requires Writing(g, nodes, |nodes|, img1, pos, bitmap)
    ensures NodesOk(g, nodes, Finish(g, img2, bits, sb))
  {
    hide NodeOnDisk, NodeKeeps, Finish, SameButInodes, BitmapOk, StartAt, Demand;
    forall j | 0 <= j < |nodes|
      ensures NodeKeeps(g, Finish(g, img2, bits, sb), nodes, j)
    {
      FinishNode(g, nodes, img1, img2, bits, sb, j);
    }
  }
}
