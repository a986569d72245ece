/** The block allocator: a bump pointer that skips the inode area of every cylinder group. */
module EfsAlloc {
  import opened Common
  import opened EfsGeometry

  const MAX_EXTENT_LENGTH: nat := 248

  datatype Extent = Extent(bn: int, length: int, offset: int, magic: int)

  /** Skips past the inode blocks of the group that `pos` lies in. */
  function SkipInodes(g: Geometry, pos: int): int
    requires g.cgSize > 0
  {
    if pos >= g.firstCg && (pos - g.firstCg) % g.cgSize < INODE_BLOCKS
    then g.firstCg + (pos - g.firstCg) / g.cgSize * g.cgSize + INODE_BLOCKS
    else pos
  }

  /** End of the data area of the group that `pos` lies in. */
  function DataEnd(g: Geometry, pos: int): int
    requires g.cgSize > 0
  {
    if pos >= g.firstCg then g.firstCg + ((pos - g.firstCg) / g.cgSize + 1) * g.cgSize else g.totalBlocks
  }

  lemma DataEndIsAhead(g: Geometry, pos: int)
    requires g.cgSize > 0 && pos < g.totalBlocks
    ensures pos < DataEnd(g, pos)
  {
    FloorDivBound(pos - g.firstCg, g.cgSize);
  }

  function ExtentLength(g: Geometry, pos: int, remain: nat): (len: nat)
    requires g.cgSize > 0 && pos < g.totalBlocks && remain > 0
    ensures 1 <= len <= remain && len <= MAX_EXTENT_LENGTH
  {
    DataEndIsAhead(g, pos);
    Min(Min(DataEnd(g, pos) - pos, remain), Min(MAX_EXTENT_LENGTH, g.totalBlocks - pos))
  }

  /** The extents `_allocate_blocks` hands out from block `pos` on, and where it stops. */
  function Alloc(g: Geometry, pos: int, remain: nat, off: nat): (seq<Extent>, int)
    requires g.cgSize > 0
    decreases remain
  {
    if remain == 0 then ([], pos)
    else
      var p := SkipInodes(g, pos);
      if p >= g.totalBlocks then ([], p)
      else
        var len := ExtentLength(g, p, remain);
        var rest := Alloc(g, p + len, remain - len, off + len);
        ([Extent(p, len, off, 0)] + rest.0, rest.1)
  }

  // ------------------------------------------------- numbering the data blocks

  ghost predicate Roomy(g: Geometry) { Consistent(g) && g.cgSize > INODE_BLOCKS }

  function PerCg(g: Geometry): int { g.cgSize - 8 }

  function NumDataBlocks(g: Geometry): int { g.numCgs * PerCg(g) }

  /** Block number of the `i`-th data block of the filesystem. */
  function DataBlock(g: Geometry, i: int): int
    requires g.cgSize > INODE_BLOCKS
  {
    g.firstCg + i / PerCg(g) * g.cgSize + INODE_BLOCKS + i % PerCg(g)
  }

  /** How many data blocks lie before block `pos`. */
  function DataIndex(g: Geometry, pos: int): int
    requires g.cgSize > INODE_BLOCKS
  {
    var o := (pos - g.firstCg) % g.cgSize;
    (pos - g.firstCg) / g.cgSize * PerCg(g) + if o < INODE_BLOCKS then 0 else o - INODE_BLOCKS
  }

  ghost predicate IsInodeBlock(g: Geometry, b: int)
    requires g.cgSize > 0
  {
    g.firstCg <= b < g.totalBlocks && (b - g.firstCg) % g.cgSize < INODE_BLOCKS
  }

  ghost predicate IsDataBlock(g: Geometry, b: int)
    requires g.cgSize > 0
  {
    g.firstCg <= b < g.totalBlocks && (b - g.firstCg) % g.cgSize >= INODE_BLOCKS
  }

  lemma DivModIs(a: int, b: int, q: int, r: int)
    requires b > 0 && a == q * b + r && 0 <= r < b
    ensures a / b == q && a % b == r
  {
    var d := a / b - q;
    assert d * b == r - a % b by { Distribute(a / b, q, b); }
    if d >= 1 { MulMono(b, 1, d); }
    if d <= -1 { MulMono(b, d, -1); }
  }

  lemma Distribute(x: int, y: int, z: int)
    ensures (x - y) * z == x * z - y * z
  {}

  lemma DataBlockAt(g: Geometry, c: int, o: int)
    requires g.cgSize > INODE_BLOCKS && 0 <= o < PerCg(g)
    ensures DataBlock(g, c * PerCg(g) + o) == g.firstCg + c * g.cgSize + INODE_BLOCKS + o
  {
    DivModIs(c * PerCg(g) + o, PerCg(g), c, o);
  }

  lemma DataIndexAt(g: Geometry, c: int, o: int)
    requires g.cgSize > INODE_BLOCKS && 0 <= o < g.cgSize
    ensures DataIndex(g, g.firstCg + c * g.cgSize + o) ==
            c * PerCg(g) + if o < INODE_BLOCKS then 0 else o - INODE_BLOCKS
  {
    DivModIs(c * g.cgSize + o, g.cgSize, c, o);
  }

  /** Data blocks are data blocks, and are numbered without gaps or repeats. */
  lemma DataBlockNumbering(g: Geometry, i: int)
    requires Roomy(g) && 0 <= i < NumDataBlocks(g)
    ensures IsDataBlock(g, DataBlock(g, i)) && DataIndex(g, DataBlock(g, i)) == i
  {
    var c, o := i / PerCg(g), i % PerCg(g);
    FloorDivBound(i, PerCg(g));
    assert 0 <= c < g.numCgs by {
      if c >= g.numCgs { MulMono(PerCg(g), g.numCgs, c); }
      if c <= -1 { MulMono(PerCg(g), c, -1); }
    }
    MulMono(g.cgSize, c + 1, g.numCgs);
    MulMono(g.cgSize, 0, c);
    assert (c + 1) * g.cgSize == c * g.cgSize + g.cgSize;
    DataIndexAt(g, c, INODE_BLOCKS + o);
    DivModIs(c * g.cgSize + INODE_BLOCKS + o, g.cgSize, c, INODE_BLOCKS + o);
  }

  lemma GroupBelow(g: Geometry, b: int)
    requires Roomy(g) && g.firstCg <= b < g.totalBlocks
    ensures 0 <= (b - g.firstCg) / g.cgSize < g.numCgs
  {
    var c := (b - g.firstCg) / g.cgSize;
    if c >= g.numCgs { MulMono(g.cgSize, g.numCgs, c); }
  }

  /** Where a block lies: its group and its place there. */
  lemma GroupAndPlace(g: Geometry, b: int)
    requires Roomy(g) && g.firstCg <= b < g.totalBlocks
    ensures var c, o := (b - g.firstCg) / g.cgSize, (b - g.firstCg) % g.cgSize;
            0 <= c < g.numCgs && 0 <= o < g.cgSize && b == g.firstCg + c * g.cgSize + o
  {
    GroupBelow(g, b);
    hide Consistent;
    FloorDivBound(b - g.firstCg, g.cgSize);
  }

  lemma GroupBounds(g: Geometry, c: int)
    requires Roomy(g) && 0 <= c < g.numCgs
    ensures 0 <= c * g.cgSize && c * g.cgSize + g.cgSize <= g.numCgs * g.cgSize
    ensures 0 <= c * PerCg(g) && c * PerCg(g) + PerCg(g) <= NumDataBlocks(g)
  {
    MulMono(PerCg(g), c + 1, g.numCgs);
    MulMono(g.cgSize, c + 1, g.numCgs);
    MulMono(PerCg(g), 0, c);
    MulMono(g.cgSize, 0, c);
  }

  lemma DataIndexInverse(g: Geometry, b: int)
    requires Roomy(g) && IsDataBlock(g, b)
    ensures 0 <= DataIndex(g, b) < NumDataBlocks(g) && DataBlock(g, DataIndex(g, b)) == b
  {
    GroupAndPlace(g, b);
    hide Consistent, DataBlock, NumDataBlocks;
    var c, o := (b - g.firstCg) / g.cgSize, (b - g.firstCg) % g.cgSize;
    GroupBounds(g, c);
    DataBlockAt(g, c, o - INODE_BLOCKS);
  }

  // ------------------------------------------------- what an allocation returns

  /** Data blocks i..i+len are the consecutive disk blocks from `p` on. */
  ghost predicate Run(g: Geometry, i: int, p: int, len: int)
    requires g.cgSize > INODE_BLOCKS
  {
    forall k :: i <= k < i + len ==> DataBlock(g, k) == p + k - i
  }

  ghost predicate SameGroup(g: Geometry, a: int, b: int)
    requires g.cgSize > INODE_BLOCKS
  {
    (a - g.firstCg) / g.cgSize == (b - g.firstCg) / g.cgSize
  }

  /** `exts` place the logical blocks off..off+m of a file on the data blocks i..i+m, in order;
      each extent is 1..248 blocks inside one cylinder group. */
  ghost predicate Maps(g: Geometry, exts: seq<Extent>, off: nat, i: nat, m: nat)
    requires g.cgSize > INODE_BLOCKS
  {
    if exts == [] then m == 0
    else
      var e := exts[0];
      && e.offset == off && e.magic == 0 && 1 <= e.length <= m && e.length <= MAX_EXTENT_LENGTH
      && Run(g, i, e.bn, e.length) && SameGroup(g, e.bn, e.bn + e.length - 1)
      && Maps(g, exts[1..], off + e.length, i + e.length, m - e.length)
  }

  lemma GroupRun(g: Geometry, c: int, o: int, len: int)
    requires g.cgSize > INODE_BLOCKS && INODE_BLOCKS <= o && 1 <= len && o + len <= g.cgSize
    ensures var p, i := g.firstCg + c * g.cgSize + o, c * PerCg(g) + o - INODE_BLOCKS;
            Run(g, i, p, len) && SameGroup(g, p, p + len - 1)
  {
    var p, i := g.firstCg + c * g.cgSize + o, c * PerCg(g) + o - INODE_BLOCKS;
    DivModIs(c * g.cgSize + o, g.cgSize, c, o);
    DivModIs(c * g.cgSize + o + len - 1, g.cgSize, c, o + len - 1);
    hide DataBlock;
    forall k | i <= k < i + len
      ensures DataBlock(g, k) == p + k - i
    {
      DataBlockAt(g, c, o - INODE_BLOCKS + k - i);
    }
  }

  lemma IndexAfterRun(g: Geometry, c: int, o: int, len: int)
    requires g.cgSize > INODE_BLOCKS && INODE_BLOCKS <= o && 1 <= len && o + len <= g.cgSize
    ensures DataIndex(g, g.firstCg + c * g.cgSize + o + len) == c * PerCg(g) + o - INODE_BLOCKS + len
  {
    hide DataIndex;
    if o + len < g.cgSize {
      DataIndexAt(g, c, o + len);
    } else {
      assert (c + 1) * g.cgSize == c * g.cgSize + g.cgSize && (c + 1) * PerCg(g) == c * PerCg(g) + PerCg(g);
      DataIndexAt(g, c + 1, 0);
    }
  }

  lemma GroupDataEnd(g: Geometry, c: int, o: int)
    requires g.cgSize > 0 && 0 <= c && 0 <= o < g.cgSize
    ensures DataEnd(g, g.firstCg + c * g.cgSize + o) == g.firstCg + c * g.cgSize + g.cgSize
  {
    MulMono(g.cgSize, 0, c);
    DivModIs(c * g.cgSize + o, g.cgSize, c, o);
    assert (c + 1) * g.cgSize == c * g.cgSize + g.cgSize;
  }

  /** One extent, taken at offset `o` of group `c`. */
  lemma InsideGroup(g: Geometry, c: int, o: int, remain: nat)
    requires Roomy(g) && 0 <= c < g.numCgs && INODE_BLOCKS <= o < g.cgSize && remain > 0
    ensures var p, i := g.firstCg + c * g.cgSize + o, c * PerCg(g) + o - INODE_BLOCKS;
            && 0 <= i < NumDataBlocks(g) && g.firstCg <= p < g.totalBlocks
            && var len := ExtentLength(g, p, remain);
            && i + len <= NumDataBlocks(g) && Run(g, i, p, len) && SameGroup(g, p, p + len - 1)
            && DataIndex(g, p + len) == i + len
  {
    var p := g.firstCg + c * g.cgSize + o;
    GroupBounds(g, c);
    var len := ExtentLength(g, p, remain);
    assert o + len <= g.cgSize by { GroupDataEnd(g, c, o); }
    hide DataIndex, Run, SameGroup, ExtentLength;
    GroupRun(g, c, o, len);
    IndexAfterRun(g, c, o, len);
  }

  lemma SkippedIndex(g: Geometry, pos: int)
    requires g.cgSize > INODE_BLOCKS && pos >= g.firstCg
    ensures var c, o := (pos - g.firstCg) / g.cgSize, (pos - g.firstCg) % g.cgSize;
            var o' := if o < INODE_BLOCKS then INODE_BLOCKS else o;
            && SkipInodes(g, pos) == g.firstCg + c * g.cgSize + o' && DataIndex(g, pos) == c * PerCg(g) + o' - INODE_BLOCKS
            && c >= 0 && 0 <= o < g.cgSize
  {}

  /** Beyond the last group nothing is left. */
  lemma PastTheEnd(g: Geometry, c: int, o: int)
    requires Roomy(g) && c >= g.numCgs && INODE_BLOCKS <= o < g.cgSize
    requires c * PerCg(g) + o - INODE_BLOCKS <= NumDataBlocks(g)
    ensures g.firstCg + c * g.cgSize + o >= g.totalBlocks && c * PerCg(g) + o - INODE_BLOCKS == NumDataBlocks(g)
  {
    MulMono(PerCg(g), g.numCgs, c);
    MulMono(g.cgSize, g.numCgs, c);
  }

  lemma {:induction false} ExtentOnData(g: Geometry, pos: int, remain: nat)
    requires Roomy(g) && pos >= g.firstCg && DataIndex(g, pos) <= NumDataBlocks(g) && remain > 0
    ensures var i, p := DataIndex(g, pos), SkipInodes(g, pos);
            && p >= g.firstCg && i >= 0
            && (p >= g.totalBlocks ==> i == NumDataBlocks(g) == DataIndex(g, p))
            && (p < g.totalBlocks ==>
                  var len := ExtentLength(g, p, remain);
                  && i + len <= NumDataBlocks(g) && Run(g, i, p, len) && SameGroup(g, p, p + len - 1)
                  && DataIndex(g, p + len) == i + len)
  {
    hide DataIndex, SkipInodes, ExtentLength, Run, SameGroup, NumDataBlocks;
    var c, o := (pos - g.firstCg) / g.cgSize, (pos - g.firstCg) % g.cgSize;
    var o' := if o < INODE_BLOCKS then INODE_BLOCKS else o;
    SkippedIndex(g, pos);
    DataIndexAt(g, c, o');
    if c >= g.numCgs { PastTheEnd(g, c, o'); } else { InsideGroup(g, c, o', remain); }
  }

  /** Every allocation takes the next data blocks in order: as many as asked for, or all that are left. */
  lemma {:induction false} AllocIsBump(g: Geometry, pos: int, remain: nat, off: nat)
    requires Roomy(g) && pos >= g.firstCg && DataIndex(g, pos) <= NumDataBlocks(g)
    ensures var i, r := DataIndex(g, pos), Alloc(g, pos, remain, off);
            && i >= 0 && r.1 >= g.firstCg
            && var m := Min(remain, NumDataBlocks(g) - i);
            Maps(g, r.0, off, i, m) && DataIndex(g, r.1) == i + m
    decreases remain
  {
    hide DataIndex, SkipInodes, ExtentLength, Run, SameGroup, NumDataBlocks;
    IndexNonNegative(g, pos);
    if remain > 0 {
      ExtentOnData(g, pos, remain);
      var i, p := DataIndex(g, pos), SkipInodes(g, pos);
      if p < g.totalBlocks {
        var len := ExtentLength(g, p, remain);
        hide Consistent;
        AllocIsBump(g, p + len, remain - len, off + len);
        var r, rest := Alloc(g, pos, remain, off), Alloc(g, p + len, remain - len, off + len);
        var m := Min(remain, NumDataBlocks(g) - i);
        assert r.0[0] == Extent(p, len, off, 0) && r.0[1..] == rest.0;
        assert Maps(g, r.0[1..], off + len, i + len, m - len);
      }
    }
  }

  lemma IndexNonNegative(g: Geometry, pos: int)
    requires g.cgSize > INODE_BLOCKS && pos >= g.firstCg
    ensures DataIndex(g, pos) >= 0
  {
    MulMono(PerCg(g), 0, (pos - g.firstCg) / g.cgSize);
  }

  /** The block that holds logical block `l` of a file, by the extents' own offsets. */
  function FindBlock(exts: seq<Extent>, l: nat): Option<int> {
    if exts == [] then None
    else if exts[0].offset <= l < exts[0].offset + exts[0].length then Some(exts[0].bn + l - exts[0].offset)
    else FindBlock(exts[1..], l)
  }

  lemma {:induction false} MapsFind(g: Geometry, exts: seq<Extent>, off: nat, i: nat, m: nat, l: nat)
    requires g.cgSize > INODE_BLOCKS && Maps(g, exts, off, i, m)
    ensures FindBlock(exts, l) == if off <= l < off + m then Some(DataBlock(g, i + l - off)) else None
    decreases |exts|
  {
    hide SameGroup, DataBlock;
    if exts != [] {
      var e := exts[0];
      MapsFind(g, exts[1..], off + e.length, i + e.length, m - e.length, l);
    }
  }

  /** No block a file is placed on lies in an inode area. */
  ghost predicate AvoidsInodes(g: Geometry, exts: seq<Extent>)
    requires g.cgSize > 0
  {
    forall l: nat :: FindBlock(exts, l).Some? ==> !IsInodeBlock(g, FindBlock(exts, l).value)
  }

  lemma RoomyAvoidsInodes(g: Geometry, pos: int, remain: nat)
    requires Roomy(g) && pos >= g.firstCg && DataIndex(g, pos) <= NumDataBlocks(g)
    ensures AvoidsInodes(g, Alloc(g, pos, remain, 0).0)
  {
    AllocIsBump(g, pos, remain, 0);
    var exts, i := Alloc(g, pos, remain, 0).0, DataIndex(g, pos);
    var m := Min(remain, NumDataBlocks(g) - i);
    hide DataIndex, DataBlock, Alloc, Maps, FindBlock;
    forall l: nat
      ensures FindBlock(exts, l).Some? ==> !IsInodeBlock(g, FindBlock(exts, l).value)
    {
      MapsFind(g, exts, 0, i, m, l);
      if l < m { DataBlockNumbering(g, i + l); }
    }
  }

  lemma CrampedHitsInodes(g: Geometry, pos: int, remain: nat)
    requires 0 < g.cgSize <= INODE_BLOCKS && pos >= g.firstCg
    requires Alloc(g, pos, remain, 0).0 != []
    ensures !AvoidsInodes(g, Alloc(g, pos, remain, 0).0)
  {
    var exts, p := Alloc(g, pos, remain, 0).0, SkipInodes(g, pos);
    SkipStays(g, pos);
    assert exts[0].bn == p && exts[0].offset == 0 && exts[0].length >= 1;
    assert FindBlock(exts, 0) == Some(p);
    FloorDivBound(p - g.firstCg, g.cgSize);
    assert IsInodeBlock(g, p);
  }

  /** With 8 blocks or fewer to a group there is no data area, and what is handed out is inode blocks;
      with more, no allocation ever touches one. */
  lemma AllocAvoidsInodesIff(g: Geometry, pos: int, remain: nat)
    requires Consistent(g) && g.cgSize > 0 && pos >= g.firstCg
    requires g.cgSize > INODE_BLOCKS ==> DataIndex(g, pos) <= NumDataBlocks(g)
    requires Alloc(g, pos, remain, 0).0 != []
    ensures AvoidsInodes(g, Alloc(g, pos, remain, 0).0) <==> g.cgSize > INODE_BLOCKS
  {
    hide AvoidsInodes, Alloc, DataIndex;
    if g.cgSize > INODE_BLOCKS {
      RoomyAvoidsInodes(g, pos, remain);
    } else {
      CrampedHitsInodes(g, pos, remain);
    }
  }

  /** One round of the allocation loop. */
  lemma AllocNone(g: Geometry, pos: int, off: nat)
    requires g.cgSize > 0
    ensures Alloc(g, pos, 0, off) == ([], pos)
  {}

  lemma AllocStep(g: Geometry, exts: seq<Extent>, pos: int, remain: nat, off: nat)
    requires g.cgSize > 0 && pos >= g.firstCg && remain > 0
    ensures var p, all := SkipInodes(g, pos), Alloc(g, pos, remain, off);
            && p >= g.firstCg
            && if p >= g.totalBlocks then all == ([], p)
               else
                 var len := ExtentLength(g, p, remain);
                 var rest := Alloc(g, p + len, remain - len, off + len);
                 exts + all.0 == exts + [Extent(p, len, off, 0)] + rest.0 && all.1 == rest.1
  {
    SkipStays(g, pos);
    hide SkipInodes, ExtentLength;
  }

  /** Skipping is done once. */
  lemma SkipStays(g: Geometry, pos: int)
    requires g.cgSize > 0 && pos >= g.firstCg
    ensures SkipInodes(g, pos) >= g.firstCg
  {
    MulMono(g.cgSize, 0, (pos - g.firstCg) / g.cgSize);
  }

  lemma InodeBlocksOfGroup(g: Geometry, c: int, b: int)
    requires Roomy(g) && 0 <= c < g.numCgs
    ensures var start := g.firstCg + c * g.cgSize;
            start <= b < start + INODE_BLOCKS <==> IsInodeBlock(g, b) && (b - g.firstCg) / g.cgSize == c
  {
    GroupBounds(g, c);
    var start := g.firstCg + c * g.cgSize;
    if start <= b < start + INODE_BLOCKS {
      DivModIs(b - g.firstCg, g.cgSize, c, b - start);
    } else if IsInodeBlock(g, b) {
      GroupAndPlace(g, b);
      hide IsInodeBlock, Consistent, NumDataBlocks;
    }
  }

  lemma ExtentInside(g: Geometry, exts: seq<Extent>, off: nat, i: nat, m: nat)
    requires Roomy(g) && exts != [] && Maps(g, exts, off, i, m) && i + m <= NumDataBlocks(g)
    ensures 0 <= exts[0].bn && exts[0].bn + exts[0].length <= g.totalBlocks
  {
    var e := exts[0];
    assert DataBlock(g, i) == e.bn && DataBlock(g, i + e.length - 1) == e.bn + e.length - 1;
    DataBlockNumbering(g, i);
    DataBlockNumbering(g, i + e.length - 1);
  }
}
