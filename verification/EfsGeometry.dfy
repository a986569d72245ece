/** Filesystem geometry, and the numbering of data blocks it gives. */
module EfsGeometry {
  import opened Disk

  const INODES_PER_BLOCK: nat := 4
  const INODES_PER_CG: nat := 32
  const INODE_BLOCKS: nat := 8  // 32 / 4
  const MAX_IMAGE_BLOCKS: nat := 0x100_0000  // 8192 MB

  datatype Geometry = Geometry(
    totalBlocks: int, firstCg: int, cgSize: int, inodesPerCg: int, numCgs: int, bitmapBlocks: int)

  function CeilDiv(a: int, b: int): int
    requires b > 0
  {
    (a + b - 1) / b
  }

  type ImageSize = n: int | n <= 0x100_0000 witness 0

  /** `EFSBuilder.__init__`: the image is capped at 8192 MB. */
  function ImageBlocks(sizeMb: int): ImageSize {
    (if sizeMb < 8192 then sizeMb else 8192) * 2048
  }

  function NumCgs(nodes: nat): (n: int)
    ensures n >= 1
  {
    var n := CeilDiv(nodes + 100, INODES_PER_CG);
    if n > 1 then n else 1
  }

  function CgDataBlocks(nodes: nat, dataBytes: nat): int {
    var n := CeilDiv(CeilDiv(dataBytes, 512), NumCgs(nodes)) + 50;
    if n > 100 then n else 100
  }

  function BitmapBlocks(fsBlocks: int): int { CeilDiv(CeilDiv(fsBlocks, 8), BLOCK_SIZE) }

  /** Blocks of all cylinder groups, before any shrinking. */
  function Layout(nodes: nat, dataBytes: nat): int {
    NumCgs(nodes) * (8 + CgDataBlocks(nodes, dataBytes))
  }

  function FinalBitmapBlocks(layout: int): int { BitmapBlocks(2 + BitmapBlocks(5 + layout + 1) + layout) }

  /** The branch that shrinks the cylinder groups to fit the image is taken. */
  predicate Shrinks(nodes: nat, dataBytes: nat, imageBlocks: int) {
    var l := Layout(nodes, dataBytes);
    2 + FinalBitmapBlocks(l) + l > imageBlocks
  }

  function GeometryFor(nodes: nat, dataBytes: nat, imageBlocks: int): Geometry {
    var cgs, l := NumCgs(nodes), Layout(nodes, dataBytes);
    var firstCg := 2 + FinalBitmapBlocks(l);
    var cgSize := if Shrinks(nodes, dataBytes, imageBlocks) then (imageBlocks - firstCg) / cgs
                  else INODE_BLOCKS + CgDataBlocks(nodes, dataBytes);
    Geometry(firstCg + cgs * cgSize, firstCg, cgSize, INODES_PER_CG, cgs, firstCg - 2)
  }

  /** `calculate_geometry`. */
  method CalculateGeometry(nodes: nat, dataBytes: nat, imageBlocks: int) returns (g: Geometry)
    ensures g == GeometryFor(nodes, dataBytes, imageBlocks)
  {
    var numCgs := (nodes + 100 + INODES_PER_CG - 1) / 32;
    if numCgs < 1 { numCgs := 1; }
    var dataBlocks := (dataBytes + BLOCK_SIZE - 1) / 512;
    var cgDataBlocks := (dataBlocks + numCgs - 1) / numCgs + 50;
    if cgDataBlocks < 100 { cgDataBlocks := 100; }
    var cgSize := INODE_BLOCKS + cgDataBlocks;
    var firstCg, bitmapBlocks := 0, 0;
    for pass := 0 to 3
      invariant pass > 0 ==> bitmapBlocks == BitmapBlocks(5 + numCgs * cgSize + 1) && firstCg == 2 + bitmapBlocks
    {
      var approx := 5 + numCgs * cgSize + 1;
      bitmapBlocks := ((approx + 7) / 8 + BLOCK_SIZE - 1) / 512;
      firstCg := 2 + bitmapBlocks;
    }
    var actual := firstCg + numCgs * cgSize;
    bitmapBlocks := ((actual + 7) / 8 + BLOCK_SIZE - 1) / 512;
    firstCg := 2 + bitmapBlocks;
    actual := firstCg + numCgs * cgSize;
    if actual > imageBlocks {
      cgSize := (imageBlocks - firstCg) / numCgs;
      actual := firstCg + numCgs * cgSize;
    }
    g := Geometry(actual, firstCg, cgSize, INODES_PER_CG, numCgs, bitmapBlocks);
  }

  /** What every geometry satisfies, whatever the file set and the image size. */
  ghost predicate Consistent(g: Geometry) {
    && g.totalBlocks == g.firstCg + g.numCgs * g.cgSize <= MAX_IMAGE_BLOCKS
    && g.bitmapBlocks >= 1 && g.firstCg == 2 + g.bitmapBlocks
    && g.bitmapBlocks * 4096 >= g.totalBlocks
    && g.numCgs >= 1 && g.inodesPerCg == INODES_PER_CG
  }

  lemma BitmapBlocksCovers(fsBlocks: int)
    ensures 4096 * (BitmapBlocks(fsBlocks) - 1) < fsBlocks <= 4096 * BitmapBlocks(fsBlocks)
  {}

  lemma BitmapCoversLayout(layout: int, total: int)
    requires layout >= 1
    requires var b := FinalBitmapBlocks(layout);
             total <= MAX_IMAGE_BLOCKS && (total == 2 + b + layout || total < 2 + b + layout)
    ensures FinalBitmapBlocks(layout) * 4096 >= total && FinalBitmapBlocks(layout) >= 1
  {
    var first := BitmapBlocks(5 + layout + 1);
    BitmapBlocksCovers(5 + layout + 1);
    BitmapBlocksCovers(2 + first + layout);
  }

  lemma FloorDivBound(a: int, b: int)
    requires b > 0
    ensures b * (a / b) <= a < b * (a / b) + b
  {}

  lemma LayoutIsPositive(nodes: nat, dataBytes: nat)
    ensures Layout(nodes, dataBytes) >= 1
  {
    hide NumCgs;
    MulMono(NumCgs(nodes), 1, 8 + CgDataBlocks(nodes, dataBytes));
  }

  /** The filesystem is as large as its layout, or has been shrunk. */
  lemma TotalIs(nodes: nat, dataBytes: nat, imageBlocks: ImageSize)
    ensures var g, l := GeometryFor(nodes, dataBytes, imageBlocks), Layout(nodes, dataBytes);
            g.totalBlocks == g.firstCg + l || g.totalBlocks <= imageBlocks < g.firstCg + l
  {
    FitsTheImage(nodes, dataBytes, imageBlocks);
    hide FinalBitmapBlocks, NumCgs, CgDataBlocks;
  }

  /** The filesystem is exactly first_cg + num_cgs * cg_size blocks, fits the image, its bitmap
      covers it, and there is an inode slot for every node. */
  lemma GeometryIsConsistent(nodes: nat, dataBytes: nat, imageBlocks: ImageSize)
    ensures var g := GeometryFor(nodes, dataBytes, imageBlocks);
            && Consistent(g) && g.totalBlocks <= imageBlocks
            && nodes + 100 <= g.numCgs * g.inodesPerCg
  {
    hide FinalBitmapBlocks, NumCgs, Layout, CgDataBlocks;
    var g, l := GeometryFor(nodes, dataBytes, imageBlocks), Layout(nodes, dataBytes);
    LayoutIsPositive(nodes, dataBytes);
    FitsTheImage(nodes, dataBytes, imageBlocks);
    TotalIs(nodes, dataBytes, imageBlocks);
    BitmapCoversLayout(l, g.totalBlocks);
    CgsCoverNodes(nodes);
  }

  lemma FitsTheImage(nodes: nat, dataBytes: nat, imageBlocks: ImageSize)
    ensures GeometryFor(nodes, dataBytes, imageBlocks).totalBlocks <= imageBlocks
  {
    hide FinalBitmapBlocks, CeilDiv;
    var g := GeometryFor(nodes, dataBytes, imageBlocks);
    if Shrinks(nodes, dataBytes, imageBlocks) { FloorDivBound(imageBlocks - g.firstCg, g.numCgs); }
  }

  lemma CgsCoverNodes(nodes: nat)
    ensures nodes + 100 <= NumCgs(nodes) * 32
  {}

  /** Unless the groups are shrunk, the data area exceeds the file data by 50 blocks a group. */
  lemma DataAreaBound(nodes: nat, dataBytes: nat, imageBlocks: int)
    requires !Shrinks(nodes, dataBytes, imageBlocks)
    ensures var g := GeometryFor(nodes, dataBytes, imageBlocks);
            && g.cgSize >= INODE_BLOCKS + 100
            && g.numCgs * (g.cgSize - 8) >= CeilDiv(dataBytes, 512) + 50 * g.numCgs
            && 32 * g.numCgs >= nodes + 100
  {
    var cgs, b := NumCgs(nodes), CeilDiv(dataBytes, 512);
    CgsCoverNodes(nodes);
    var q := CeilDiv(b, cgs);
    FloorDivBound(b + cgs - 1, cgs);
    assert cgs * q >= b;
    assert cgs * (q + 50) == cgs * q + 50 * cgs;
    MulMono(cgs, q + 50, CgDataBlocks(nodes, dataBytes));
  }

  /** No group, data block or bitmap block more than is needed: one group fewer has too few inode slots; one data
      block fewer a group is below the least size or leaves no slack of 50; of the bitmap blocks at most one is over;
      and a shrunk group is as large as the image allows. */
  lemma GeometryIsTight(nodes: nat, dataBytes: nat, imageBlocks: ImageSize)
    ensures var g := GeometryFor(nodes, dataBytes, imageBlocks); var whole := g.firstCg + Layout(nodes, dataBytes);
            && 32 * (g.numCgs - 1) < nodes + 100 <= 32 * g.numCgs
            && 4096 * (g.bitmapBlocks - 1) <= whole
            && if whole <= imageBlocks then
                 && g.totalBlocks == whole && g.cgSize >= 108
                 && 512 * (g.numCgs * (g.cgSize - 58)) >= dataBytes
                 && (g.cgSize == 108 || 512 * (g.numCgs * (g.cgSize - 59)) < dataBytes)
               else g.numCgs * g.cgSize <= imageBlocks - g.firstCg < g.numCgs * (g.cgSize + 1)
  {
    hide CgDataBlocks, NumCgs, FinalBitmapBlocks;
    var g, l := GeometryFor(nodes, dataBytes, imageBlocks), Layout(nodes, dataBytes);
    NumCgsLeast(nodes);
    LayoutIsPositive(nodes, dataBytes);
    BitmapTight(l);
    if g.firstCg + l <= imageBlocks {
      DataBlocksLeast(nodes, dataBytes);
      assert g.cgSize - 58 == CgDataBlocks(nodes, dataBytes) - 50 && g.cgSize - 59 == CgDataBlocks(nodes, dataBytes) - 51;
    } else {
      FloorDivBound(imageBlocks - g.firstCg, g.numCgs);
      assert g.numCgs * (g.cgSize + 1) == g.numCgs * g.cgSize + g.numCgs;
    }
  }

  lemma NumCgsLeast(nodes: nat)
    ensures 32 * (NumCgs(nodes) - 1) < nodes + 100 <= 32 * NumCgs(nodes)
  {}

  lemma BitmapTight(layout: int)
    requires layout >= 1
    ensures 4096 * (FinalBitmapBlocks(layout) - 1) <= 2 + FinalBitmapBlocks(layout) + layout
  {
    var first := BitmapBlocks(5 + layout + 1);
    BitmapBlocksCovers(5 + layout + 1);
    BitmapBlocksCovers(2 + first + layout);
  }

  lemma DataBlocksLeast(nodes: nat, dataBytes: nat)
    ensures var n, d := NumCgs(nodes), CgDataBlocks(nodes, dataBytes);
            d >= 100 && 512 * (n * (d - 50)) >= dataBytes && (d == 100 || 512 * (n * (d - 51)) < dataBytes)
  {
    hide NumCgs;
    var n, d := NumCgs(nodes), CgDataBlocks(nodes, dataBytes);
    var b := CeilDiv(dataBytes, 512);
    var q := CeilDiv(b, n);
    FloorDivBound(b + n - 1, n);
    assert n * q >= b && n * q == n * (q - 1) + n;
    MulMono(n, q, d - 50);
    assert 512 * (b - 1) < dataBytes <= 512 * b;
    if d != 100 { assert n * (d - 51) <= b - 1; }
  }

  /** The image is as large as asked for, up to 8192 MB. */
  lemma ImageIsAsAsked(sizeMb: int)
    ensures ImageBlocks(sizeMb) * 512 == (if sizeMb > 8192 then 8192 else sizeMb) * 1024 * 1024
  {}

  lemma MulMono(a: int, b: int, c: int)
    requires a >= 0 && b <= c
    ensures a * b <= a * c
  {}
}
