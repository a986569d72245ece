/** How many extents an allocation comes to, in closed form. */
module EfsExtents {
  import opened Common
  import opened EfsGeometry
  import opened EfsAlloc
  import opened EfsImage
  import opened EfsInode

  /** Extents of at most 248 blocks that `n` blocks in a row make. */
  function Pieces(n: int): int { (n + 247) / 248 }

  /** Extents of `r` blocks, in groups of `p` data blocks, from place `q` of a group on: the rest of that group, the
      whole groups that follow, and the beginning of one more. */
  function ExtentsOf(p: int, q: int, r: int): int
    requires p > 0
  {
    if q + r <= p then Pieces(r)
    else Pieces(p - q) + (r - (p - q)) / p * Pieces(p) + Pieces((r - (p - q)) % p)
  }

  /** From the start of a group there are only whole groups and the beginning of one more. */
  lemma FromGroupStart(p: int, r: int)
    requires p > 0 && r >= 0
    ensures ExtentsOf(p, 0, r) == r / p * Pieces(p) + Pieces(r % p)
  {
    hide Pieces;
    assert Pieces(0) == 0 by { NoPieces(); }
    if r < p {
      DivModIs(r, p, 0, r);
    } else if r == p {
      DivModIs(r, p, 1, 0);
    } else {
      var n, k := (r - p) / p, (r - p) % p;
      assert (n + 1) * p == n * p + p && (n + 1) * Pieces(p) == n * Pieces(p) + Pieces(p);
      DivModIs(r, p, n + 1, k);
    }
  }

  lemma NoPieces()
    ensures Pieces(0) == 0
  {}

  /** Taking one extent leaves one extent fewer. */
  lemma ExtentsStep(p: int, q: int, r: int, len: int)
    requires 0 <= q < p && r > 0 && len == Min(Min(p - q, r), 248)
    ensures ExtentsOf(p, q, r) == 1 + ExtentsOf(p, if q + len == p then 0 else q + len, r - len)
  {
    if q + len == p {
      hide ExtentsOf;
      FromGroupStart(p, r - len);
      LastOfGroup(p, q, r);
    } else if q + r <= p {
      assert Pieces(r) == 1 + Pieces(r - len);
    } else {
      assert len == 248 && Pieces(p - q) == 1 + Pieces(p - (q + len));
      hide Pieces;
    }
  }

  lemma LastOfGroup(p: int, q: int, r: int)
    requires 0 <= q < p && r >= p - q && p - q <= 248
    ensures ExtentsOf(p, q, r) == 1 + (r - (p - q)) / p * Pieces(p) + Pieces((r - (p - q)) % p)
  {
    assert Pieces(p - q) == 1;
    NoPieces();
    hide Pieces;
    if r == p - q { DivModIs(0, p, 0, 0); }
  }

  // ------------------------------------------------------------ the allocator's extents

  /** The group `c` and place `q` in its data area where the allocator goes on. */
  lemma Place(g: Geometry, pos: int) returns (c: int, q: int)
    requires Roomy(g) && pos >= g.firstCg
    ensures 0 <= q < PerCg(g) && SkipInodes(g, pos) == g.firstCg + c * g.cgSize + 8 + q
    ensures DataIndex(g, pos) == c * PerCg(g) + q
  {
    c := (pos - g.firstCg) / g.cgSize;
    var o := (pos - g.firstCg) % g.cgSize;
    q := if o < INODE_BLOCKS then 0 else o - INODE_BLOCKS;
  }

  lemma LengthInGroup(g: Geometry, c: int, o: int, r: nat)
    requires Roomy(g) && INODE_BLOCKS <= o < g.cgSize && r > 0
    requires var p := g.firstCg + c * g.cgSize + o; g.firstCg <= p < g.totalBlocks
    ensures ExtentLength(g, g.firstCg + c * g.cgSize + o, r) == Min(Min(g.cgSize - o, r), 248)
    ensures c * PerCg(g) + PerCg(g) <= NumDataBlocks(g)
  {
    hide DataEnd;
    DivModIs(c * g.cgSize + o, g.cgSize, c, o);
    GroupBelow(g, g.firstCg + c * g.cgSize + o);
    GroupBounds(g, c);
    GroupDataEnd(g, c, o);
  }

  /** Where in its group the next extent starts, and how long it is. */
  lemma NextExtent(g: Geometry, pos: int, r: nat) returns (q: int)
    requires Roomy(g) && pos >= g.firstCg && r > 0 && SkipInodes(g, pos) < g.totalBlocks
    requires SkipInodes(g, pos) >= g.firstCg
    ensures 0 <= q < PerCg(g) && DataIndex(g, pos) % PerCg(g) == q
    ensures DataIndex(g, pos) + PerCg(g) - q <= NumDataBlocks(g)
    ensures var len := ExtentLength(g, SkipInodes(g, pos), r);
            && len == Min(Min(PerCg(g) - q, r), 248)
            && (DataIndex(g, pos) + len) % PerCg(g) == if q + len == PerCg(g) then 0 else q + len
  {
    hide DataIndex, SkipInodes, ExtentLength, Consistent, NumDataBlocks;
    var c;
    c, q := Place(g, pos);
    LengthInGroup(g, c, 8 + q, r);
    AfterBlocks(PerCg(g), c, q, 0);
    AfterBlocks(PerCg(g), c, q, ExtentLength(g, SkipInodes(g, pos), r));
  }

  lemma AfterBlocks(p: int, c: int, q: int, len: int)
    requires 0 <= q < p && 0 <= len <= p - q
    ensures (c * p + q + len) % p == if q + len == p then 0 else q + len
  {
    if q + len == p {
      assert (c + 1) * p == c * p + p;
      DivModIs(c * p + q + len, p, c + 1, 0);
    } else {
      DivModIs(c * p + q + len, p, c, q + len);
    }
  }

  /** The number of extents of any allocation: it depends only on the place in the group where it starts, the size of
      the groups and the number of blocks it gets. */
  lemma {:induction false} ExtentCount(g: Geometry, pos: int, remain: nat, off: nat)
    requires Roomy(g) && pos >= g.firstCg && DataIndex(g, pos) <= NumDataBlocks(g)
    ensures var i, p := DataIndex(g, pos), PerCg(g);
            |Alloc(g, pos, remain, off).0| == ExtentsOf(p, i % p, Min(remain, NumDataBlocks(g) - i))
    decreases remain
  {
    hide DataIndex, SkipInodes, ExtentLength, Consistent, Run, SameGroup, NumDataBlocks, ExtentsOf;
    IndexNonNegative(g, pos);
    var i, p := DataIndex(g, pos), SkipInodes(g, pos);
    if remain > 0 { ExtentOnData(g, pos, remain); }
    if remain == 0 || p >= g.totalBlocks {
      NothingLeft(PerCg(g), i % PerCg(g));
    } else {
      var q := NextExtent(g, pos, remain);
      var len := ExtentLength(g, p, remain);
      ExtentCount(g, p + len, remain - len, off + len);
      ExtentsStep(PerCg(g), q, Min(remain, NumDataBlocks(g) - i), len);
    }
  }

  lemma NothingLeft(p: int, q: int)
    requires 0 <= q < p
    ensures ExtentsOf(p, q, 0) == 0
  {}

  /** The extents of node `j`. */
  lemma {:induction false} NodeExtentCount(g: Geometry, nodes: seq<Node>, j: nat)
    requires Roomy(g) && j < |nodes|
    ensures |ExtsAt(g, nodes, j)| ==
            ExtentsOf(PerCg(g), StartAt(g, nodes, j) % PerCg(g), StartAt(g, nodes, j + 1) - StartAt(g, nodes, j))
  {
    NodesAreBumped(g, nodes, j);
    NodeRange(g, nodes, j);
    hide DataIndex, Alloc, Demand, NumDataBlocks, NodeBlocks, PosAt, ExtentsOf, Consistent;
    ExtentCount(g, PosAt(g, nodes, j), NodeBlocks(nodes[j]), 0);
  }

  // --------------------------------------------------------------- at most twelve

  lemma PiecesBound(n: int)
    requires n >= 0
    ensures 0 <= 248 * Pieces(n) <= n + 247
  {}

  /** `n` whole groups of `p` blocks and `k` more. */
  lemma WholeGroups(p: int, r: int) returns (n: int, k: int)
    requires p >= 100 && 0 <= r <= 798
    ensures n == r / p && k == r % p && 0 <= n <= 7 && 0 <= k < p && n * p + k == r
  {
    n, k := r / p, r % p;
    if n >= 8 { MulMono(p, 8, n); }
    if n <= -1 { MulMono(p, n, -1); }
  }

  lemma GroupPieces(p: int, n: int)
    requires p >= 100 && 0 <= n
    ensures 248 * (n * Pieces(p)) <= n * p + 247 * n
  {
    PiecesBound(p);
    hide Pieces;
    MulMono(n, 248 * Pieces(p), p + 247);
    Spread(n, p, Pieces(p));
  }

  lemma Spread(n: int, p: int, s: int)
    ensures n * (p + 247) == n * p + 247 * n && n * (248 * s) == 248 * (n * s)
  {}

  /** In groups of at least 100 data blocks, up to 799 blocks make at most twelve extents. */
  lemma FewExtents(p: int, q: int, r: int)
    requires p >= 100 && 0 <= q < p && 0 <= r <= 799
    ensures ExtentsOf(p, q, r) <= 12
  {
    hide Pieces;
    if q + r <= p {
      PiecesBound(r);
    } else {
      var n, k := WholeGroups(p, r - (p - q));
      PiecesBound(p - q);
      PiecesBound(k);
      GroupPieces(p, n);
    }
  }

  /** In groups of at least 100 data blocks, a node of up to 799 blocks (409,088 bytes) never needs more than the
      twelve extents of an inode, wherever it starts. */
  lemma {:induction false} SmallNodesAreDirect(g: Geometry, nodes: seq<Node>, j: nat)
    requires Roomy(g) && PerCg(g) >= 100 && j < |nodes| && NodeBlocks(nodes[j]) <= 799
    ensures |ExtsAt(g, nodes, j)| <= MAX_EXTENTS
  {
    NodeRange(g, nodes, j);
    NodeExtentCount(g, nodes, j);
    var s, e := StartAt(g, nodes, j), StartAt(g, nodes, j + 1);
    assert e - s <= NodeBlocks(nodes[j]);
    hide StartAt, ExtsAt, Demand, NumDataBlocks, NodeBlocks, ExtentsOf, Consistent;
    FewExtents(PerCg(g), s % PerCg(g), e - s);
  }
}
