/** Any sequence of calls of `_allocate_blocks`: which blocks each call takes. */
module EfsAllocRuns {
  import opened Common
  import opened EfsGeometry
  import opened EfsAlloc

  /** What a run of calls returns, one after the other from block `pos` on. */
  function AllocAll(g: Geometry, pos: int, sizes: seq<nat>): seq<seq<Extent>>
    requires g.cgSize > 0
    decreases |sizes|
  {
    if sizes == [] then []
    else
      var r := Alloc(g, pos, sizes[0], 0);
      [r.0] + AllocAll(g, r.1, sizes[1..])
  }

  /** Block `b` lies in the extent. */
  predicate InExtent(e: Extent, b: int) { e.bn <= b < e.bn + e.length }

  ghost predicate Takes(exts: seq<Extent>, b: int) { exists k :: 0 <= k < |exts| && InExtent(exts[k], b) }

  /** A run of consecutive data blocks is just the blocks with those indices. */
  lemma RunBlocks(g: Geometry, i: int, p: int, len: int, b: int)
    requires Roomy(g) && Run(g, i, p, len) && 0 <= i && 1 <= len && i + len <= NumDataBlocks(g)
    ensures p <= b < p + len <==> IsDataBlock(g, b) && i <= DataIndex(g, b) < i + len
  {
    hide DataBlock, DataIndex, IsDataBlock, NumDataBlocks;
    if IsDataBlock(g, b) && i <= DataIndex(g, b) < i + len {
      DataIndexInverse(g, b);
      assert DataBlock(g, DataIndex(g, b)) == p + DataIndex(g, b) - i;
    }
    if p <= b < p + len {
      var k := i + (b - p);
      assert DataBlock(g, k) == b;
      DataBlockNumbering(g, k);
    }
  }

  /** The extents of one call take exactly the data blocks with the call's indices, and no block twice. */
  lemma {:induction false} MapsTakes(g: Geometry, exts: seq<Extent>, off: nat, i: nat, m: nat, b: int)
    requires Roomy(g) && Maps(g, exts, off, i, m) && i + m <= NumDataBlocks(g)
    ensures Takes(exts, b) <==> IsDataBlock(g, b) && i <= DataIndex(g, b) < i + m
    ensures forall j, k :: 0 <= j < k < |exts| ==> !(InExtent(exts[j], b) && InExtent(exts[k], b))
    decreases |exts|
  {
    hide DataIndex, IsDataBlock, NumDataBlocks, Run, SameGroup, Takes, Consistent;
    if exts == [] {
      NoneTaken(b);
    } else {
      var e, rest := exts[0], exts[1..];
      RunBlocks(g, i, e.bn, e.length, b);
      MapsTakes(g, rest, off + e.length, i + e.length, m - e.length, b);
      TakesCons(e, rest, b);
      assert exts == [e] + rest;
      forall j, k | 0 <= j < k < |exts|
        ensures !(InExtent(exts[j], b) && InExtent(exts[k], b))
      {
        if j == 0 && InExtent(exts[k], b) { TakesNth(rest, k - 1, b); }
      }
    }
  }

  lemma NoneTaken(b: int)
    ensures !Takes([], b)
  {}

  lemma TakesNth(exts: seq<Extent>, k: nat, b: int)
    requires k < |exts| && InExtent(exts[k], b)
    ensures Takes(exts, b)
  {}

  lemma TakesCons(e: Extent, rest: seq<Extent>, b: int)
    ensures Takes([e] + rest, b) <==> InExtent(e, b) || Takes(rest, b)
  {
    var all := [e] + rest;
    if InExtent(e, b) { assert InExtent(all[0], b); }
    if Takes(rest, b) {
      var k :| 0 <= k < |rest| && InExtent(rest[k], b);
      assert InExtent(all[k + 1], b);
    }
  }

  /** How many data blocks lie before those of call `j`. */
  function Before(g: Geometry, start: int, sizes: seq<nat>, j: nat): int
    requires j <= |sizes|
    decreases |sizes|
  {
    if j == 0 then start else Before(g, Min(start + sizes[0], NumDataBlocks(g)), sizes[1..], j - 1)
  }

  lemma {:induction false} BeforeGrows(g: Geometry, start: int, sizes: seq<nat>, j: nat, k: nat)
    requires j <= k <= |sizes| && start <= NumDataBlocks(g)
    ensures start <= Before(g, start, sizes, j) <= Before(g, start, sizes, k) <= NumDataBlocks(g)
    decreases |sizes|
  {
    hide NumDataBlocks;
    if k > 0 {
      var next := Min(start + sizes[0], NumDataBlocks(g));
      if j > 0 { BeforeGrows(g, next, sizes[1..], j - 1, k - 1); } else { BeforeGrows(g, next, sizes[1..], 0, k - 1); }
    }
  }

  /** Over any run of calls: call `j` takes exactly the next data blocks, as many as asked for or all that are
      left, each in one extent only. */
  lemma {:induction false} AnyRunOfCalls(g: Geometry, pos: int, sizes: seq<nat>, j: nat, b: int)
    requires Roomy(g) && pos >= g.firstCg && DataIndex(g, pos) <= NumDataBlocks(g) && j < |sizes|
    ensures var calls, start := AllocAll(g, pos, sizes), DataIndex(g, pos);
            && |calls| == |sizes|
            && (Takes(calls[j], b) <==>
                  IsDataBlock(g, b) && Before(g, start, sizes, j) <= DataIndex(g, b) < Before(g, start, sizes, j + 1))
            && forall k, l :: 0 <= k < l < |calls[j]| ==> !(InExtent(calls[j][k], b) && InExtent(calls[j][l], b))
    decreases |sizes|
  {
    hide DataIndex, IsDataBlock, NumDataBlocks, Alloc, Takes, Maps, Consistent;
    var i, r := DataIndex(g, pos), Alloc(g, pos, sizes[0], 0);
    var m := Min(sizes[0], NumDataBlocks(g) - i);
    AllocIsBump(g, pos, sizes[0], 0);
    RunLength(g, r.1, sizes[1..]);
    if j == 0 {
      MapsTakes(g, r.0, 0, i, m, b);
      assert Before(g, i, sizes, 1) == Before(g, i + m, sizes[1..], 0) == i + m;
    } else {
      AnyRunOfCalls(g, r.1, sizes[1..], j - 1, b);
    }
  }

  lemma {:induction false} RunLength(g: Geometry, pos: int, sizes: seq<nat>)
    requires g.cgSize > 0
    ensures |AllocAll(g, pos, sizes)| == |sizes|
    decreases |sizes|
  {
    hide Alloc;
    if sizes != [] { RunLength(g, Alloc(g, pos, sizes[0], 0).1, sizes[1..]); }
  }

  /** No block is ever handed out twice, and none outside the groups' data areas. */
  lemma {:induction false} CallsAreDisjoint(g: Geometry, pos: int, sizes: seq<nat>, j: nat, k: nat, b: int)
    requires Roomy(g) && pos >= g.firstCg && DataIndex(g, pos) <= NumDataBlocks(g) && j < k < |sizes|
    ensures var calls := AllocAll(g, pos, sizes);
            |calls| == |sizes| && !(Takes(calls[j], b) && Takes(calls[k], b)) && (Takes(calls[j], b) ==> IsDataBlock(g, b))
  {
    hide DataIndex, IsDataBlock, NumDataBlocks, AllocAll, Takes, Before, Consistent;
    AnyRunOfCalls(g, pos, sizes, j, b);
    AnyRunOfCalls(g, pos, sizes, k, b);
    BeforeGrows(g, DataIndex(g, pos), sizes, j + 1, k);
  }
}
