/** Directory data: the greedy split of an entry list into directory blocks. */
module EfsDirPack {
  import opened Common
  import opened Bytes
  import opened Disk
  import opened EfsDir

  /** What building a directory's data comes to: bytes, an exception from packing
      an entry, or a loop that adds empty blocks for ever. */
  datatype Outcome = Data(bytes: seq<byte>) | Raises | Stalls

  /** How many leading entries still fit once `used` bytes are taken. */
  function Take(es: seq<Dirent>, used: nat): (n: nat)
    ensures n <= |es|
  {
    if es == [] || used + Cost(es[0]) > BLOCK_SIZE then 0 else 1 + Take(es[1..], used + Cost(es[0]))
  }

  /** The taken entries fit, and one more does not. */
  lemma {:induction false} TakeFits(es: seq<Dirent>, used: nat)
    requires used <= BLOCK_SIZE
    ensures var n := Take(es, used);
            && used + Costs(es[..n]) <= BLOCK_SIZE
            && (n < |es| ==> used + Costs(es[..n]) + Cost(es[n]) > BLOCK_SIZE)
  {
    var n := Take(es, used);
    if n > 0 {
      TakeFits(es[1..], used + Cost(es[0]));
      assert es[..n][0] == es[0] && es[..n][1..] == es[1..][..n - 1];
    }
  }

  /** The directory data of an entry list, block by block. */
  function Pack(es: seq<Dirent>): Outcome
    decreases |es|
  {
    if es == [] then Data([]) else
      var n := Take(es, HEADER_SIZE);
      if n == 0 then Stalls
      else if !AllPackable(es[..n]) then Raises
      else
        TakeFits(es, HEADER_SIZE);
        match Pack(es[n..])
        case Data(rest) => Data(Dirblk(es[..n]) + rest)
        case other => other
  }

  /** The outcome of a list whose first blocks are already built. */
  ghost function Then(blocks: seq<byte>, rest: Outcome): Outcome {
    match rest case Data(b) => Data(blocks + b) case other => other
  }

  /** The inner loop of `_build_directory_data`: the end of the block that starts at entry `i`. */
  method FillBlock(es: seq<Dirent>, i: nat) returns (j: nat)
    requires i < |es|
    ensures i <= j <= |es| && j - i == Take(es[i..], HEADER_SIZE)
  {
    var used: nat := HEADER_SIZE;
    j := i;
    while j < |es| && used + Cost(es[j]) <= BLOCK_SIZE
      invariant i <= j <= |es| && used <= BLOCK_SIZE
      invariant Take(es[i..], HEADER_SIZE) == j - i + Take(es[j..], used)
    {
      assert es[j..][1..] == es[j + 1..];
      used := used + Cost(es[j]);
      j := j + 1;
    }
  }

  lemma PackStep(blocks: seq<byte>, es: seq<Dirent>, i: nat, j: nat)
    requires i < j <= |es| && j - i == Take(es[i..], HEADER_SIZE)
    ensures Fits(es[i..j])
    ensures !AllPackable(es[i..j]) ==> Pack(es[i..]) == Raises
    ensures AllPackable(es[i..j]) ==>
              Then(blocks, Pack(es[i..])) == Then(blocks + Dirblk(es[i..j]), Pack(es[j..]))
  {
    TakeFits(es[i..], HEADER_SIZE);
    hide Take, Costs, Dirblk;
    Slices(es, i, j);
    if AllPackable(es[i..j]) && Pack(es[j..]).Data? {
      Associates(blocks, Dirblk(es[i..j]), Pack(es[j..]).bytes);
    }
  }

  lemma Slices<T>(s: seq<T>, i: nat, j: nat)
    requires i <= j <= |s|
    ensures s[i..][..j - i] == s[i..j] && s[i..][j - i..] == s[j..]
  {}

  lemma Associates<T>(a: seq<T>, b: seq<T>, c: seq<T>)
    ensures a + (b + c) == a + b + c
  {}

  /** The block-filling loop of `_build_directory_data`. */
  method PackEntries(es: seq<Dirent>) returns (r: Outcome)
    ensures r == Pack(es)
  {
    var blocks: seq<byte> := [];
    var i := 0;
    while i < |es|
      invariant i <= |es|
      invariant Pack(es) == Then(blocks, Pack(es[i..]))
    {
      var j := FillBlock(es, i);
      if j == i { return Stalls; }
      hide Take, Costs, Dirblk;
      PackStep(blocks, es, i, j);
      if !AllPackable(es[i..j]) { return Raises; }
      var block := BuildDirblk(es[i..j]);
      blocks := blocks + block;
      i := j;
    }
    r := Data(blocks);
  }

  /** The entries of each block, when every entry can be packed. */
  function Greedy(es: seq<Dirent>): seq<seq<Dirent>>
    requires AllPackable(es)
    decreases |es|
  {
    if es == [] then [] else
      var n := Take(es, HEADER_SIZE);
      assert n > 0;
      [es[..n]] + Greedy(es[n..])
  }

  /** Packing succeeds exactly when no name is over 255 bytes and no inode number over 32 bits;
      otherwise it raises or never ends. */
  lemma {:induction false} PackSucceedsIff(es: seq<Dirent>)
    ensures Pack(es).Data? <==> AllPackable(es)
    decreases |es|
  {
    if es != [] {
      var n := Take(es, HEADER_SIZE);
      if n > 0 {
        PackSucceedsIff(es[n..]);
        assert es == es[..n] + es[n..];
      } else {
        assert Cost(es[0]) > BLOCK_SIZE - HEADER_SIZE;
      }
    }
  }

  // ------------------------------------------------------------ reading back

  function ReadDir(data: seq<byte>): Option<seq<RawDirent>>
    decreases |data|
  {
    if data == [] then Some([])
    else if |data| < BLOCK_SIZE then None
    else
      var a, b := ReadDirblk(data[..BLOCK_SIZE]), ReadDir(data[BLOCK_SIZE..]);
      if a.None? || b.None? then None else Some(a.value + b.value)
  }

  /** Packing puts the first block before the rest. */
  lemma PackUnfolds(es: seq<Dirent>)
    requires AllPackable(es) && es != []
    ensures var n := Take(es, HEADER_SIZE);
            && 0 < n && Fits(es[..n]) && AllPackable(es[..n]) && AllPackable(es[n..])
            && Pack(es[n..]).Data?
            && Pack(es) == Data(Dirblk(es[..n]) + Pack(es[n..]).bytes)
  {
    hide Costs, Dirblk;
    TakeFits(es, HEADER_SIZE);
    PackSucceedsIff(es);
    PackSucceedsIff(es[Take(es, HEADER_SIZE)..]);
  }

  lemma ReadUnfolds(a: seq<byte>, b: seq<byte>)
    requires |a| == BLOCK_SIZE && ReadDirblk(a).Some? && ReadDir(b).Some?
    ensures ReadDir(a + b) == Some(ReadDirblk(a).value + ReadDir(b).value)
  {
    hide ReadDirblk;
    assert (a + b)[..BLOCK_SIZE] == a && (a + b)[BLOCK_SIZE..] == b;
  }

  lemma RawConcat(es: seq<Dirent>, n: nat)
    requires n <= |es|
    ensures Raw(es) == Raw(es[..n]) + Raw(es[n..])
  {}

  lemma GreedyUnfolds(es: seq<Dirent>)
    requires AllPackable(es) && es != []
    ensures var n := Take(es, HEADER_SIZE);
            && 0 < n && Fits(es[..n]) && AllPackable(es[n..]) && Greedy(es) == [es[..n]] + Greedy(es[n..])
  {
    hide Costs;
    TakeFits(es, HEADER_SIZE);
  }

  /** Round trip: reading all slots of all blocks in order gives the entry list back,
      and the data is as many whole blocks as the greedy split has. */
  lemma {:induction false} DirRoundTrip(es: seq<Dirent>)
    requires AllPackable(es)
    ensures Pack(es).Data? && ReadDir(Pack(es).bytes) == Some(Raw(es))
    ensures |Pack(es).bytes| == 512 * |Greedy(es)| && (es != [] ==> Pack(es).bytes != [])
    decreases |es|
  {
    if es == [] {
      assert Raw(es) == [];
    } else {
      var n := Take(es, HEADER_SIZE);
      PackUnfolds(es);
      GreedyUnfolds(es);
      hide Pack, Greedy, Fits, Take, Dirblk, ReadDirblk, ReadDir, Raw;
      DirRoundTrip(es[n..]);
      DirblkRoundTrip(es[..n]);
      ReadUnfolds(Dirblk(es[..n]), Pack(es[n..]).bytes);
      RawConcat(es, n);
    }
  }

  /** Data whose last block is not a directory block does not read. */
  lemma {:induction false} BadLastBlock(a: seq<byte>, last: seq<byte>)
    requires |a| % 512 == 0 && |last| == BLOCK_SIZE && ReadDirblk(last) == None
    ensures ReadDir(a + last) == None
    decreases |a|
  {
    hide ReadDirblk;
    if a == [] {
      assert (a + last)[..BLOCK_SIZE] == last;
    } else {
      BadLastBlock(a[BLOCK_SIZE..], last);
      assert (a + last)[BLOCK_SIZE..] == a[BLOCK_SIZE..] + last;
    }
  }

  // -------------------------------------------------------------- optimality

  function Concat(p: seq<seq<Dirent>>): seq<Dirent> {
    if p == [] then [] else p[0] + Concat(p[1..])
  }

  /** `p` splits `es`, in order, into blocks that fit. */
  ghost predicate Splits(p: seq<seq<Dirent>>, es: seq<Dirent>) {
    Concat(p) == es && forall i :: 0 <= i < |p| ==> Fits(p[i])
  }

  /** Dropping leading entries never needs more blocks. */
  lemma {:induction false} DropSplit(p: seq<seq<Dirent>>, es: seq<Dirent>, n: nat) returns (q: seq<seq<Dirent>>)
    requires Splits(p, es) && n <= |es|
    ensures Splits(q, es[n..]) && |q| == |p|
    decreases |p|
  {
    if p == [] {
      q := [];
    } else if n <= |p[0]| {
      CostsConcat(p[0][..n], p[0][n..]);
      assert p[0] == p[0][..n] + p[0][n..];
      q := [p[0][n..]] + p[1..];
      assert q[1..] == p[1..];
    } else {
      var rest := DropSplit(p[1..], Concat(p[1..]), n - |p[0]|);
      q := [[]] + rest;
      assert q[1..] == rest && es[n..] == Concat(p[1..])[n - |p[0]|..];
    }
  }

  lemma FirstBlockIsLongest(es: seq<Dirent>, k: nat)
    requires k <= |es| && Fits(es[..k])
    ensures k <= Take(es, HEADER_SIZE)
  {
    var n := Take(es, HEADER_SIZE);
    if n < k {
      TakeFits(es, HEADER_SIZE);
      FitsPrefix(es[..k], n + 1);
      assert es[..k][..n + 1] == es[..n + 1];
      CostsSnoc(es, n);
    }
  }

  /** No order-preserving split into fitting blocks uses fewer blocks than the greedy one. */
  lemma {:induction false} GreedyIsOptimal(es: seq<Dirent>, p: seq<seq<Dirent>>)
    requires AllPackable(es) && Splits(p, es)
    ensures |Greedy(es)| <= |p|
    decreases |p|
  {
    if es != [] {
      var n, k := Take(es, HEADER_SIZE), |p[0]|;
      assert es[..k] == p[0] && es[k..] == Concat(p[1..]);
      assert k <= n by { FirstBlockIsLongest(es, k); }
      var q := DropSplit(p[1..], es[k..], n - k);
      assert es[k..][n - k..] == es[n..];
      GreedyIsOptimal(es[n..], q);
    }
  }

  lemma SplitsCons(first: seq<Dirent>, rest: seq<seq<Dirent>>, es: seq<Dirent>)
    requires Fits(first) && Splits(rest, es)
    ensures Splits([first] + rest, first + es)
  {
    hide Fits;
    assert ([first] + rest)[1..] == rest;
  }

  /** The greedy split is itself such a split. */
  lemma {:induction false} GreedySplits(es: seq<Dirent>)
    requires AllPackable(es)
    ensures Splits(Greedy(es), es)
    decreases |es|
  {
    if es != [] {
      hide Greedy, Take, Fits, Splits, Costs;
      var n := Take(es, HEADER_SIZE);
      GreedyUnfolds(es);
      GreedySplits(es[n..]);
      SplitsCons(es[..n], Greedy(es[n..]), es[n..]);
      assert es == es[..n] + es[n..];
    }
  }

  /** With names of at most 120 bytes four entries always share a block. */
  lemma {:induction false} BlocksForShortNames(es: seq<Dirent>)
    requires AllPackable(es) && forall i :: 0 <= i < |es| ==> |es[i].name| <= 120
    ensures |Greedy(es)| <= (|es| + 3) / 4
  {
    var p := FourByFour(es);
    GreedyIsOptimal(es, p);
  }

  lemma {:induction false} FourByFour(es: seq<Dirent>) returns (p: seq<seq<Dirent>>)
    requires forall i :: 0 <= i < |es| ==> |es[i].name| <= 120
    ensures Splits(p, es) && |p| == (|es| + 3) / 4
    decreases |es|
  {
    if es == [] {
      p := [];
    } else {
      var n := if |es| < 4 then |es| else 4;
      var rest := FourByFour(es[n..]);
      p := [es[..n]] + rest;
      assert p[1..] == rest && es == es[..n] + es[n..];
      ShortCosts(es[..n]);
    }
  }

  lemma {:induction false} ShortCosts(es: seq<Dirent>)
    requires forall i :: 0 <= i < |es| ==> |es[i].name| <= 120
    ensures Costs(es) <= 127 * |es|
  {
    if es != [] { ShortCosts(es[1..]); }
  }
}
