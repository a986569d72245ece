/** The 128-byte on-disk inode and its twelve 8-byte extents. */
module EfsInode {
  import opened Bytes
  import opened EfsAlloc

  const INODE_SIZE: nat := 128
  const HEADER_BYTES: nat := 32
  const MAX_EXTENTS: nat := 12

  datatype Inode = Inode(
    mode: int, nlink: int, uid: int, gid: int, size: int, atime: int, mtime: int, ctime: int,
    gen: int, numExtents: int, version: int, spare: int, extents: seq<Extent>)

  // ------------------------------------------------------------------ extents

  /** An 8-bit and a 24-bit field, masked and packed into one word. */
  function Word(hi: int, lo: int): (w: int)
    ensures 0 <= w < 0x1_0000_0000
  {
    hi % 0x100 * 0x100_0000 + lo % 0x100_0000
  }

  function PackExtent(e: Extent): (b: seq<byte>)
    ensures |b| == 8
  {
    Be32(Word(e.magic, e.bn)) + Be32(Word(e.length, e.offset))
  }

  function UnpackExtent(b: seq<byte>, at: nat): Extent
    requires at + 8 <= |b|
  {
    var w1, w2 := Get32(b, at), Get32(b, at + 4);
    Extent(w1 % 0x100_0000, w2 / 0x100_0000, w2 % 0x100_0000, w1 / 0x100_0000)
  }

  predicate ExtentFits(e: Extent) {
    0 <= e.bn < 0x100_0000 && 0 <= e.length < 0x100 && 0 <= e.offset < 0x100_0000 && 0 <= e.magic < 0x100
  }

  lemma WordSplits(hi: int, lo: int)
    ensures Word(hi, lo) / 0x100_0000 == hi % 0x100 && Word(hi, lo) % 0x100_0000 == lo % 0x100_0000
    ensures hi % 0x100 == hi <==> 0 <= hi < 0x100
    ensures lo % 0x100_0000 == lo <==> 0 <= lo < 0x100_0000
  {}

  /** Packing masks every field, so an extent survives exactly when its fields fit. */
  lemma ExtentRoundTripIff(e: Extent, b: seq<byte>, at: nat)
    requires HasField(b, at, PackExtent(e))
    ensures UnpackExtent(b, at) == e <==> ExtentFits(e)
  {
    var w1, w2 := Word(e.magic, e.bn), Word(e.length, e.offset);
    WordSplits(e.magic, e.bn);
    WordSplits(e.length, e.offset);
    hide Word;
    var p := PackExtent(e);
    hide Be32;
    assert b[at..at + 4] == b[at..at + 8][..4] == Be32(w1) by { assert p[..4] == Be32(w1); }
    assert b[at + 4..at + 8] == b[at..at + 8][4..] == Be32(w2) by { assert p[4..] == Be32(w2); }
    Get32Be32(b, at, w1);
    Get32Be32(b, at + 4, w2);
  }

  /** Slot `k` of the extent area: an extent, or zeros. */
  function ExtentSlot(exts: seq<Extent>, k: nat): (b: seq<byte>)
    ensures |b| == 8
  {
    if k < |exts| then PackExtent(exts[k]) else Zeros(8)
  }

  function ExtentArea(exts: seq<Extent>, n: nat): (b: seq<byte>)
    ensures |b| == 8 * n
  {
    if n == 0 then [] else ExtentArea(exts, n - 1) + ExtentSlot(exts, n - 1)
  }

  lemma {:induction false} ExtentAreaSlot(exts: seq<Extent>, n: nat, k: nat)
    requires k < n
    ensures HasField(ExtentArea(exts, n), 8 * k, ExtentSlot(exts, k))
  {
    hide ExtentSlot, HasField;
    var a, b := ExtentArea(exts, n - 1), ExtentSlot(exts, n - 1);
    if k == n - 1 {
      WholeField(b);
      FieldOfConcat(a, b, 0, b);
    } else {
      ExtentAreaSlot(exts, n - 1, k);
      FieldOfConcat(a, b, 8 * k, ExtentSlot(exts, k));
    }
  }

  lemma WholeField(b: seq<byte>)
    ensures HasField(b, 0, b)
  {}

  // ------------------------------------------------------------------- inodes

  /** `struct.pack` raises outside these ranges. */
  predicate Packable(i: Inode) {
    && 0 <= i.mode < 0x1_0000 && -0x8000 <= i.nlink < 0x8000
    && 0 <= i.uid < 0x1_0000 && 0 <= i.gid < 0x1_0000
    && -0x8000_0000 <= i.size < 0x8000_0000 && -0x8000_0000 <= i.atime < 0x8000_0000
    && -0x8000_0000 <= i.mtime < 0x8000_0000 && -0x8000_0000 <= i.ctime < 0x8000_0000
    && 0 <= i.gen < 0x1_0000_0000 && -0x8000 <= i.numExtents < 0x8000
    && 0 <= i.version < 0x100 && 0 <= i.spare < 0x100
  }

  function Ids(i: Inode): (b: seq<byte>)
    requires Packable(i)
    ensures |b| == 8
  {
    Be16(i.mode) + Be16(Wrap16(i.nlink)) + Be16(i.uid) + Be16(i.gid)
  }

  function SizeAndTimes(i: Inode): (b: seq<byte>)
    requires Packable(i)
    ensures |b| == 16
  {
    Be32(Wrap32(i.size)) + Be32(Wrap32(i.atime)) + Be32(Wrap32(i.mtime)) + Be32(Wrap32(i.ctime))
  }

  function GenAndCount(i: Inode): (b: seq<byte>)
    requires Packable(i)
    ensures |b| == 8
  {
    Be32(i.gen) + Be16(Wrap16(i.numExtents)) + [i.version as byte, i.spare as byte]
  }

  function InodeHeader(i: Inode): (b: seq<byte>)
    requires Packable(i)
    ensures |b| == HEADER_BYTES
  {
    Ids(i) + SizeAndTimes(i) + GenAndCount(i)
  }

  function InodeBytes(i: Inode): (b: seq<byte>)
    requires Packable(i)
    ensures |b| == INODE_SIZE
  {
    InodeHeader(i) + ExtentArea(i.extents, MAX_EXTENTS)
  }

  /** `EFSInode.pack`. */
  method PackInode(i: Inode) returns (b: seq<byte>)
    requires Packable(i)
    ensures b == InodeBytes(i)
  {
    b := InodeHeader(i);
    for k := 0 to MAX_EXTENTS
      invariant b == InodeHeader(i) + ExtentArea(i.extents, k)
    {
      if k < |i.extents| { b := b + PackExtent(i.extents[k]); } else { b := b + Zeros(8); }
    }
  }

  function ReadExtents(b: seq<byte>, n: nat): (exts: seq<Extent>)
    requires |b| == INODE_SIZE && n <= MAX_EXTENTS
    ensures |exts| == n
  {
    seq(n, k requires 0 <= k < n => UnpackExtent(b, HEADER_BYTES + 8 * k))
  }

  /** Reads an inode slot; an inode holds at most twelve direct extents. */
  function ParseInode(b: seq<byte>): Inode
    requires |b| == INODE_SIZE
  {
    var n := Sign16(Get16(b, 28));
    Inode(Get16(b, 0), Sign16(Get16(b, 2)), Get16(b, 4), Get16(b, 6),
          Sign32(Get32(b, 8)), Sign32(Get32(b, 12)), Sign32(Get32(b, 16)), Sign32(Get32(b, 20)),
          Get32(b, 24), n, b[30] as int, b[31] as int,
          ReadExtents(b, if n < 0 then 0 else if n > MAX_EXTENTS then MAX_EXTENTS else n))
  }

  lemma HeaderParses(i: Inode, rest: seq<byte>)
    requires Packable(i)
    ensures var b := InodeHeader(i) + rest;
            && Get16(b, 0) == i.mode && Sign16(Get16(b, 2)) == i.nlink
            && Get16(b, 4) == i.uid && Get16(b, 6) == i.gid
            && Sign32(Get32(b, 8)) == i.size && Sign32(Get32(b, 12)) == i.atime
            && Sign32(Get32(b, 16)) == i.mtime && Sign32(Get32(b, 20)) == i.ctime
            && Get32(b, 24) == i.gen && Sign16(Get16(b, 28)) == i.numExtents
            && b[30] as int == i.version && b[31] as int == i.spare
  {
    var b, x, y, z := InodeHeader(i) + rest, Ids(i), SizeAndTimes(i), GenAndCount(i);
    assert forall k :: 0 <= k < 8 ==> b[k] == x[k] && b[24 + k] == z[k];
    assert forall k :: 0 <= k < 16 ==> b[8 + k] == y[k];
  }

  /** The bytes of an extent: magic, start block, length, offset. */
  lemma ExtentOnDisk(e: Extent)
    requires ExtentFits(e)
    ensures var b := PackExtent(e);
            && b[0] as int == e.magic && b[1] as int * 0x1_0000 + Get16(b, 2) == e.bn
            && b[4] as int == e.length && b[5] as int * 0x1_0000 + Get16(b, 6) == e.offset
  {
    TopDigit(e.magic, e.bn);
    TopDigit(e.length, e.offset);
    hide Word, Be32;
    var b, x, y := PackExtent(e), Be32(Word(e.magic, e.bn)), Be32(Word(e.length, e.offset));
    assert forall k :: 0 <= k < 4 ==> b[k] == x[k] && b[4 + k] == y[k];
  }

  lemma TopDigit(hi: int, lo: int)
    requires 0 <= hi < 0x100 && 0 <= lo < 0x100_0000
    ensures var b := Be32(Word(hi, lo)); b[0] as int == hi && b[1] as int * 0x1_0000 + Get16(b, 2) == lo
  {}

  /** Where the fields of an inode stand in its 128 bytes; slots behind the last extent are empty. */
  lemma InodeOnDisk(i: Inode, k: nat)
    requires Packable(i) && k < 12
    ensures var b := InodeBytes(i);
            && Get16(b, 0) == i.mode && Get16(b, 2) == i.nlink % 0x1_0000
            && Get16(b, 4) == i.uid && Get16(b, 6) == i.gid
            && Get32(b, 8) == i.size % 0x1_0000_0000 && Get32(b, 12) == i.atime % 0x1_0000_0000
            && Get32(b, 16) == i.mtime % 0x1_0000_0000 && Get32(b, 20) == i.ctime % 0x1_0000_0000
            && Get32(b, 24) == i.gen && Get16(b, 28) == i.numExtents % 0x1_0000
            && b[30] as int == i.version && b[31] as int == i.spare
            && b[32 + 8 * k..][..8] == if k < |i.extents| then PackExtent(i.extents[k]) else Zeros(8)
  {
    var area := ExtentArea(i.extents, MAX_EXTENTS);
    HeaderParses(i, area);
    SignedFields(i, InodeBytes(i));
    ExtentAreaSlot(i.extents, MAX_EXTENTS, k);
    FieldOfConcat(InodeHeader(i), area, 8 * k, ExtentSlot(i.extents, k));
    hide InodeHeader, ExtentArea, PackExtent, Get16, Get32, Zeros;
    assert InodeBytes(i)[32 + 8 * k..][..8] == InodeBytes(i)[32 + 8 * k..32 + 8 * k + 8];
  }

  lemma SignedFields(i: Inode, b: seq<byte>)
    requires Packable(i) && |b| >= 32
    ensures Sign16(Get16(b, 2)) == i.nlink ==> Get16(b, 2) == i.nlink % 0x1_0000
    ensures Sign16(Get16(b, 28)) == i.numExtents ==> Get16(b, 28) == i.numExtents % 0x1_0000
    ensures Sign32(Get32(b, 8)) == i.size ==> Get32(b, 8) == i.size % 0x1_0000_0000
    ensures Sign32(Get32(b, 12)) == i.atime ==> Get32(b, 12) == i.atime % 0x1_0000_0000
    ensures Sign32(Get32(b, 16)) == i.mtime ==> Get32(b, 16) == i.mtime % 0x1_0000_0000
    ensures Sign32(Get32(b, 20)) == i.ctime ==> Get32(b, 20) == i.ctime % 0x1_0000_0000
  {
    hide Get16, Get32;
  }

  /** Round trip: what is written for an inode reads back as that inode, short of any extent past
      the twelfth. */
  lemma InodeRoundTrip(i: Inode)
    requires Packable(i) && i.numExtents == |i.extents|
    requires forall k :: 0 <= k < |i.extents| ==> ExtentFits(i.extents[k])
    ensures var n := if |i.extents| > MAX_EXTENTS then MAX_EXTENTS else |i.extents|;
            ParseInode(InodeBytes(i)) == i.(extents := i.extents[..n])
  {
    var n := if |i.extents| > MAX_EXTENTS then MAX_EXTENTS else |i.extents|;
    var b, area := InodeBytes(i), ExtentArea(i.extents, MAX_EXTENTS);
    HeaderParses(i, area);
    hide InodeHeader, ExtentArea, UnpackExtent, PackExtent;
    forall k | 0 <= k < n
      ensures UnpackExtent(b, HEADER_BYTES + 8 * k) == i.extents[k]
    {
      ExtentAreaSlot(i.extents, MAX_EXTENTS, k);
      FieldOfConcat(InodeHeader(i), area, 8 * k, PackExtent(i.extents[k]));
      ExtentRoundTripIff(i.extents[k], b, HEADER_BYTES + 8 * k);
    }
    assert ReadExtents(b, n) == i.extents[..n];
  }
}
