/** A binary file opened for writing, and the 512-byte blocks it is read in. */
module Disk {
  import opened Bytes

  // Sizes are named where they are compared; offsets multiply by the literal, which keeps the
  // arithmetic linear for the solver.
  const BLOCK_SIZE: nat := 512

  /** The byte at offset `k`; a seek past the end of a file leaves zeros behind. */
  function Peek(d: seq<byte>, k: int): byte {
    if 0 <= k < |d| then d[k] else 0
  }

  function WriteAt(d: seq<byte>, at: nat, b: seq<byte>): (r: seq<byte>)
    ensures |r| == if b == [] || at + |b| <= |d| then |d| else at + |b|
  {
    if b == [] then d
    else
      var size := if at + |b| <= |d| then |d| else at + |b|;
      seq<byte>(size, k requires 0 <= k < size => if at <= k < at + |b| then b[k - at] else Peek(d, k))
  }

  function Block(d: seq<byte>, n: int): (r: seq<byte>)
    ensures |r| == BLOCK_SIZE
  {
    seq<byte>(BLOCK_SIZE, k requires 0 <= k < BLOCK_SIZE => Peek(d, n * 512 + k))
  }

  /** The `n`-th block of `data`, padded with zeros. */
  function Chunk(data: seq<byte>, n: nat): (r: seq<byte>)
    ensures |r| == BLOCK_SIZE
  {
    Block(data, n)
  }

  /** `size` bytes of `data` from `at` on, padded with zeros. */
  function Padded(data: seq<byte>, at: nat, size: nat): (r: seq<byte>)
    ensures |r| == size
  {
    seq<byte>(size, k requires 0 <= k < size => Peek(data, at + k))
  }

  function BlocksFor(size: nat): nat {
    (size + BLOCK_SIZE - 1) / 512
  }

  lemma BlockPeek(d: seq<byte>, n: int, k: nat)
    requires k < BLOCK_SIZE
    ensures Block(d, n)[k] == Peek(d, n * 512 + k)
  {}

  lemma WritePeek(d: seq<byte>, at: nat, b: seq<byte>, k: int)
    ensures Peek(WriteAt(d, at, b), k) == if at <= k < at + |b| then b[k - at] else Peek(d, k)
  {}

  /** Two consecutive writes are one write of the concatenation. */
  lemma WriteConcat(d: seq<byte>, at: nat, a: seq<byte>, b: seq<byte>)
    ensures WriteAt(WriteAt(d, at, a), at + |a|, b) == WriteAt(d, at, a + b)
  {
    var d1 := WriteAt(d, at, a);
    var l, r := WriteAt(d1, at + |a|, b), WriteAt(d, at, a + b);
    assert |l| == |r|;
    forall k | 0 <= k < |l|
      ensures l[k] == r[k]
    {
      WritePeek(d1, at + |a|, b, k);
      WritePeek(d, at, a, k);
      WritePeek(d, at, a + b, k);
      assert l[k] == Peek(l, k) && r[k] == Peek(r, k);
      hide WriteAt;
    }
  }

  /** A write of whole blocks replaces those blocks and no other. */
  lemma WriteBlocks(d: seq<byte>, first: nat, b: seq<byte>, n: int)
    requires |b| % 512 == 0
    ensures Block(WriteAt(d, first * 512, b), n) ==
            if first <= n < first + |b| / 512 then b[(n - first) * 512..][..BLOCK_SIZE] else Block(d, n)
  {
    var d' := WriteAt(d, first * 512, b);
    var r, inside := Block(d', n), first <= n < first + |b| / 512;
    forall k | 0 <= k < BLOCK_SIZE
      ensures r[k] == if inside then b[(n - first) * 512 + k] else Peek(d, n * 512 + k)
    {
      WritePeek(d, first * 512, b, n * 512 + k);
      hide WriteAt;
    }
  }

  class DiskFile {
    var data: seq<byte>
    var pos: nat

    constructor ()
      ensures data == [] && pos == 0
    {
      data, pos := [], 0;
    }

    method Seek(p: nat)
      modifies this
      ensures pos == p && data == old(data)
    {
      pos := p;
    }

    method Write(b: seq<byte>)
      modifies this
      ensures data == WriteAt(old(data), old(pos), b) && pos == old(pos) + |b|
    {
      data := WriteAt(data, pos, b);
      pos := pos + |b|;
    }
  }
}
