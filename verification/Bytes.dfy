/** Bytes and the big-endian fields that `struct.pack` writes. */
module Bytes {

  newtype byte = n: int | 0 <= n < 0x100

  function Zeros(n: nat): (z: seq<byte>)
    ensures |z| == n
  {
    seq<byte>(n, _ => 0)
  }

  function Be16(n: int): (s: seq<byte>)
    requires 0 <= n < 0x1_0000
    ensures |s| == 2
  {
    [(n / 0x100) as byte, (n % 0x100) as byte]
  }

  function Be32(n: int): (s: seq<byte>)
    requires 0 <= n < 0x1_0000_0000
    ensures |s| == 4
  {
    Be16(n / 0x1_0000) + Be16(n % 0x1_0000)
  }

  /** Signed fields (`>h`, `>i`) are stored in two's complement. */
  function Wrap16(n: int): int
    requires -0x8000 <= n < 0x8000
  {
    if n < 0 then n + 0x1_0000 else n
  }

  function Wrap32(n: int): int
    requires -0x8000_0000 <= n < 0x8000_0000
  {
    if n < 0 then n + 0x1_0000_0000 else n
  }

  function Sign16(n: int): int { if n >= 0x8000 then n - 0x1_0000 else n }

  function Sign32(n: int): int { if n >= 0x8000_0000 then n - 0x1_0000_0000 else n }

  function Get16(s: seq<byte>, at: nat): (n: int)
    requires at + 2 <= |s|
    ensures 0 <= n < 0x1_0000
  {
    s[at] as int * 0x100 + s[at + 1] as int
  }

  function Get32(s: seq<byte>, at: nat): (n: int)
    requires at + 4 <= |s|
    ensures 0 <= n < 0x1_0000_0000
  {
    Get16(s, at) * 0x1_0000 + Get16(s, at + 2)
  }

  /** `field` occupies the bytes of `s` that start at `at`. */
  ghost predicate HasField(s: seq<byte>, at: nat, field: seq<byte>) {
    at + |field| <= |s| && s[at..at + |field|] == field
  }

  lemma FieldOfConcat(a: seq<byte>, b: seq<byte>, at: nat, field: seq<byte>)
    ensures HasField(a, at, field) ==> HasField(a + b, at, field)
    ensures HasField(b, at, field) ==> HasField(a + b, |a| + at, field)
  {
    if HasField(a, at, field) {
      assert (a + b)[at..at + |field|] == a[at..at + |field|];
    }
    if HasField(b, at, field) {
      assert (a + b)[|a| + at..|a| + at + |field|] == b[at..at + |field|];
    }
  }

  lemma Get16Be16(s: seq<byte>, at: nat, n: int)
    requires 0 <= n < 0x1_0000 && HasField(s, at, Be16(n))
    ensures Get16(s, at) == n
  {
    var f := s[at..at + 2];
    assert s[at] == f[0] && s[at + 1] == f[1];
  }

  lemma Get32Be32(s: seq<byte>, at: nat, n: int)
    requires 0 <= n < 0x1_0000_0000 && HasField(s, at, Be32(n))
    ensures Get32(s, at) == n
  {
    var f := s[at..at + 4];
    assert s[at] == f[0] && s[at + 1] == f[1] && s[at + 2] == f[2] && s[at + 3] == f[3];
  }
}
