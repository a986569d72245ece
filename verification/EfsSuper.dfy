/** The superblock with its checksum, and the block bitmap. */
module EfsSuper {
  import opened Bytes
  import opened Disk

  const EFS_MAGIC: int := 0x072959
  const SUM_BYTES: nat := 88
  const SUM_WORDS: nat := 44

  datatype Superblock = Superblock(
    size: int, firstCg: int, cgfSize: int, cgiSize: int, sectors: int, heads: int, ncg: int, dirty: int,
    padding: int, time: int, magic: int, fname: seq<byte>, fpack: seq<byte>, bmSize: int, tfree: int,
    tinode: int, bmBlock: int, replSb: int, lastIalloc: int, spare: seq<byte>)

  predicate S16(n: int) { -0x8000 <= n < 0x8000 }

  predicate S32(n: int) { -0x8000_0000 <= n < 0x8000_0000 }

  /** `struct.pack` raises outside these ranges. */
  predicate Packable(s: Superblock) {
    && S32(s.size) && S32(s.firstCg) && S32(s.cgfSize) && S16(s.cgiSize) && S16(s.sectors) && S16(s.heads)
    && S16(s.ncg) && S16(s.dirty) && S16(s.padding) && S32(s.time) && S32(s.magic) && S32(s.bmSize)
    && S32(s.tfree) && S32(s.tinode) && S32(s.bmBlock) && S32(s.replSb) && S32(s.lastIalloc)
  }

  /** Pads with zeros or truncates to `n` bytes. */
  function Fixed(b: seq<byte>, n: nat): (r: seq<byte>)
    ensures |r| == n
  {
    (b + Zeros(n))[..n]
  }

  function Layout(s: Superblock): (b: seq<byte>)
    requires Packable(s)
    ensures |b| == 24
  {
    Be32(Wrap32(s.size)) + Be32(Wrap32(s.firstCg)) + Be32(Wrap32(s.cgfSize))
    + Be16(Wrap16(s.cgiSize)) + Be16(Wrap16(s.sectors)) + Be16(Wrap16(s.heads)) + Be16(Wrap16(s.ncg))
    + Be16(Wrap16(s.dirty)) + Be16(Wrap16(s.padding))
  }

  function Names(s: Superblock): (b: seq<byte>)
    requires Packable(s)
    ensures |b| == 20
  {
    Be32(Wrap32(s.time)) + Be32(Wrap32(s.magic)) + Fixed(s.fname, 6) + Fixed(s.fpack, 6)
  }

  function Counts(s: Superblock): (b: seq<byte>)
    requires Packable(s)
    ensures |b| == 44
  {
    Be32(Wrap32(s.bmSize)) + Be32(Wrap32(s.tfree)) + Be32(Wrap32(s.tinode)) + Be32(Wrap32(s.bmBlock))
    + Be32(Wrap32(s.replSb)) + Be32(Wrap32(s.lastIalloc)) + Fixed(s.spare, 20)
  }

  /** The bytes the checksum covers. */
  function Body(s: Superblock): (b: seq<byte>)
    requires Packable(s)
    ensures |b| == SUM_BYTES
  {
    Layout(s) + Names(s) + Counts(s)
  }

  /** `EFSSuperblock.pack`, with the checksum masked to 32 bits. */
  function SuperBytes(s: Superblock, checksum: int): (b: seq<byte>)
    requires Packable(s)
    ensures |b| == BLOCK_SIZE
  {
    Body(s) + Be32(checksum % 0x1_0000_0000) + Zeros(BLOCK_SIZE - SUM_BYTES - 4)
  }

  /** The fields by their offsets; names and padding keep their fixed widths. */
  function ParseSuper(b: seq<byte>): Superblock
    requires |b| == BLOCK_SIZE
  {
    Superblock(
      Sign32(Get32(b, 0)), Sign32(Get32(b, 4)), Sign32(Get32(b, 8)), Sign16(Get16(b, 12)), Sign16(Get16(b, 14)),
      Sign16(Get16(b, 16)), Sign16(Get16(b, 18)), Sign16(Get16(b, 20)), Sign16(Get16(b, 22)), Sign32(Get32(b, 24)),
      Sign32(Get32(b, 28)), b[32..38], b[38..44], Sign32(Get32(b, 44)), Sign32(Get32(b, 48)), Sign32(Get32(b, 52)),
      Sign32(Get32(b, 56)), Sign32(Get32(b, 60)), Sign32(Get32(b, 64)), b[68..88])
  }

  /** `s` with its byte fields padded or cut to their widths. */
  function Stored(s: Superblock): Superblock {
    s.(fname := Fixed(s.fname, 6), fpack := Fixed(s.fpack, 6), spare := Fixed(s.spare, 20))
  }

  lemma LayoutReads(s: Superblock, b: seq<byte>)
    requires Packable(s) && |b| >= 24 && b[..24] == Layout(s)
    ensures Sign32(Get32(b, 0)) == s.size && Sign32(Get32(b, 4)) == s.firstCg && Sign32(Get32(b, 8)) == s.cgfSize
    ensures Sign16(Get16(b, 12)) == s.cgiSize && Sign16(Get16(b, 14)) == s.sectors && Sign16(Get16(b, 16)) == s.heads
    ensures Sign16(Get16(b, 18)) == s.ncg && Sign16(Get16(b, 20)) == s.dirty && Sign16(Get16(b, 22)) == s.padding
  {
    assert forall k :: 0 <= k < 24 ==> b[k] == b[..24][k];
  }

  lemma NamesRead(s: Superblock, b: seq<byte>)
    requires Packable(s) && |b| >= 44 && b[24..44] == Names(s)
    ensures Sign32(Get32(b, 24)) == s.time && Sign32(Get32(b, 28)) == s.magic
    ensures b[32..38] == Fixed(s.fname, 6) && b[38..44] == Fixed(s.fpack, 6)
  {
    hide Fixed;
    var n := b[24..44];
    assert forall k :: 0 <= k < 8 ==> b[24 + k] == n[k];
    assert n[8..14] == Fixed(s.fname, 6) && n[14..20] == Fixed(s.fpack, 6);
    assert b[32..38] == n[8..14] && b[38..44] == n[14..20];
  }

  lemma CountsRead(s: Superblock, b: seq<byte>)
    requires Packable(s) && |b| >= 88 && b[44..88] == Counts(s)
    ensures Sign32(Get32(b, 44)) == s.bmSize && Sign32(Get32(b, 48)) == s.tfree && Sign32(Get32(b, 52)) == s.tinode
  {
    hide Fixed;
    var n := b[44..88];
    assert forall k :: 0 <= k < 12 ==> b[44 + k] == n[k];
  }

  lemma PlacesRead(s: Superblock, b: seq<byte>)
    requires Packable(s) && |b| >= 88 && b[44..88] == Counts(s)
    ensures Sign32(Get32(b, 56)) == s.bmBlock && Sign32(Get32(b, 60)) == s.replSb && Sign32(Get32(b, 64)) == s.lastIalloc
    ensures b[68..88] == Fixed(s.spare, 20)
  {
    hide Fixed;
    var n := b[44..88];
    assert forall k :: 12 <= k < 24 ==> b[44 + k] == n[k];
    assert b[68..88] == n[24..44];
  }

  /** Where the fields of a superblock stand; the rest of the block is zero. */
  lemma SuperOnDisk(s: Superblock, checksum: int)
    requires Packable(s)
    ensures var b := SuperBytes(s, checksum);
            && Sign32(Get32(b, 0)) == s.size && Sign32(Get32(b, 4)) == s.firstCg && Sign32(Get32(b, 8)) == s.cgfSize
            && Sign16(Get16(b, 12)) == s.cgiSize && Sign16(Get16(b, 14)) == s.sectors && Sign16(Get16(b, 16)) == s.heads
            && Sign16(Get16(b, 18)) == s.ncg && Sign16(Get16(b, 20)) == s.dirty && Sign16(Get16(b, 22)) == s.padding
            && Sign32(Get32(b, 24)) == s.time && Sign32(Get32(b, 28)) == s.magic
            && b[32..38] == Fixed(s.fname, 6) && b[38..44] == Fixed(s.fpack, 6)
            && Sign32(Get32(b, 44)) == s.bmSize && Sign32(Get32(b, 48)) == s.tfree && Sign32(Get32(b, 52)) == s.tinode
            && Sign32(Get32(b, 56)) == s.bmBlock && Sign32(Get32(b, 60)) == s.replSb
            && Sign32(Get32(b, 64)) == s.lastIalloc && b[68..88] == Fixed(s.spare, 20)
            && Get32(b, 88) == checksum % 0x1_0000_0000 && b[92..] == Zeros(420)
  {
    var b := SuperBytes(s, checksum);
    SuperParts(s, checksum);
    hide SuperBytes, Layout, Names, Counts, Fixed, Packable, Be32, Zeros;
    LayoutReads(s, b);
    NamesRead(s, b);
    CountsRead(s, b);
    PlacesRead(s, b);
    Get32Be32(b, 88, checksum % 0x1_0000_0000);
  }

  lemma SuperParts(s: Superblock, checksum: int)
    requires Packable(s)
    ensures var b := SuperBytes(s, checksum);
            && b[..24] == Layout(s) && b[24..44] == Names(s) && b[44..88] == Counts(s)
            && b[88..92] == Be32(checksum % 0x1_0000_0000) && b[92..] == Zeros(420)
  {
    hide Layout, Names, Counts, Be32, Zeros;
    var b, x := SuperBytes(s, checksum), Be32(checksum % 0x1_0000_0000);
    assert b == Layout(s) + (Names(s) + (Counts(s) + (x + Zeros(420))));
  }

  /** Every field of a packed superblock reads back. */
  lemma SuperRoundTrip(s: Superblock, checksum: int)
    requires Packable(s)
    ensures ParseSuper(SuperBytes(s, checksum)) == Stored(s)
  {
    hide SuperBytes, Fixed, Packable, Get32, Get16;
    SuperOnDisk(s, checksum);
  }

  // ----------------------------------------------------------------- checksum

  const TWO32: nat := 0x1_0000_0000

  function Pow2(n: nat): (p: nat)
    ensures p > 0
  {
    if n == 0 then 1 else 2 * Pow2(n - 1)
  }

  /** Exclusive-or of the low `width` bits. */
  function Xor(a: nat, b: nat, width: nat): (r: nat)
    ensures r < Pow2(width)
  {
    if width == 0 then 0 else 2 * Xor(a / 2, b / 2, width - 1) + (if a % 2 == b % 2 then 0 else 1)
  }

  lemma {:induction false} XorInjective(c: nat, d: nat, v: nat, w: nat, width: nat)
    requires c < Pow2(width) && d < Pow2(width) && v < Pow2(width) && w < Pow2(width)
    requires Xor(c, v, width) == Xor(d, w, width)
    ensures v == w ==> c == d
    ensures c == d ==> v == w
  {
    if width > 0 {
      XorInjective(c / 2, d / 2, v / 2, w / 2, width - 1);
    }
  }

  lemma Pow32()
    ensures Pow2(32) == TWO32
  {
    assert Pow2(8) == 0x100;
    assert Pow2(16) == 0x1_0000;
    assert Pow2(24) == 0x100_0000;
  }

  /** Rotate left by one bit. */
  function Rotl(c: nat): (r: nat)
    requires c < TWO32
    ensures r < TWO32
  {
    c * 2 % 0x1_0000_0000 + c / 0x8000_0000
  }

  function Word16(b: seq<byte>, n: nat): nat
    requires 2 * n + 2 <= |b|
  {
    Get16(b, 2 * n)
  }

  /** One round: mix a word in and rotate. */
  function Step(c: nat, w: nat): (r: nat)
    ensures r < TWO32
  {
    Pow32();
    Rotl(Xor(c, w, 32))
  }

  /** The rotating exclusive-or of the first `n` 16-bit words. */
  function Sum(b: seq<byte>, n: nat): (r: nat)
    requires 2 * n <= |b|
    ensures r < TWO32
  {
    if n == 0 then 0 else Step(Sum(b, n - 1), Word16(b, n - 1))
  }

  function Checksum(b: seq<byte>): int
    requires |b| >= SUM_BYTES
  {
    Sign32(Sum(b, SUM_WORDS))
  }

  /** `_calculate_sb_checksum`. */
  method CalculateChecksum(b: seq<byte>) returns (checksum: int)
    requires |b| >= SUM_BYTES
    ensures checksum == Checksum(b)
  {
    var c := 0;
    for i := 0 to SUM_WORDS
      invariant c == Sum(b, i) < TWO32
    {
      Pow32();
      c := Xor(c, Word16(b, i), 32);
      var msb := c / 0x8000_0000;
      c := c * 2 % 0x1_0000_0000 + msb;
    }
    checksum := if c >= 0x8000_0000 then c - TWO32 else c;
  }

  /** Rotating doubles the low 31 bits and puts the top bit below them. */
  lemma RotlParts(c: nat, top: nat, low: nat)
    requires c == top * 0x8000_0000 + low < TWO32 && low < 0x8000_0000
    ensures Rotl(c) == 2 * low + top && top <= 1
  {
    assert c / 0x8000_0000 == top;
    assert c * 2 == top * 0x1_0000_0000 + 2 * low;
  }

  lemma RotlInjective(c: nat, d: nat)
    requires c < TWO32 && d < TWO32 && Rotl(c) == Rotl(d)
    ensures c == d
  {
    hide Rotl;
    RotlParts(c, c / 0x8000_0000, c % 0x8000_0000);
    RotlParts(d, d / 0x8000_0000, d % 0x8000_0000);
  }

  /** A round is a bijection of the state for a fixed word, and of the word for a fixed state. */
  lemma StepInjective(c: nat, d: nat, v: nat, w: nat)
    requires c < TWO32 && d < TWO32 && v < TWO32 && w < TWO32
    requires Step(c, v) == Step(d, w)
    ensures v == w ==> c == d
    ensures c == d ==> v == w
  {
    Pow32();
    hide Pow2, Xor;
    RotlInjective(Xor(c, v, 32), Xor(d, w, 32));
    XorInjective(c, d, v, w, 32);
  }

  lemma {:induction false} SumDiffers(a: seq<byte>, b: seq<byte>, k: nat, n: nat)
    requires 2 * n <= |a| == |b| && k < n
    requires Get16(a, 2 * k) != Get16(b, 2 * k)
    requires forall i :: 0 <= i < n && i != k ==> Get16(a, 2 * i) == Get16(b, 2 * i)
    ensures Sum(a, n) != Sum(b, n)
  {
    if n == k + 1 {
      SumSame(a, b, k);
    } else {
      SumDiffers(a, b, k, n - 1);
    }
    if Sum(a, n) == Sum(b, n) {
      StepInjective(Sum(a, n - 1), Sum(b, n - 1), Word16(a, n - 1), Word16(b, n - 1));
    }
  }

  lemma {:induction false} SumSame(a: seq<byte>, b: seq<byte>, n: nat)
    requires 2 * n <= |a| && 2 * n <= |b|
    requires forall i :: 0 <= i < n ==> Get16(a, 2 * i) == Get16(b, 2 * i)
    ensures Sum(a, n) == Sum(b, n)
  {
    if n > 0 { SumSame(a, b, n - 1); }
  }

  /** Two superblocks that differ in exactly one covered word never share a checksum. */
  lemma ChecksumDetectsOneWord(a: seq<byte>, b: seq<byte>, k: nat)
    requires |a| == |b| >= SUM_BYTES && k < SUM_WORDS
    requires Get16(a, 2 * k) != Get16(b, 2 * k)
    requires forall i :: 0 <= i < SUM_WORDS && i != k ==> Get16(a, 2 * i) == Get16(b, 2 * i)
    ensures Checksum(a) != Checksum(b)
  {
    SumDiffers(a, b, k, SUM_WORDS);
  }

  /** The checksum stored in a superblock is the one computed from the very bytes it is stored with. */
  lemma ChecksumReads(s: Superblock)
    requires Packable(s)
    ensures var b := SuperBytes(s, Checksum(SuperBytes(s, 0)));
            Sign32(Get32(b, SUM_BYTES)) == Checksum(b)
  {
    hide Body, Be32, Step;
    var zero := SuperBytes(s, 0);
    var c := Checksum(zero);
    var b := SuperBytes(s, c);
    assert b[SUM_BYTES..SUM_BYTES + 4] == Be32(c % 0x1_0000_0000);
    Get32Be32(b, SUM_BYTES, c % 0x1_0000_0000);
    assert zero[..SUM_BYTES] == b[..SUM_BYTES] == Body(s);
    SameBody(zero, b);
  }

  lemma SameBody(a: seq<byte>, b: seq<byte>)
    requires |a| >= SUM_BYTES && |b| >= SUM_BYTES && a[..SUM_BYTES] == b[..SUM_BYTES]
    ensures Checksum(a) == Checksum(b)
  {
    forall k | 0 <= k < SUM_BYTES ensures a[k] == b[k] { assert a[k] == a[..SUM_BYTES][k]; }
    SumSame(a, b, SUM_WORDS);
  }

  // ------------------------------------------------------------------- bitmap

  /** Binary digit `m` of `n`. */
  predicate Digit(n: nat, m: nat) {
    if m == 0 then n % 2 == 1 else Digit(n / 2, m - 1)
  }

  lemma {:induction false} ZeroDigits(m: nat)
    ensures !Digit(0, m)
  {
    if m > 0 { ZeroDigits(m - 1); }
  }

  /** Adding a power of two whose digit is clear sets that digit and no other. */
  lemma {:induction false} AddDigit(n: nat, m: nat, j: nat, width: nat)
    requires m < width && n < Pow2(width) && !Digit(n, m)
    ensures n + Pow2(m) < Pow2(width)
    ensures Digit(n + Pow2(m), j) <==> j == m || Digit(n, j)
  {
    if m == 0 {
      assert (n + 1) / 2 == n / 2;
    } else {
      AddDigit(n / 2, m - 1, if j == 0 then 0 else j - 1, width - 1);
      assert (n + Pow2(m)) / 2 == n / 2 + Pow2(m - 1);
    }
  }

  /** `b | (1 << (7 - k))` */
  function SetBit(b: byte, k: nat): byte
    requires k < 8
  {
    if Digit(b as int, 7 - k) then b else
      assert Pow2(8) == 0x100;
      AddDigit(b as int, 7 - k, 0, 8);
      (b as int + Pow2(7 - k)) as byte
  }

  lemma SetBitSetsOne(b: byte, k: nat, j: nat)
    requires k < 8 && j < 8
    ensures Digit(SetBit(b, k) as int, 7 - j) <==> j == k || Digit(b as int, 7 - j)
  {
    if !Digit(b as int, 7 - k) {
      assert Pow2(8) == 0x100;
      AddDigit(b as int, 7 - k, 7 - j, 8);
    }
  }

  predicate BitAt(b: seq<byte>, i: nat)
    requires i / 8 < |b|
  {
    Digit(b[i / 8] as int, 7 - i % 8)
  }

  /** `_build_bitmap`: bit i of the padded bitmap is set exactly when block i is used. */
  method BuildBitmap(used: seq<bool>) returns (bitmap: seq<byte>)
    ensures |bitmap| == 512 * BlocksFor((|used| + 7) / 8)
    ensures forall i :: 0 <= i < 8 * |bitmap| ==> (BitAt(bitmap, i) <==> i < |used| && used[i])
  {
    var n := (|used| + 7) / 8;
    var bits := new byte[n](_ => 0);
    forall m: nat ensures !Digit(0, m) { ZeroDigits(m); }
    for i := 0 to |used|
      invariant forall j :: 0 <= j < 8 * n ==> (BitAt(bits[..], j) <==> j < i && used[j])
    {
      if used[i] {
        ghost var was := bits[..];
        bits[i / 8] := SetBit(bits[i / 8], i % 8);
        forall j | 0 <= j < 8 * n
          ensures BitAt(bits[..], j) <==> j == i || BitAt(was, j)
        {
          hide Digit, SetBit;
          if j / 8 == i / 8 { SetBitSetsOne(was[i / 8], i % 8, j % 8); }
        }
      }
    }
    var padded := (n + BLOCK_SIZE - 1) / 512 * 512;
    bitmap := bits[..] + Zeros(padded - n);
    forall i | 0 <= i < 8 * |bitmap|
      ensures BitAt(bitmap, i) <==> i < |used| && used[i]
    {
      if i < 8 * n { assert BitAt(bitmap, i) == BitAt(bits[..], i); } else { assert bitmap[i / 8] == 0; }
    }
  }

  /** The high bit of a byte is the first. */
  lemma HighBitFirst(b: seq<byte>, q: nat)
    requires q < |b|
    ensures b[q] as int == Weigh(b, 8 * q, 8)
  {
    ByteWeight(b, q, 8);
    assert Pow2(8) == 0x100;
  }

  /** The bits from `at` on, read as a binary number. */
  function Weigh(b: seq<byte>, at: nat, n: nat): nat
    requires at + n <= 8 * |b|
  {
    if n == 0 then 0 else 2 * Weigh(b, at, n - 1) + if BitAt(b, at + n - 1) then 1 else 0
  }

  lemma {:induction false} ByteWeight(b: seq<byte>, q: nat, n: nat)
    requires q < |b| && n <= 8
    ensures Weigh(b, 8 * q, n) == b[q] as int / Pow2(8 - n)
  {
    if n == 0 {
      assert Pow2(8) == 0x100;
    } else {
      hide Digit;
      ByteWeight(b, q, n - 1);
      var v := b[q] as int;
      DigitIs(v, 8 - n);
      BitOfByte(b, q, n - 1);
      assert Pow2(9 - n) == 2 * Pow2(8 - n);
      hide Pow2, BitAt;
      HalfAgain(v, Pow2(8 - n));
    }
  }

  lemma BitOfByte(b: seq<byte>, q: nat, k: nat)
    requires q < |b| && k < 8
    ensures BitAt(b, 8 * q + k) <==> Digit(b[q] as int, 7 - k)
  {
    assert (8 * q + k) / 8 == q && (8 * q + k) % 8 == k;
    hide Digit;
  }

  lemma HalfAgain(v: nat, p: nat)
    requires p > 0
    ensures v / (2 * p) == v / p / 2 && v / p == 2 * (v / p / 2) + v / p % 2
  {
    var q := v / (2 * p);
    assert 2 * p * q <= v < 2 * p * q + 2 * p;
    var s := v / p;
    assert p * s <= v < p * s + p;
    MulOrder(p, 2 * q + 2, s);
    MulOrder(p, s, 2 * q - 1);
  }

  lemma MulOrder(p: nat, a: int, b: int)
    ensures a <= b ==> p * a <= p * b
  {}

  /** Binary digit `m` of `n`, by division. */
  lemma {:induction false} DigitIs(n: nat, m: nat)
    ensures Digit(n, m) <==> n / Pow2(m) % 2 == 1
  {
    if m > 0 {
      DigitIs(n / 2, m - 1);
      HalfFirst(n, Pow2(m - 1));
    }
  }

  lemma HalfFirst(n: nat, p: nat)
    requires p > 0
    ensures n / (2 * p) == n / 2 / p
  {
    var q := n / 2 / p;
    assert p * q <= n / 2 < p * q + p;
    var d := n - 2 * p * q;
    assert 0 <= d < 2 * p;
    DivIs(n, 2 * p, q, d);
  }

  lemma DivIs(a: int, b: int, q: int, r: int)
    requires b > 0 && a == b * q + r && 0 <= r < b
    ensures a / b == q
  {
    var s := a / b;
    assert b * s <= a < b * s + b;
    MulOrder(b, q + 1, s);
    MulOrder(b, s + 1, q);
  }

  // ------------------------------------------------------- the checksum in closed form

  lemma {:induction false} XorDigit(a: nat, b: nat, width: nat, m: nat)
    requires m < width
    ensures Digit(Xor(a, b, width), m) <==> Digit(a, m) != Digit(b, m)
  {
    if m > 0 { XorDigit(a / 2, b / 2, width - 1, m - 1); }
  }

  lemma {:induction false} LowDigit(top: nat, low: nat, k: nat, m: nat)
    requires low < Pow2(k) && m < k
    ensures Digit(top * Pow2(k) + low, m) <==> Digit(low, m)
  {
    var n := top * Pow2(k) + low;
    var h := top * Pow2(k - 1);
    assert top * Pow2(k) == 2 * h;
    assert n / 2 == h + low / 2 && n % 2 == low % 2;
    if m > 0 { LowDigit(top, low / 2, k - 1, m - 1); }
  }

  lemma Pow31()
    ensures Pow2(31) == 0x8000_0000
  {
    assert Pow2(7) == 0x80;
    assert Pow2(15) == 0x8000;
    assert Pow2(23) == 0x80_0000;
  }

  /** Rotating left moves every digit up by one, the last to the front. */
  lemma RotlDigit(c: nat, m: nat)
    requires c < TWO32 && m < 32
    ensures Digit(Rotl(c), m) <==> Digit(c, (m + 31) % 32)
  {
    hide Rotl, Pow2, Digit;
    var top, low := c / 0x8000_0000, c % 0x8000_0000;
    RotlParts(c, top, low);
    Pow31();
    if m == 0 {
      DigitIs(c, 31);
      LastDigit(low, top);
    } else {
      NextDigit(low, top, m);
      LowDigit(top, low, 31, m - 1);
    }
  }

  lemma LastDigit(low: nat, top: nat)
    requires top <= 1
    ensures Digit(2 * low + top, 0) <==> top == 1
  {}

  lemma NextDigit(low: nat, top: nat, m: nat)
    requires top <= 1 && m > 0
    ensures Digit(2 * low + top, m) == Digit(low, m - 1)
  {
    assert (2 * low + top) / 2 == low;
  }

  /** How many of the first `n` words have the bit that ends up as bit `m` after `rounds` rounds: word `i` has been
      rotated left `rounds - i` times by then. */
  function Votes(b: seq<byte>, n: nat, rounds: nat, m: nat): nat
    requires 2 * n <= |b|
  {
    if n == 0 then 0
    else Votes(b, n - 1, rounds, m) + if Digit(Word16(b, n - 1), (m + n - 1 - rounds) % 32) then 1 else 0
  }

  lemma {:induction false} VotesShift(b: seq<byte>, n: nat, rounds: nat, m: nat)
    requires 2 * n <= |b| && rounds > 0 && m < 32
    ensures Votes(b, n, rounds - 1, (m + 31) % 32) == Votes(b, n, rounds, m)
  {
    hide Digit;
    if n > 0 {
      VotesShift(b, n - 1, rounds, m);
      assert ((m + 31) % 32 + n - 1 - (rounds - 1)) % 32 == (m + n - 1 - rounds) % 32 by {
        if m == 0 { assert (31 + n - rounds) % 32 == (n - 1 - rounds) % 32; }
      }
    }
  }

  lemma SumStep(b: seq<byte>, n: nat)
    requires 0 < n && 2 * n <= |b|
    ensures var x := Xor(Sum(b, n - 1), Word16(b, n - 1), 32); x < TWO32 && Sum(b, n) == Rotl(x)
  {
    Pow32();
    hide Xor, Rotl;
  }

  lemma OneLess(m: int)
    ensures (m - 1) % 32 == (m + 31) % 32
  {}

  lemma LastVote(b: seq<byte>, n: nat, m: nat)
    requires 0 < n && 2 * n <= |b|
    ensures Votes(b, n, n, m) == Votes(b, n - 1, n, m) + if Digit(Word16(b, n - 1), (m + 31) % 32) then 1 else 0
  {
    hide Digit, Word16;
    assert m + n - 1 - n == m - 1;
    OneLess(m);
  }

  lemma ParityStep(v: nat, bit: bool)
    ensures (v + if bit then 1 else 0) % 2 == 1 <==> (v % 2 == 1) != bit
  {}

  lemma {:induction false} SumBits(b: seq<byte>, n: nat, m: nat)
    requires 2 * n <= |b| && m < 32
    ensures Digit(Sum(b, n), m) <==> Votes(b, n, n, m) % 2 == 1
  {
    if n == 0 {
      ZeroDigits(m);
    } else {
      var k, w := (m + 31) % 32, Word16(b, n - 1);
      hide Digit, Xor, Rotl, Sum, Votes, Word16;
      SumBits(b, n - 1, k);
      SumStep(b, n);
      RotlDigit(Xor(Sum(b, n - 1), w, 32), m);
      XorDigit(Sum(b, n - 1), w, 32, k);
      VotesShift(b, n - 1, n, m);
      LastVote(b, n, m);
      ParityStep(Votes(b, n - 1, n, m), Digit(w, k));
    }
  }

  /** Bit `m` of the checksum is the exclusive-or, over the 44 words, of the bit that lands there when word `i` is rotated
      left 44 - i times. */
  lemma ChecksumBits(b: seq<byte>, m: nat)
    requires |b| >= SUM_BYTES && m < 32
    ensures Digit(Checksum(b) % 0x1_0000_0000, m) <==> Votes(b, 44, 44, m) % 2 == 1
  {
    hide Sum, Digit, Votes;
    SumBits(b, SUM_WORDS, m);
    assert Checksum(b) % 0x1_0000_0000 == Sum(b, SUM_WORDS);
  }
}
