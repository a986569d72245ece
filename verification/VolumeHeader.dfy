/** The SGI volume header: `build_vh`, `read_vh` and `compute_checksum` of create_boot_disk.py. */
module VolumeHeader {
  import opened Common
  import opened Bytes

  // 512 bytes: magic 4, root and swap partition 2 each, boot file 16, device parameters 48,
  // 15 directory slots of 16, 16 partitions of 12, checksum 4, and 4 unused.
  const VHMAGIC := 0x0be5_a941
  const NVDIR := 15
  const NPARTAB := 16
  const VDNAMESIZE := 8
  const BFNAMESIZE := 16
  const VH_SIZE := 512

  datatype VdEntry = VdEntry(name: string, lbn: int, nbytes: int)
  datatype PtEntry = PtEntry(nblks: int, firstlbn: int, kind: int)
  datatype VolHdr = VolHdr(rootpt: int, swappt: int, bootfile: string, vd: seq<VdEntry>, pt: seq<PtEntry>, csum: int)

  // ---------------------------------------------------------------------- names

  predicate Ascii(s: string) { forall i :: 0 <= i < |s| ==> s[i] as int < 0x80 }

  function Encode(s: string): (b: seq<byte>)
    requires Ascii(s)
    ensures |b| == |s|
  {
    seq<byte>(|s|, i requires 0 <= i < |s| => s[i] as int as byte)
  }

  /** ASCII with each byte that is not replaced by U+FFFD. */
  function DecodeByte(b: byte): char { if b as int < 0x80 then b as int as char else '\U{FFFD}' }

  /** The decoded bytes before the first NUL. */
  function ReadName(f: seq<byte>): string {
    if f == [] || f[0] == 0 then [] else [DecodeByte(f[0])] + ReadName(f[1..])
  }

  /** A name cut to `n` bytes and padded with NULs. */
  function NameField(s: string, n: nat): (b: seq<byte>)
    requires Ascii(s)
    ensures |b| == n
  {
    Encode(s)[..Min(|s|, n)] + Zeros(n - Min(|s|, n))
  }

  /** What comes back of a name: its first `n` characters, up to a NUL. */
  function Kept(s: string, n: nat): string {
    if s == [] || n == 0 || s[0] == '\0' then [] else [s[0]] + Kept(s[1..], n - 1)
  }

  lemma {:induction false} NameComesBack(s: string, n: nat)
    requires Ascii(s)
    ensures ReadName(NameField(s, n)) == Kept(s, n)
    decreases n
  {
    if n > 0 && s != [] {
      var f := NameField(s, n);
      assert f[0] == Encode(s)[0];
      assert f[1..] == NameField(s[1..], n - 1);
      NameComesBack(s[1..], n - 1);
    } else if n > 0 {
      assert NameField(s, n)[0] == 0;
    }
  }

  /** A name that fits its field and has no NUL in it. */
  predicate Clean(s: string, n: nat) { |s| <= n && '\0' !in s }

  lemma {:induction false} NameIntactIff(s: string, n: nat)
    ensures Kept(s, n) == s <==> Clean(s, n)
    ensures |Kept(s, n)| <= n
    decreases n
  {
    if n > 0 && s != [] && s[0] != '\0' {
      NameIntactIff(s[1..], n - 1);
      assert s == [s[0]] + s[1..];
    }
  }

  // ------------------------------------------------------------------ the header

  predicate I32(n: int) { -0x8000_0000 <= n < 0x8000_0000 }

  predicate VdOk(e: VdEntry) { Ascii(e.name) && I32(e.lbn) && I32(e.nbytes) }

  predicate PtOk(e: PtEntry) { I32(e.nblks) && I32(e.firstlbn) && I32(e.kind) }

  /** What `build_vh` can pack; entries beyond the tables' sizes are ignored. */
  predicate InRange(bootfile: string, vd: seq<VdEntry>, pt: seq<PtEntry>) {
    && Ascii(bootfile)
    && (forall i :: 0 <= i < |vd| && i < NVDIR ==> VdOk(vd[i]))
    && (forall i :: 0 <= i < |pt| && i < NPARTAB ==> PtOk(pt[i]))
  }

  function I32Field(n: int): (b: seq<byte>)
    requires I32(n)
    ensures |b| == 4
  {
    Be32(Wrap32(n))
  }

  function VdSlot(e: VdEntry): (b: seq<byte>)
    requires VdOk(e)
    ensures |b| == 16
  {
    NameField(e.name, VDNAMESIZE) + I32Field(e.lbn) + I32Field(e.nbytes)
  }

  function PtSlot(e: PtEntry): (b: seq<byte>)
    requires PtOk(e)
    ensures |b| == 12
  {
    I32Field(e.nblks) + I32Field(e.firstlbn) + I32Field(e.kind)
  }

  function VdTable(vd: seq<VdEntry>, n: nat): (b: seq<byte>)
    requires n <= NVDIR && forall i :: 0 <= i < |vd| && i < NVDIR ==> VdOk(vd[i])
    ensures |b| == 16 * n
  {
    if n == 0 then [] else VdTable(vd, n - 1) + if n <= |vd| then VdSlot(vd[n - 1]) else Zeros(16)
  }

  function PtTable(pt: seq<PtEntry>, n: nat): (b: seq<byte>)
    requires n <= NPARTAB && forall i :: 0 <= i < |pt| && i < NPARTAB ==> PtOk(pt[i])
    ensures |b| == 12 * n
  {
    if n == 0 then [] else PtTable(pt, n - 1) + if n <= |pt| then PtSlot(pt[n - 1]) else Zeros(12)
  }

  /** The first 72 bytes; of the device parameters only the sector size is set. */
  function Front(bootfile: string): (b: seq<byte>)
    requires Ascii(bootfile)
    ensures |b| == 72
  {
    Be32(VHMAGIC) + Be16(0) + Be16(1) + NameField(bootfile, BFNAMESIZE) + Zeros(16) + Be16(512) + Zeros(30)
  }

  function Body(bootfile: string, vd: seq<VdEntry>, pt: seq<PtEntry>): (b: seq<byte>)
    requires InRange(bootfile, vd, pt)
    ensures |b| == 504
  {
    Front(bootfile) + VdTable(vd, NVDIR) + PtTable(pt, NPARTAB)
  }

  /** Sum of the first `n` words. */
  function WordSum(d: seq<byte>, n: nat): int
    requires 4 * n <= |d|
  {
    if n == 0 then 0 else WordSum(d, n - 1) + Get32(d, 4 * (n - 1))
  }

  function Signed(n: int): int { if n >= 0x8000_0000 then n - 0x1_0000_0000 else n }

  /** `d` with `b` at offset `at`. */
  function Put(d: seq<byte>, at: nat, b: seq<byte>): (r: seq<byte>)
    requires at + |b| <= |d|
    ensures |r| == |d|
  {
    d[..at] + b + d[at + |b|..]
  }

  /** `compute_checksum`: the two's complement of the sum of all words but the checksum's own. */
  function Checksum(d: seq<byte>): (n: int)
    requires |d| == VH_SIZE
    ensures I32(n)
  {
    Signed((-WordSum(Put(d, 504, Zeros(4)), 128)) % 0x1_0000_0000)
  }

  function Header(bootfile: string, vd: seq<VdEntry>, pt: seq<PtEntry>): (b: seq<byte>)
    requires InRange(bootfile, vd, pt)
    ensures |b| == VH_SIZE
  {
    Body(bootfile, vd, pt) + I32Field(Checksum(Body(bootfile, vd, pt) + Zeros(8))) + Zeros(4)
  }

  // ------------------------------------------------------------------ the checksum

  lemma {:induction false} WordSumPut(d: seq<byte>, k: nat, b: seq<byte>, n: nat)
    requires 4 * n <= |d| && 4 * k + 4 <= |d| && |b| == 4
    ensures WordSum(Put(d, 4 * k, b), n) == WordSum(d, n) + if k < n then Get32(b, 0) - Get32(d, 4 * k) else 0
  {
    if n > 0 {
      WordSumPut(d, k, b, n - 1);
      WordOfPut(d, k, b, n - 1);
    }
  }

  lemma WordOfPut(d: seq<byte>, k: nat, b: seq<byte>, j: nat)
    requires 4 * j + 4 <= |d| && 4 * k + 4 <= |d| && |b| == 4
    ensures Get32(Put(d, 4 * k, b), 4 * j) == if j == k then Get32(b, 0) else Get32(d, 4 * j)
  {}

  lemma FieldValue(n: int)
    requires I32(n)
    ensures Get32(I32Field(n), 0) == Wrap32(n) && Wrap32(n) == n % 0x1_0000_0000
  {
    Get32Be32(I32Field(n), 0, Wrap32(n));
  }

  lemma ZeroWord()
    ensures Get32(Zeros(4), 0) == 0
  {}

  lemma Cancels(s: int)
    ensures (s + Signed((-s) % 0x1_0000_0000) % 0x1_0000_0000) % 0x1_0000_0000 == 0
  {}

  /** Storing the checksum makes the words of any header sum to 0, whatever stood in its place before. */
  lemma ChecksumBalances(d: seq<byte>)
    requires |d| == VH_SIZE
    ensures WordSum(Put(d, 504, I32Field(Checksum(d))), 128) % 0x1_0000_0000 == 0
  {
    hide Get32, Be32, Put, WordSum, Signed;
    var s: int := WordSum(Put(d, 504, Zeros(4)), 128);
    WordSumPut(d, 126, Zeros(4), 128);
    WordSumPut(d, 126, I32Field(Checksum(d)), 128);
    FieldValue(Checksum(d));
    ZeroWord();
    Cancels(s);
  }

  /** The only 32-bit checksum that does. */
  lemma ChecksumIsTheOnlyOne(d: seq<byte>, c: int)
    requires |d| == VH_SIZE && I32(c)
    ensures WordSum(Put(d, 504, I32Field(c)), 128) % 0x1_0000_0000 == 0 <==> c == Checksum(d)
  {
    hide Get32, Be32, Put, WordSum, Checksum, Signed;
    ChecksumBalances(d);
    WordSumPut(d, 126, I32Field(c), 128);
    WordSumPut(d, 126, I32Field(Checksum(d)), 128);
    FieldValue(c);
    FieldValue(Checksum(d));
  }

  /** The 128 words of every header the tool builds sum to 0. */
  lemma HeaderSumsToZero(bootfile: string, vd: seq<VdEntry>, pt: seq<PtEntry>)
    requires InRange(bootfile, vd, pt)
    ensures WordSum(Header(bootfile, vd, pt), 128) % 0x1_0000_0000 == 0
  {
    hide Body, WordSum, Checksum, I32Field;
    var d := Body(bootfile, vd, pt) + Zeros(8);
    ChecksumBalances(d);
    assert Put(d, 504, I32Field(Checksum(d))) == Header(bootfile, vd, pt);
  }

  // ------------------------------------------------------------------- reading back

  function ReadI32(d: seq<byte>, at: nat): int
    requires at + 4 <= |d|
  {
    Sign32(Get32(d, at))
  }

  function ReadVd(d: seq<byte>, at: nat): VdEntry
    requires at + 16 <= |d|
  {
    VdEntry(ReadName(d[at..at + 8]), ReadI32(d, at + 8), ReadI32(d, at + 12))
  }

  function ReadPt(d: seq<byte>, at: nat): PtEntry
    requires at + 12 <= |d|
  {
    PtEntry(ReadI32(d, at), ReadI32(d, at + 4), ReadI32(d, at + 8))
  }

  function ReadVds(d: seq<byte>, n: nat): (vd: seq<VdEntry>)
    requires 72 + 16 * n <= |d|
    ensures |vd| == n
  {
    if n == 0 then [] else ReadVds(d, n - 1) + [ReadVd(d, 72 + 16 * (n - 1))]
  }

  function ReadPts(d: seq<byte>, n: nat): (pt: seq<PtEntry>)
    requires 312 + 12 * n <= |d|
    ensures |pt| == n
  {
    if n == 0 then [] else ReadPts(d, n - 1) + [ReadPt(d, 312 + 12 * (n - 1))]
  }

  /** `read_vh` of a file holding `d`. */
  function ReadVh(d: seq<byte>): Option<VolHdr> {
    if |d| < VH_SIZE || Get32(d, 0) != VHMAGIC then None
    else
      Some(VolHdr(Sign16(Get16(d, 4)), Sign16(Get16(d, 6)), ReadName(d[8..24]), ReadVds(d, NVDIR), ReadPts(d, NPARTAB),
                  ReadI32(d, 504)))
  }

  /** `field` stands at offset `at`. */
  ghost predicate HasAt(d: seq<byte>, at: nat, field: seq<byte>) { at + |field| <= |d| && d[at..at + |field|] == field }

  lemma SliceOfSlice<T>(d: seq<T>, i: nat, j: nat, a: nat, b: nat)
    requires i <= j <= |d| && a <= b <= j - i
    ensures d[i..j][a..b] == d[i + a..i + b]
  {
    forall k | 0 <= k < b - a ensures d[i..j][a..b][k] == d[i + a..i + b][k] {
      assert d[i..j][a..b][k] == d[i..j][a + k] == d[i + a + k];
    }
  }

  lemma HasPart(d: seq<byte>, at: nat, field: seq<byte>, a: nat, b: nat)
    requires HasAt(d, at, field) && a <= b <= |field|
    ensures HasAt(d, at + a, field[a..b])
  {
    SliceOfSlice(d, at, at + |field|, a, b);
  }

  lemma AtField(d: seq<byte>, at: nat, field: seq<byte>)
    requires HasAt(d, at, field)
    ensures at + |field| <= |d| && d[at..at + |field|] == field
  {}

  lemma AtLength(d: seq<byte>, at: nat, field: seq<byte>)
    requires HasAt(d, at, field)
    ensures at + |field| <= |d|
  {}

  lemma AtStart(field: seq<byte>, rest: seq<byte>)
    ensures HasAt(field + rest, 0, field)
  {}

  lemma HasConcat(d: seq<byte>, at: nat, a: seq<byte>, b: seq<byte>)
    requires HasAt(d, at, a + b)
    ensures HasAt(d, at, a) && HasAt(d, at + |a|, b)
  {
    HasPart(d, at, a + b, 0, |a|);
    HasPart(d, at, a + b, |a|, |a| + |b|);
    assert (a + b)[0..|a|] == a && (a + b)[|a|..|a| + |b|] == b;
  }

  lemma I32Back(d: seq<byte>, at: nat, n: int)
    requires I32(n) && HasAt(d, at, I32Field(n))
    ensures ReadI32(d, at) == n
  {
    Get32Be32(d, at, Wrap32(n));
  }

  /** An entry as the name field's 8 bytes keep it. */
  function KeptVd(e: VdEntry): VdEntry { e.(name := Kept(e.name, VDNAMESIZE)) }

  const NO_FILE := VdEntry("", 0, 0)
  const NO_PART := PtEntry(0, 0, 0)

  /** The `n` directory slots that come back. */
  function KeptVds(vd: seq<VdEntry>, n: nat): (r: seq<VdEntry>)
    ensures |r| == n
  {
    seq<VdEntry>(n, i requires 0 <= i < n => if i < |vd| then KeptVd(vd[i]) else NO_FILE)
  }

  function KeptPts(pt: seq<PtEntry>, n: nat): (r: seq<PtEntry>)
    ensures |r| == n
  {
    seq<PtEntry>(n, i requires 0 <= i < n => if i < |pt| then pt[i] else NO_PART)
  }

  lemma KeptVdsNext(vd: seq<VdEntry>, n: nat)
    requires n > 0
    ensures KeptVds(vd, n) == KeptVds(vd, n - 1) + [if n <= |vd| then KeptVd(vd[n - 1]) else NO_FILE]
  {
    hide KeptVd;
  }

  lemma KeptPtsNext(pt: seq<PtEntry>, n: nat)
    requires n > 0
    ensures KeptPts(pt, n) == KeptPts(pt, n - 1) + [if n <= |pt| then pt[n - 1] else NO_PART]
  {}

  lemma VdSlotBack(d: seq<byte>, at: nat, e: VdEntry)
    requires VdOk(e) && HasAt(d, at, VdSlot(e))
    ensures ReadVd(d, at) == KeptVd(e)
  {
    hide ReadName, NameField, ReadI32, HasAt, I32Field, Kept;
    var n, l, b := NameField(e.name, VDNAMESIZE), I32Field(e.lbn), I32Field(e.nbytes);
    HasConcat(d, at, n + l, b);
    HasConcat(d, at, n, l);
    I32Back(d, at + 8, e.lbn);
    I32Back(d, at + 12, e.nbytes);
    NameComesBack(e.name, VDNAMESIZE);
    AtField(d, at, n);
  }

  lemma EmptyVdBack(d: seq<byte>, at: nat)
    requires HasAt(d, at, Zeros(16))
    ensures ReadVd(d, at) == NO_FILE
  {
    assert d[at] == d[at..at + 16][0];
    forall k | at + 8 <= k < at + 16 ensures d[k] == 0 { assert d[k] == d[at..at + 16][k - at]; }
  }

  lemma PtSlotBack(d: seq<byte>, at: nat, e: PtEntry)
    requires PtOk(e) && HasAt(d, at, PtSlot(e))
    ensures ReadPt(d, at) == e
  {
    hide ReadI32, HasAt, I32Field;
    var n, f, k := I32Field(e.nblks), I32Field(e.firstlbn), I32Field(e.kind);
    HasConcat(d, at, n + f, k);
    HasConcat(d, at, n, f);
    I32Back(d, at, e.nblks);
    I32Back(d, at + 4, e.firstlbn);
    I32Back(d, at + 8, e.kind);
  }

  lemma EmptyPtBack(d: seq<byte>, at: nat)
    requires HasAt(d, at, Zeros(12))
    ensures ReadPt(d, at) == NO_PART
  {
    forall k | at <= k < at + 12 ensures d[k] == 0 { assert d[k] == d[at..at + 12][k - at]; }
  }

  lemma VdTableLast(d: seq<byte>, vd: seq<VdEntry>, n: nat)
    requires 0 < n <= NVDIR && forall i :: 0 <= i < |vd| && i < NVDIR ==> VdOk(vd[i])
    requires HasAt(d, 72, VdTable(vd, n))
    ensures 72 + 16 * n <= |d| && HasAt(d, 72, VdTable(vd, n - 1))
    ensures ReadVd(d, 72 + 16 * (n - 1)) == if n <= |vd| then KeptVd(vd[n - 1]) else NO_FILE
  {
    hide HasAt, ReadVd, VdSlot, KeptVd, VdOk, Zeros;
    AtLength(d, 72, VdTable(vd, n));
    HasConcat(d, 72, VdTable(vd, n - 1), if n <= |vd| then VdSlot(vd[n - 1]) else Zeros(16));
    if n <= |vd| { VdSlotBack(d, 72 + 16 * (n - 1), vd[n - 1]); } else { EmptyVdBack(d, 72 + 16 * (n - 1)); }
  }

  lemma {:induction false} VdTableBack(d: seq<byte>, vd: seq<VdEntry>, n: nat)
    requires n <= NVDIR && forall i :: 0 <= i < |vd| && i < NVDIR ==> VdOk(vd[i])
    requires HasAt(d, 72, VdTable(vd, n))
    ensures 72 + 16 * n <= |d| && ReadVds(d, n) == KeptVds(vd, n)
  {
    hide HasAt, ReadVd, KeptVd, KeptVds, VdOk, VdTable;
    AtLength(d, 72, VdTable(vd, n));
    if n > 0 {
      VdTableLast(d, vd, n);
      VdTableBack(d, vd, n - 1);
      KeptVdsNext(vd, n);
    }
  }

  lemma PtTableLast(d: seq<byte>, pt: seq<PtEntry>, n: nat)
    requires 0 < n <= NPARTAB && forall i :: 0 <= i < |pt| && i < NPARTAB ==> PtOk(pt[i])
    requires HasAt(d, 312, PtTable(pt, n))
    ensures 312 + 12 * n <= |d| && HasAt(d, 312, PtTable(pt, n - 1))
    ensures ReadPt(d, 312 + 12 * (n - 1)) == if n <= |pt| then pt[n - 1] else NO_PART
  {
    hide HasAt, ReadPt, PtSlot, PtOk, Zeros;
    AtLength(d, 312, PtTable(pt, n));
    HasConcat(d, 312, PtTable(pt, n - 1), if n <= |pt| then PtSlot(pt[n - 1]) else Zeros(12));
    if n <= |pt| { PtSlotBack(d, 312 + 12 * (n - 1), pt[n - 1]); } else { EmptyPtBack(d, 312 + 12 * (n - 1)); }
  }

  lemma {:induction false} PtTableBack(d: seq<byte>, pt: seq<PtEntry>, n: nat)
    requires n <= NPARTAB && forall i :: 0 <= i < |pt| && i < NPARTAB ==> PtOk(pt[i])
    requires HasAt(d, 312, PtTable(pt, n))
    ensures 312 + 12 * n <= |d| && ReadPts(d, n) == KeptPts(pt, n)
  {
    hide HasAt, ReadPt, KeptPts, PtOk, PtTable;
    AtLength(d, 312, PtTable(pt, n));
    if n > 0 {
      PtTableLast(d, pt, n);
      PtTableBack(d, pt, n - 1);
      KeptPtsNext(pt, n);
    }
  }

  lemma FrontBack(d: seq<byte>, bootfile: string)
    requires Ascii(bootfile) && HasAt(d, 0, Front(bootfile))
    ensures |d| >= 72 && Get32(d, 0) == VHMAGIC && Get16(d, 4) == 0 && Get16(d, 6) == 1
    ensures ReadName(d[8..24]) == Kept(bootfile, BFNAMESIZE)
  {
    hide ReadName, NameField, Kept, Get32, Get16, Be32, Be16, Zeros;
    var name, dev := NameField(bootfile, BFNAMESIZE), Zeros(16) + Be16(512) + Zeros(30);
    assert Front(bootfile) == Be32(VHMAGIC) + Be16(0) + Be16(1) + name + dev;
    HasConcat(d, 0, Be32(VHMAGIC) + Be16(0) + Be16(1) + name, dev);
    HasConcat(d, 0, Be32(VHMAGIC) + Be16(0) + Be16(1), name);
    HasConcat(d, 0, Be32(VHMAGIC) + Be16(0), Be16(1));
    HasConcat(d, 0, Be32(VHMAGIC), Be16(0));
    Get32Be32(d, 0, VHMAGIC);
    Get16Be16(d, 4, 0);
    Get16Be16(d, 6, 1);
    NameComesBack(bootfile, BFNAMESIZE);
  }

  /** `read_vh` gives back what `build_vh` was given: names as their fields keep them, the first 15 directory
      entries and the first 16 partitions, and empty entries behind them. `rest` is the rest of the disk. */
  lemma HeaderComesBack(bootfile: string, vd: seq<VdEntry>, pt: seq<PtEntry>, rest: seq<byte>)
    requires InRange(bootfile, vd, pt)
    ensures var d, r := Header(bootfile, vd, pt), ReadVh(Header(bootfile, vd, pt) + rest);
            r == Some(VolHdr(0, 1, Kept(bootfile, BFNAMESIZE), KeptVds(vd, NVDIR), KeptPts(pt, NPARTAB),
                             Checksum(Body(bootfile, vd, pt) + Zeros(8))))
  {
    hide ReadName, Get32, Get16, HasAt, Front, VdTable, PtTable, ReadVds, ReadPts, I32Field, ReadI32, Checksum,
         Zeros, KeptVds, KeptPts, Kept, VdOk, PtOk;
    var c := Checksum(Body(bootfile, vd, pt) + Zeros(8));
    var f, v, p := Front(bootfile), VdTable(vd, NVDIR), PtTable(pt, NPARTAB);
    var d := Header(bootfile, vd, pt) + rest;
    assert d == f + v + p + I32Field(c) + (Zeros(4) + rest);
    AtStart(f + v + p + I32Field(c), Zeros(4) + rest);
    HasConcat(d, 0, f + v + p, I32Field(c));
    HasConcat(d, 0, f + v, p);
    HasConcat(d, 0, f, v);
    FrontBack(d, bootfile);
    VdTableBack(d, vd, NVDIR);
    PtTableBack(d, pt, NPARTAB);
    I32Back(d, 504, c);
  }

  /** Every directory entry and the boot file name survive exactly when the names fit their fields and have
      no NUL in them. */
  lemma EntriesIntactIff(bootfile: string, vd: seq<VdEntry>, pt: seq<PtEntry>, rest: seq<byte>)
    requires InRange(bootfile, vd, pt) && |vd| <= NVDIR && |pt| <= NPARTAB
    ensures var r := ReadVh(Header(bootfile, vd, pt) + rest);
            && r.Some? && r.value.pt[..|pt|] == pt
            && (r.value.bootfile == bootfile <==> Clean(bootfile, BFNAMESIZE))
            && (r.value.vd[..|vd|] == vd <==> forall i :: 0 <= i < |vd| ==> Clean(vd[i].name, VDNAMESIZE))
  {
    hide Kept, Clean, ReadVh, Header, Checksum, Body, VdOk, PtOk;
    HeaderComesBack(bootfile, vd, pt, rest);
    NameIntactIff(bootfile, BFNAMESIZE);
    assert KeptPts(pt, NPARTAB)[..|pt|] == pt;
    forall i | 0 <= i < |vd| ensures KeptVd(vd[i]) == vd[i] <==> Clean(vd[i].name, VDNAMESIZE) {
      NameIntactIff(vd[i].name, VDNAMESIZE);
    }
    var k := KeptVds(vd, NVDIR);
    if k[..|vd|] == vd {
      forall i | 0 <= i < |vd| ensures Clean(vd[i].name, VDNAMESIZE) { assert k[..|vd|][i] == KeptVd(vd[i]); }
    }
  }

  // ---------------------------------------------------------------- where the fields stand

  lemma {:induction false} ReadVdsNth(d: seq<byte>, n: nat, i: nat)
    requires 72 + 16 * n <= |d| && i < n
    ensures ReadVds(d, n)[i] == ReadVd(d, 72 + 16 * i)
  {
    hide ReadVd;
    if i < n - 1 { ReadVdsNth(d, n - 1, i); }
  }

  lemma {:induction false} ReadPtsNth(d: seq<byte>, n: nat, i: nat)
    requires 312 + 12 * n <= |d| && i < n
    ensures ReadPts(d, n)[i] == ReadPt(d, 312 + 12 * i)
  {
    hide ReadPt;
    if i < n - 1 { ReadPtsNth(d, n - 1, i); }
  }

  /** The words of directory slot `i` and of partition `j` on the disk. */
  lemma {:induction false} EntriesStandAt(d: seq<byte>, i: nat, j: nat)
    requires ReadVh(d).Some? && i < 15 && j < 16
    ensures |d| >= 512
    ensures var e := ReadVh(d).value.vd[i];
            && Get32(d, 80 + 16 * i) == e.lbn % 0x1_0000_0000 && Get32(d, 84 + 16 * i) == e.nbytes % 0x1_0000_0000
    ensures var e := ReadVh(d).value.pt[j];
            && Get32(d, 312 + 12 * j) == e.nblks % 0x1_0000_0000
            && Get32(d, 316 + 12 * j) == e.firstlbn % 0x1_0000_0000
            && Get32(d, 320 + 12 * j) == e.kind % 0x1_0000_0000
  {
    hide ReadVds, ReadPts, ReadName, Get32, Get16;
    ReadVdsNth(d, NVDIR, i);
    ReadPtsNth(d, NPARTAB, j);
  }

  /** The bytes that are the same in every header: magic, root and swap partition; in the device parameters the
      sector size of 512 and nothing else; and the last four. */
  lemma HeaderBytes(bootfile: string, vd: seq<VdEntry>, pt: seq<PtEntry>)
    requires InRange(bootfile, vd, pt)
    ensures var d := Header(bootfile, vd, pt);
            && d[..8] == [0x0b, 0xe5, 0xa9, 0x41, 0, 0, 0, 1]
            && (forall k :: 24 <= k < 72 ==> d[k] == if k == 40 then 2 else 0)
            && (forall k :: 508 <= k < 512 ==> d[k] == 0)
  {
    hide NameField, VdTable, PtTable, Checksum, I32Field;
    var name := NameField(bootfile, BFNAMESIZE);
    var f := Front(bootfile);
    assert f == (Be32(VHMAGIC) + Be16(0) + Be16(1)) + name + (Zeros(16) + Be16(512) + Zeros(30));
    assert f[..8] == Be32(VHMAGIC) + Be16(0) + Be16(1);
    var d := Header(bootfile, vd, pt);
    forall k | 0 <= k < 72 ensures d[k] == f[k] {}
  }
}
