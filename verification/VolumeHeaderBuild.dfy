/** `build_vh`, `compute_checksum` and `read_vh` in place, against their specifications. */
module VolumeHeaderBuild {
  import opened Common
  import opened Bytes
  import opened VolumeHeader

  /** `d` is `prefix` and zeros behind it. */
  ghost predicate Filled(d: seq<byte>, prefix: seq<byte>) {
    |d| == VH_SIZE && |prefix| <= VH_SIZE && d == prefix + Zeros(VH_SIZE - |prefix|)
  }

  lemma FillAt(d: seq<byte>, prefix: seq<byte>, b: seq<byte>)
    requires Filled(d, prefix) && |prefix| + |b| <= VH_SIZE
    ensures Filled(Put(d, |prefix|, b), prefix + b)
  {
    assert d[..|prefix|] == prefix;
    assert d[|prefix| + |b|..] == Zeros(VH_SIZE - |prefix| - |b|);
  }

  lemma FillGap(d: seq<byte>, prefix: seq<byte>, n: nat)
    requires Filled(d, prefix) && |prefix| + n <= VH_SIZE
    ensures Filled(d, prefix + Zeros(n))
  {}

  lemma {:induction false} EmptySlots(vd: seq<VdEntry>, n: nat)
    requires |vd| <= n <= NVDIR && forall i :: 0 <= i < |vd| && i < NVDIR ==> VdOk(vd[i])
    ensures VdTable(vd, n) == VdTable(vd, |vd|) + Zeros(16 * (n - |vd|))
  {
    hide VdOk, VdSlot;
    if n > |vd| { EmptySlots(vd, n - 1); }
  }

  lemma {:induction false} EmptyParts(pt: seq<PtEntry>, n: nat)
    requires |pt| <= n <= NPARTAB && forall i :: 0 <= i < |pt| && i < NPARTAB ==> PtOk(pt[i])
    ensures PtTable(pt, n) == PtTable(pt, |pt|) + Zeros(12 * (n - |pt|))
  {
    hide PtOk, PtSlot;
    if n > |pt| { EmptyParts(pt, n - 1); }
  }

  /** `struct.pack_into`, and assignment to a slice of the same length. */
  method PackInto(data: array<byte>, at: nat, b: seq<byte>)
    requires at + |b| <= data.Length
    modifies data
    ensures data[..] == Put(old(data[..]), at, b)
  {
    hide Put;
    ghost var start := data[..];
    PutNothing(start, at);
    assert b[..0] == [];
    for i := 0 to |b|
      invariant data[..] == Put(start, at, b[..i])
    {
      PutNext(start, at, b, i);
      ghost var before := data[..];
      data[at + i] := b[i];
      assert data[..] == before[at + i := b[i]];
    }
    assert b[..|b|] == b;
  }

  lemma PutNothing(d: seq<byte>, at: nat)
    requires at <= |d|
    ensures Put(d, at, []) == d
  {}

  lemma PutNext(d: seq<byte>, at: nat, b: seq<byte>, i: nat)
    requires at + |b| <= |d| && i < |b|
    ensures Put(d, at, b[..i + 1]) == Put(d, at, b[..i])[at + i := b[i]]
  {}

  /** `compute_checksum`. */
  method ComputeChecksum(vhData: seq<byte>) returns (csum: int)
    requires |vhData| == VH_SIZE
    ensures csum == Checksum(vhData)
  {
    hide Get32, Put;
    var data := new byte[VH_SIZE](i requires 0 <= i < VH_SIZE => vhData[i]);
    assert data[..] == vhData;
    PackInto(data, 504, I32Field(0));
    assert I32Field(0) == Zeros(4);
    var total := 0;
    for i := 0 to 128
      invariant total == WordSum(data[..], i) % 0x1_0000_0000
    {
      total := (total + Get32(data[..], 4 * i)) % 0x1_0000_0000;
    }
    csum := (-total) % 0x1_0000_0000;
    NegMod(WordSum(data[..], 128));
    if csum >= 0x8000_0000 { csum := csum - 0x1_0000_0000; }
  }

  lemma NegMod(s: int)
    ensures (-(s % 0x1_0000_0000)) % 0x1_0000_0000 == (-s) % 0x1_0000_0000
  {}

  /** The fixed fields and the boot file name. */
  method PackFront(data: array<byte>, bootfile: string)
    requires data.Length == VH_SIZE && Filled(data[..], []) && Ascii(bootfile)
    modifies data
    ensures Filled(data[..], Front(bootfile))
  {
    hide Filled, Be32, Be16, Put;
    PackInto(data, 0, Be32(VHMAGIC));
    FillAt(old(data[..]), [], Be32(VHMAGIC));
    label L1:
    PackInto(data, 4, Be16(0));
    FillAt(old@L1(data[..]), [] + Be32(VHMAGIC), Be16(0));
    label L2:
    PackInto(data, 6, Be16(1));
    FillAt(old@L2(data[..]), [] + Be32(VHMAGIC) + Be16(0), Be16(1));
    var bf := Encode(bootfile)[..Min(|bootfile|, BFNAMESIZE)];
    ghost var fixed := [] + Be32(VHMAGIC) + Be16(0) + Be16(1);
    label L3:
    PackInto(data, 8, bf);
    FillAt(old@L3(data[..]), fixed, bf);
    FillGap(data[..], fixed + bf, 32 - |bf|);
    label L4:
    PackInto(data, 40, Be16(512));
    FillAt(old@L4(data[..]), fixed + bf + Zeros(32 - |bf|), Be16(512));
    FillGap(data[..], fixed + bf + Zeros(32 - |bf|) + Be16(512), 30);
    FrontIs(fixed, bf, bootfile);
  }

  lemma FrontIs(fixed: seq<byte>, bf: seq<byte>, bootfile: string)
    requires Ascii(bootfile) && fixed == [] + Be32(VHMAGIC) + Be16(0) + Be16(1)
    requires bf == Encode(bootfile)[..Min(|bootfile|, BFNAMESIZE)]
    ensures fixed + bf + Zeros(32 - |bf|) + Be16(512) + Zeros(30) == Front(bootfile)
  {
    hide Be32, Be16;
    assert Zeros(32 - |bf|) == Zeros(16 - |bf|) + Zeros(16);
    assert bf + Zeros(16 - |bf|) == NameField(bootfile, BFNAMESIZE);
  }

  method PackVd(data: array<byte>, off: nat, ghost before: seq<byte>, e: VdEntry)
    requires data.Length == VH_SIZE && Filled(data[..], before) && VdOk(e) && |before| == off <= VH_SIZE - 16
    modifies data
    ensures Filled(data[..], before + VdSlot(e))
  {
    hide Filled, Put, I32Field, Zeros;
    var name := Encode(e.name)[..Min(|e.name|, VDNAMESIZE)];
    PackInto(data, off, name);
    FillAt(old(data[..]), before, name);
    FillGap(data[..], before + name, 8 - |name|);
    var numbers := I32Field(e.lbn) + I32Field(e.nbytes);
    assert before + name + Zeros(8 - |name|) == before + NameField(e.name, VDNAMESIZE);
    label L:
    PackInto(data, off + 8, numbers);
    FillAt(old@L(data[..]), before + NameField(e.name, VDNAMESIZE), numbers);
    assert before + NameField(e.name, VDNAMESIZE) + numbers == before + VdSlot(e);
  }

  method PackDirectory(data: array<byte>, ghost before: seq<byte>, vd: seq<VdEntry>) returns (ok: bool)
    requires data.Length == VH_SIZE && Filled(data[..], before) && |before| == 72
    modifies data
    ensures ok == forall i :: 0 <= i < |vd| && i < NVDIR ==> VdOk(vd[i])
    ensures ok ==> Filled(data[..], before + VdTable(vd, NVDIR))
  {
    hide Filled, VdOk, VdSlot;
    var n := Min(|vd|, NVDIR);
    assert before == before + VdTable(vd[..0], 0);
    for i := 0 to n
      invariant forall j :: 0 <= j < i ==> VdOk(vd[j])
      invariant Filled(data[..], before + VdTable(vd[..i], i))
    {
      if !VdOk(vd[i]) { return false; }
      PackVd(data, 72 + 16 * i, before + VdTable(vd[..i], i), vd[i]);
      SameTable(vd[..i], vd[..i + 1], i);
      assert before + VdTable(vd[..i], i) + VdSlot(vd[i]) == before + VdTable(vd[..i + 1], i + 1);
    }
    SameTable(vd[..n], vd, n);
    if n < NVDIR {
      EmptySlots(vd, NVDIR);
      FillGap(data[..], before + VdTable(vd, n), 16 * (NVDIR - n));
      assert before + VdTable(vd, n) + Zeros(16 * (NVDIR - n)) == before + VdTable(vd, NVDIR);
    }
    return true;
  }

  lemma {:induction false} SameTable(a: seq<VdEntry>, b: seq<VdEntry>, n: nat)
    requires n <= NVDIR && n <= |a| && n <= |b| && a[..n] == b[..n]
    requires forall i :: 0 <= i < |a| && i < NVDIR ==> VdOk(a[i])
    requires forall i :: 0 <= i < |b| && i < NVDIR ==> VdOk(b[i])
    ensures VdTable(a, n) == VdTable(b, n)
  {
    hide VdOk, VdSlot;
    if n > 0 {
      assert a[..n - 1] == a[..n][..n - 1] && b[..n - 1] == b[..n][..n - 1];
      assert a[n - 1] == a[..n][n - 1] && b[n - 1] == b[..n][n - 1];
      SameTable(a, b, n - 1);
    }
  }

  method PackPartitions(data: array<byte>, ghost before: seq<byte>, pt: seq<PtEntry>) returns (ok: bool)
    requires data.Length == VH_SIZE && Filled(data[..], before) && |before| == 312
    modifies data
    ensures ok == forall i :: 0 <= i < |pt| && i < NPARTAB ==> PtOk(pt[i])
    ensures ok ==> Filled(data[..], before + PtTable(pt, NPARTAB))
  {
    hide Filled, PtOk, PtSlot, Put;
    var n := Min(|pt|, NPARTAB);
    assert before == before + PtTable(pt[..0], 0);
    for i := 0 to n
      invariant forall j :: 0 <= j < i ==> PtOk(pt[j])
      invariant Filled(data[..], before + PtTable(pt[..i], i))
    {
      if !PtOk(pt[i]) { return false; }
      FillAt(data[..], before + PtTable(pt[..i], i), PtSlot(pt[i]));
      PackInto(data, 312 + 12 * i, PtSlot(pt[i]));
      SameParts(pt[..i], pt[..i + 1], i);
      assert before + PtTable(pt[..i], i) + PtSlot(pt[i]) == before + PtTable(pt[..i + 1], i + 1);
    }
    SameParts(pt[..n], pt, n);
    if n < NPARTAB {
      EmptyParts(pt, NPARTAB);
      FillGap(data[..], before + PtTable(pt, n), 12 * (NPARTAB - n));
      assert before + PtTable(pt, n) + Zeros(12 * (NPARTAB - n)) == before + PtTable(pt, NPARTAB);
    }
    return true;
  }

  lemma {:induction false} SameParts(a: seq<PtEntry>, b: seq<PtEntry>, n: nat)
    requires n <= NPARTAB && n <= |a| && n <= |b| && a[..n] == b[..n]
    requires forall i :: 0 <= i < |a| && i < NPARTAB ==> PtOk(a[i])
    requires forall i :: 0 <= i < |b| && i < NPARTAB ==> PtOk(b[i])
    ensures PtTable(a, n) == PtTable(b, n)
  {
    hide PtOk, PtSlot;
    if n > 0 {
      assert a[..n - 1] == a[..n][..n - 1] && b[..n - 1] == b[..n][..n - 1];
      assert a[n - 1] == a[..n][n - 1] && b[n - 1] == b[..n][n - 1];
      SameParts(a, b, n - 1);
    }
  }

  lemma FilledEmpty(d: seq<byte>)
    requires d == Zeros(VH_SIZE)
    ensures Filled(d, [])
  {}

  lemma FilledIs(d: seq<byte>, prefix: seq<byte>)
    requires Filled(d, prefix)
    ensures d == prefix + Zeros(VH_SIZE - |prefix|)
  {}

  lemma PutChecksum(body: seq<byte>, b: seq<byte>)
    requires |body| == 504 && |b| == 4
    ensures Put(body + Zeros(8), 504, b) == body + b + Zeros(4)
  {}

  /** `build_vh`; None when a name is not ASCII or a number does not fit 32 bits, which raises. */
  method BuildVh(bootfile: string, vd: seq<VdEntry>, pt: seq<PtEntry>) returns (vh: Option<seq<byte>>)
    ensures vh == if InRange(bootfile, vd, pt) then Some(Header(bootfile, vd, pt)) else None
  {
    hide Ascii, VdOk, PtOk, Filled, Front, VdTable, PtTable, Checksum, Put, I32Field;
    var data := new byte[VH_SIZE](_ => 0);
    assert data[..] == Zeros(VH_SIZE);
    FilledEmpty(data[..]);
    if !Ascii(bootfile) { return None; }
    PackFront(data, bootfile);
    var ok := PackDirectory(data, Front(bootfile), vd);
    if !ok { return None; }
    ok := PackPartitions(data, Front(bootfile) + VdTable(vd, NVDIR), pt);
    if !ok { return None; }
    ghost var body := Body(bootfile, vd, pt);
    FilledIs(data[..], body);
    var csum := ComputeChecksum(data[..]);
    PackInto(data, 504, I32Field(csum));
    PutChecksum(body, I32Field(csum));
    return Some(data[..]);
  }

  /** `read_vh`. */
  method ReadHeader(d: seq<byte>) returns (vh: Option<VolHdr>)
    ensures vh == ReadVh(d)
  {
    hide ReadName, Get32, Get16, ReadI32, ReadVd, ReadPt;
    if |d| < VH_SIZE { return None; }
    if Get32(d, 0) != VHMAGIC { return None; }
    var vd: seq<VdEntry>, pt: seq<PtEntry> := [], [];
    for i := 0 to NVDIR
      invariant vd == ReadVds(d, i)
    {
      vd := vd + [ReadVd(d, 72 + 16 * i)];
    }
    for i := 0 to NPARTAB
      invariant pt == ReadPts(d, i)
    {
      pt := pt + [ReadPt(d, 312 + 12 * i)];
    }
    return Some(VolHdr(Sign16(Get16(d, 4)), Sign16(Get16(d, 6)), ReadName(d[8..24]), vd, pt, ReadI32(d, 504)));
  }
}
