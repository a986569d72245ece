/** EFS directory blocks: packing entries into 512-byte blocks and reading them back. */
module EfsDir {
  import opened Common
  import opened Bytes
  import opened Disk

  const HEADER_SIZE: nat := 4

  datatype Dirent = Dirent(ino: nat, name: string)

  /** What encoding with errors='replace' gives: a character outside ASCII becomes a question mark. */
  function Encode(s: string): (b: seq<byte>)
    ensures |b| == |s|
  {
    seq<byte>(|s|, i requires 0 <= i < |s| => if s[i] < 128 as char then s[i] as byte else 63)
  }

  function DentSize(nameLen: nat): (n: nat)
    ensures n % 2 == 0 && nameLen + 5 <= n <= nameLen + 6
  {
    (5 + nameLen + 1) / 2 * 2
  }

  function DentBytes(e: Dirent): nat { DentSize(|e.name|) }

  /** `struct.pack_into('>I')` and the one-byte name length raise outside these ranges. */
  predicate Packable(e: Dirent) { e.ino < 0x1_0000_0000 && |e.name| <= 255 }

  predicate AllPackable(es: seq<Dirent>) { forall i :: 0 <= i < |es| ==> Packable(es[i]) }

  function PackDent(e: Dirent): (b: seq<byte>)
    requires Packable(e)
    ensures |b| == DentBytes(e)
  {
    Be32(e.ino) + [|e.name| as byte] + Encode(e.name) + Zeros(DentBytes(e) - 5 - |e.name|)
  }

  /** Bytes an entry takes in a block: its slot byte and its packed form. */
  function Cost(e: Dirent): nat { 1 + DentBytes(e) }

  function Costs(es: seq<Dirent>): nat {
    if es == [] then 0 else Cost(es[0]) + Costs(es[1..])
  }

  predicate Fits(es: seq<Dirent>) { HEADER_SIZE + Costs(es) <= BLOCK_SIZE }

  lemma {:induction false} CostsConcat(a: seq<Dirent>, b: seq<Dirent>)
    ensures Costs(a + b) == Costs(a) + Costs(b)
  {
    if a == [] {
      assert a + b == b;
    } else {
      assert (a + b)[0] == a[0] && (a + b)[1..] == a[1..] + b;
      CostsConcat(a[1..], b);
    }
  }

  // ---------------------------------------------------------------- one block

  /** The entry area: entries packed downwards from the end of the block. */
  function Tail(es: seq<Dirent>): (b: seq<byte>)
    requires AllPackable(es)
    ensures |b| + |es| == Costs(es)
  {
    if es == [] then [] else Tail(es[1..]) + PackDent(es[0])
  }

  lemma {:induction false} TailConcat(a: seq<Dirent>, b: seq<Dirent>)
    requires AllPackable(a) && AllPackable(b)
    ensures Tail(a + b) == Tail(b) + Tail(a)
  {
    hide PackDent, Costs;
    if a == [] {
      assert a + b == b;
    } else {
      assert (a + b)[0] == a[0] && (a + b)[1..] == a[1..] + b;
      TailConcat(a[1..], b);
    }
  }

  /** Entries take 7 bytes or more with their slot, so at most 72 fit; entry areas have even length. */
  lemma {:induction false} CostsBound(es: seq<Dirent>)
    ensures 7 * |es| <= Costs(es) && (Costs(es) - |es|) % 2 == 0
  {
    if es != [] { CostsBound(es[1..]); }
  }

  /** Compacted offset (half the byte offset) of the last entry of `es`. */
  function Compacted(es: seq<Dirent>): (c: byte)
    requires Fits(es) && es != []
    ensures 2 * c as int == BLOCK_SIZE - (Costs(es) - |es|)
  {
    CostsBound(es);
    ((BLOCK_SIZE - (Costs(es) - |es|)) / 2) as byte
  }

  lemma FitsPrefix(es: seq<Dirent>, n: nat)
    requires n <= |es| && Fits(es)
    ensures Fits(es[..n]) && Costs(es) == Costs(es[..n]) + Costs(es[n..])
  {
    CostsConcat(es[..n], es[n..]);
    assert es == es[..n] + es[n..];
  }

  function Slots(es: seq<Dirent>): (b: seq<byte>)
    requires Fits(es)
    ensures |b| == |es|
  {
    seq<byte>(|es|, i requires 0 <= i < |es| => FitsPrefix(es, i + 1); Compacted(es[..i + 1]))
  }

  function Header(firstUsed: byte, slots: byte): (b: seq<byte>)
    ensures |b| == HEADER_SIZE
  {
    [0xBE, 0xEF, firstUsed, slots]
  }

  /** The layout of one block: header, slot table, free space, entries. */
  function Dirblk(es: seq<Dirent>): (b: seq<byte>)
    requires AllPackable(es) && Fits(es)
    ensures |b| == BLOCK_SIZE
  {
    CostsBound(es);
    Header(if es == [] then 0 else Compacted(es), |es| as byte) + Slots(es)
    + Zeros(BLOCK_SIZE - HEADER_SIZE - Costs(es)) + Tail(es)
  }

  /** Slice assignment `a[at:at + len(b)] = b`. */
  method CopyInto(a: array<byte>, at: nat, b: seq<byte>)
    requires at + |b| <= a.Length
    modifies a
    ensures a[..] == old(a[..at]) + b + old(a[at + |b|..])
  {
    forall k | 0 <= k < |b| { a[at + k] := b[k]; }
  }

  lemma SlotsPrefix(es: seq<Dirent>, n: nat)
    requires Fits(es) && n <= |es|
    ensures Fits(es[..n]) && Slots(es[..n]) == Slots(es)[..n]
  {
    FitsPrefix(es, n);
    forall k | 0 <= k < n
      ensures Slots(es[..n])[k] == Slots(es)[k]
    {
      FitsPrefix(es, k + 1);
      assert es[..n][..k + 1] == es[..k + 1];
    }
  }

  lemma CostsSnoc(es: seq<Dirent>, i: nat)
    requires i < |es|
    ensures Costs(es[..i + 1]) == Costs(es[..i]) + Cost(es[i])
  {
    assert es[..i + 1] == es[..i] + [es[i]];
    CostsConcat(es[..i], [es[i]]);
  }

  lemma TailSnoc(es: seq<Dirent>, i: nat)
    requires AllPackable(es) && i < |es|
    ensures Tail(es[..i + 1]) == PackDent(es[i]) + Tail(es[..i])
  {
    assert es[..i + 1] == es[..i] + [es[i]];
    TailConcat(es[..i], [es[i]]);
    hide PackDent;
    assert Tail([es[i]]) == PackDent(es[i]);
  }

  lemma NextEntry(es: seq<Dirent>, i: nat)
    requires AllPackable(es) && Fits(es) && i < |es|
    ensures Fits(es[..i]) && Fits(es[..i + 1])
    ensures Costs(es[..i + 1]) == Costs(es[..i]) + Cost(es[i])
    ensures Tail(es[..i + 1]) == PackDent(es[i]) + Tail(es[..i])
    ensures Slots(es[..i + 1]) == Slots(es[..i]) + [Compacted(es[..i + 1])]
  {
    hide Tail, PackDent, Costs, Fits;
    CostsSnoc(es, i);
    TailSnoc(es, i);
    SlotsPrefix(es, i);
    SlotsPrefix(es, i + 1);
    assert es[..i + 1][..i + 1] == es[..i + 1];
    assert Slots(es[..i + 1])[i] == Compacted(es[..i + 1][..i + 1]);
  }

  /** What the fill loop has built once the entries `es` are placed. */
  ghost predicate Filled(es: seq<Dirent>, writePos: nat, block: seq<byte>, slots: seq<byte>, firstUsed: byte) {
    && AllPackable(es) && Fits(es)
    && writePos + |Tail(es)| == |block| == BLOCK_SIZE
    && block == Zeros(writePos) + Tail(es)
    && slots == Slots(es)
    && firstUsed == if es == [] then 0 else Compacted(es)
  }

  lemma FillStep(es: seq<Dirent>, i: nat, writePos: nat, block: seq<byte>, slots: seq<byte>, firstUsed: byte)
    requires AllPackable(es) && Fits(es) && i < |es|
    requires Filled(es[..i], writePos, block, slots, firstUsed)
    ensures DentBytes(es[i]) <= writePos <= BLOCK_SIZE
    ensures var p := writePos - DentBytes(es[i]);
            var offset := (p / 2) as byte;
            Filled(es[..i + 1], p, block[..p] + PackDent(es[i]) + block[writePos..], slots + [offset],
                   if i == 0 || offset < firstUsed then offset else firstUsed)
  {
    hide Tail, PackDent, Costs, Slots;
    NextEntry(es, i);
    var p := writePos - DentBytes(es[i]);
    assert |es[..i + 1]| == i + 1 && p + |Tail(es[..i + 1])| == BLOCK_SIZE;
    assert (p / 2) as byte == Compacted(es[..i + 1]);
    assert block[writePos..] == Tail(es[..i]);
    assert block[..p] == Zeros(p);
  }

  lemma FillFinish(es: seq<Dirent>, writePos: nat, block: seq<byte>, slots: seq<byte>, firstUsed: byte)
    requires Filled(es, writePos, block, slots, firstUsed)
    ensures |es| < 256 && HEADER_SIZE + |slots| <= |block|
    ensures Header(firstUsed, |es| as byte) + slots + block[HEADER_SIZE + |slots|..] == Dirblk(es)
  {
    CostsBound(es);
    assert block[HEADER_SIZE + |slots|..] == Zeros(writePos - HEADER_SIZE - |slots|) + Tail(es);
  }

  lemma FillStart()
    ensures Filled([], BLOCK_SIZE, Zeros(BLOCK_SIZE), [], 0)
  {}

  /** `_efs_build_dirblk`: fills the block from its end while collecting the slot table. */
  method BuildDirblk(es: seq<Dirent>) returns (blk: seq<byte>)
    requires AllPackable(es) && Fits(es)
    ensures blk == Dirblk(es)
  {
    hide Filled, Fits, Tail, Costs, Slots, PackDent, Dirblk, Header, Compacted;
    var block := new byte[512](_ => 0);
    var writePos: nat, firstUsed := 512, 0;
    var slots: seq<byte> := [];
    FillStart();
    assert block[..] == Zeros(512);
    for i := 0 to |es|
      invariant Filled(es[..i], writePos, block[..], slots, firstUsed)
    {
      FillStep(es, i, writePos, block[..], slots, firstUsed);
      var entry := PackDent(es[i]);
      writePos := writePos - |entry|;
      CopyInto(block, writePos, entry);
      var offset := (writePos / 2) as byte;
      slots := slots + [offset];
      if i == 0 || offset < firstUsed { firstUsed := offset; }
    }
    assert es[..|es|] == es;
    FillFinish(es, writePos, block[..], slots, firstUsed);
    var header := Header(firstUsed, |es| as byte);
    ghost var filled := block[..];
    CopyInto(block, 0, header);
    CopyInto(block, |header|, slots);
    blk := block[..];
    assert blk == header + slots + filled[HEADER_SIZE + |slots|..];
  }

  // ------------------------------------------------------- reading one block

  datatype RawDirent = RawDirent(ino: nat, name: seq<byte>)

  function Raw(es: seq<Dirent>): (r: seq<RawDirent>)
    ensures |r| == |es|
  {
    seq(|es|, i requires 0 <= i < |es| => RawDirent(es[i].ino, Encode(es[i].name)))
  }

  /** The entry whose compacted offset is `slot`. */
  function ReadDent(blk: seq<byte>, slot: byte): Option<RawDirent>
    requires |blk| == BLOCK_SIZE
  {
    var at := 2 * slot as int;
    if at + 5 > BLOCK_SIZE || at + 5 + blk[at + 4] as int > BLOCK_SIZE then None
    else Some(RawDirent(Get32(blk, at), blk[at + 5..][..blk[at + 4]]))
  }

  function ReadSlots(blk: seq<byte>, n: nat): Option<seq<RawDirent>>
    requires |blk| == BLOCK_SIZE && HEADER_SIZE + n <= BLOCK_SIZE
  {
    if n == 0 then Some([]) else
      var init, last := ReadSlots(blk, n - 1), ReadDent(blk, blk[HEADER_SIZE + n - 1]);
      if init.None? || last.None? then None else Some(init.value + [last.value])
  }

  /** Reads every slot of a directory block, as the block layout prescribes. */
  function ReadDirblk(blk: seq<byte>): Option<seq<RawDirent>>
    requires |blk| == BLOCK_SIZE
  {
    if Get16(blk, 0) != 0xBEEF || HEADER_SIZE + blk[3] as int > BLOCK_SIZE then None
    else ReadSlots(blk, blk[3] as int)
  }

  /** The slot table ends before the first entry begins, and compaction loses no offset. */
  lemma SlotsLeaveRoom(es: seq<Dirent>)
    requires AllPackable(es) && Fits(es)
    ensures HEADER_SIZE + |Slots(es)| + |Tail(es)| <= BLOCK_SIZE && |es| < 256
    ensures es != [] ==> HEADER_SIZE + |es| <= 2 * Compacted(es) as int == BLOCK_SIZE - |Tail(es)|
  {
    CostsBound(es);
  }

  lemma PackedDentReads(b: seq<byte>, at: nat, e: Dirent)
    requires Packable(e) && HasField(b, at, PackDent(e))
    ensures Get32(b, at) == e.ino && b[at + 4] as int == |e.name|
    ensures b[at + 5..][..|e.name|] == Encode(e.name)
  {
    var p := PackDent(e);
    assert p[..4] == Be32(e.ino) && p[5..][..|e.name|] == Encode(e.name);
    assert b[at..at + 4] == b[at..at + |p|][..4];
    Get32Be32(b, at, e.ino);
    assert b[at + 4] == b[at..at + |p|][4];
    assert b[at + 5..][..|e.name|] == b[at..at + |p|][5..][..|e.name|];
  }

  /** The entry area of the first `i + 1` entries ends the block. */
  lemma EntryPlace(es: seq<Dirent>, i: nat)
    requires AllPackable(es) && Fits(es) && i < |es|
    ensures Fits(es[..i + 1])
    ensures HasField(Dirblk(es), 2 * Compacted(es[..i + 1]) as nat, PackDent(es[i]))
    ensures Dirblk(es)[HEADER_SIZE + i] == Compacted(es[..i + 1])
  {
    hide PackDent, Costs, Tail;
    NextEntry(es, i);
    FitsPrefix(es, i + 1);
    TailConcat(es[..i + 1], es[i + 1..]);
    assert es == es[..i + 1] + es[i + 1..];
    var blk, at := Dirblk(es), 2 * Compacted(es[..i + 1]) as int;
    assert blk[HEADER_SIZE + i] == Slots(es)[i];
    assert blk[BLOCK_SIZE - |Tail(es)|..] == Tail(es);
    assert blk[at..] == Tail(es[..i + 1]);
    assert blk[at..at + |PackDent(es[i])|] == blk[at..][..|PackDent(es[i])|];
  }

  lemma EntryReads(es: seq<Dirent>, i: nat)
    requires AllPackable(es) && Fits(es) && i < |es|
    ensures ReadDent(Dirblk(es), Dirblk(es)[HEADER_SIZE + i]) == Some(Raw(es)[i])
  {
    hide PackDent, Dirblk;
    EntryPlace(es, i);
    PackedDentReads(Dirblk(es), 2 * Compacted(es[..i + 1]) as int, es[i]);
  }

  lemma {:induction false} SlotsRead(es: seq<Dirent>, n: nat)
    requires AllPackable(es) && Fits(es) && n <= |es| <= BLOCK_SIZE - HEADER_SIZE
    ensures ReadSlots(Dirblk(es), n) == Some(Raw(es)[..n])
  {
    hide Dirblk, ReadDent, Costs, Fits, Raw;
    if n == 0 {
      assert Raw(es)[..n] == [];
    } else {
      SlotsRead(es, n - 1);
      EntryReads(es, n - 1);
      assert Raw(es)[..n] == Raw(es)[..n - 1] + [Raw(es)[n - 1]];
    }
  }

  lemma HeaderReads(h: seq<byte>, rest: seq<byte>)
    requires |h| == HEADER_SIZE
    ensures forall i :: 0 <= i < HEADER_SIZE ==> (h + rest)[i] == h[i]
  {}

  lemma DirblkHeader(es: seq<Dirent>)
    requires AllPackable(es) && Fits(es)
    ensures |es| < 256 && Get16(Dirblk(es), 0) == 0xBEEF && Dirblk(es)[3] == |es| as byte
  {
    hide Tail, Slots, Costs;
    SlotsLeaveRoom(es);
    var h := Header(if es == [] then 0 else Compacted(es), |es| as byte);
    var rest := Slots(es) + Zeros(BLOCK_SIZE - HEADER_SIZE - Costs(es)) + Tail(es);
    assert Dirblk(es) == h + rest;
    hide Dirblk;
    HeaderReads(h, rest);
  }

  /** Round trip of one block: reading every slot gives the entries back, in order. */
  lemma DirblkRoundTrip(es: seq<Dirent>)
    requires AllPackable(es) && Fits(es)
    ensures ReadDirblk(Dirblk(es)) == Some(Raw(es))
  {
    hide Dirblk, Tail, Slots, Costs, ReadSlots, Raw, Get16;
    SlotsLeaveRoom(es);
    DirblkHeader(es);
    SlotsRead(es, |es|);
    assert Raw(es)[..|es|] == Raw(es);
  }

  // ------------------------------------------------------------ where the bytes stand

  /** The offset of entry `i`: entries go from the end of the block downwards. */
  function EntryOffset(es: seq<Dirent>, i: nat): int
    requires i < |es|
  {
    (if i == 0 then 512 else EntryOffset(es, i - 1)) - (|es[i].name| + 6) / 2 * 2
  }

  lemma {:induction false} OffsetIs(es: seq<Dirent>, i: nat)
    requires AllPackable(es) && Fits(es) && i < |es|
    ensures Fits(es[..i + 1]) && 2 * Compacted(es[..i + 1]) as int == EntryOffset(es, i)
  {
    hide Tail, Costs, PackDent;
    NextEntry(es, i);
    if i == 0 {
      assert es[..0] == [];
      NoCosts();
    } else {
      OffsetIs(es, i - 1);
    }
  }

  lemma NoCosts()
    ensures Costs([]) == 0
  {}

  /** The bytes of a directory block: magic, half the offset of the entry that starts first, the number of entries,
      half the offset of each; and at its offset each entry's inode number, name length and name. */
  lemma {:induction false} DirblkOnDisk(es: seq<Dirent>, i: nat)
    requires AllPackable(es) && Fits(es) && i < |es| < 256
    ensures var b, at := Dirblk(es), EntryOffset(es, i);
            && b[0] == 0xBE && b[1] == 0xEF && 2 * b[2] as int == EntryOffset(es, |es| - 1) && b[3] as int == |es|
            && 2 * b[4 + i] as int == at && 4 + |es| <= EntryOffset(es, |es| - 1) <= at
            && at + 5 + |es[i].name| <= 512
            && Get32(b, at) == es[i].ino && b[at + 4] as int == |es[i].name|
            && forall k :: 0 <= k < |es[i].name| ==>
                 b[at + 5 + k] as int == if es[i].name[k] as int < 128 then es[i].name[k] as int else '?' as int
  {
    hide PackDent, Tail, Slots, Costs, Fits, Compacted, EntryOffset, Dirblk;
    var b, at := Dirblk(es), EntryOffset(es, i);
    OffsetIs(es, i);
    OffsetIs(es, |es| - 1);
    assert es[..|es|] == es;
    SlotsLeaveRoom(es);
    EntryPlace(es, i);
    PackedDentReads(b, at, es[i]);
    HeaderBytes(es);
    OffsetsFall(es, i, |es| - 1);
    forall k | 0 <= k < |es[i].name|
      ensures b[at + 5 + k] as int == if es[i].name[k] as int < 128 then es[i].name[k] as int else '?' as int
    {
      assert b[at + 5 + k] == b[at + 5..][..|es[i].name|][k];
    }
  }

  lemma {:induction false} OffsetsFall(es: seq<Dirent>, i: nat, j: nat)
    requires i <= j < |es|
    ensures EntryOffset(es, j) <= EntryOffset(es, i)
  {
    if i < j { OffsetsFall(es, i, j - 1); }
  }

  lemma HeaderBytes(es: seq<Dirent>)
    requires AllPackable(es) && Fits(es) && 0 < |es| < 256
    ensures Dirblk(es)[..4] == [0xBE, 0xEF, Compacted(es), |es| as byte]
  {
    hide Tail, Slots, Costs, Fits, Compacted;
  }

  /** Entries fit a block exactly when the last of them starts behind the slot table. */
  lemma {:induction false} FitIff(es: seq<Dirent>)
    requires es != []
    ensures Fits(es) <==> EntryOffset(es, |es| - 1) >= 4 + |es|
  {
    hide Costs, EntryOffset;
    OffsetOf(es, |es| - 1);
    assert es[..|es|] == es;
  }

  lemma {:induction false} OffsetOf(es: seq<Dirent>, i: nat)
    requires i < |es|
    ensures EntryOffset(es, i) == 512 - (Costs(es[..i + 1]) - (i + 1))
  {
    hide Costs;
    CostsSnoc(es, i);
    if i == 0 {
      assert es[..0] == [];
      NoCosts();
    } else {
      OffsetOf(es, i - 1);
    }
  }
}
