/** Files in the volume-header partition: `cmd_create`, `cmd_extract` and `cmd_copy_vh` of create_boot_disk.py. */
module BootDisk {
  import opened Common
  import opened Bytes
  import opened Disk
  import opened VolumeHeader

  const PTYPE_VOLHDR := 0
  const PTYPE_VOLUME := 6
  const LABEL := "sgilabel"

  datatype File = File(name: string, data: seq<byte>)
  datatype Item = Item(name: string, lbn: nat, data: seq<byte>)

  // ---------------------------------------------------------------------- placement

  /** Files one after the other, each from a sector boundary, starting at sector `next`. */
  function Place(files: seq<File>, next: nat): (items: seq<Item>)
    ensures |items| == |files|
  {
    if files == [] then []
    else
      [Item(files[0].name, next, files[0].data)] + Place(files[1..], next + BlocksFor(|files[0].data|))
  }

  function NextLbn(files: seq<File>, next: nat): nat {
    if files == [] then next else NextLbn(files[1..], next + BlocksFor(|files[0].data|))
  }

  /** The sectors of an item lie between `lo` and `hi`. */
  predicate Within(it: Item, lo: nat, hi: nat) { lo <= it.lbn && it.lbn + BlocksFor(|it.data|) <= hi }

  ghost predicate Apart(items: seq<Item>) {
    forall i, j :: 0 <= i < j < |items| ==> items[i].lbn + BlocksFor(|items[i].data|) <= items[j].lbn
  }

  lemma {:induction false} PlaceItems(files: seq<File>, next: nat)
    ensures next <= NextLbn(files, next) && Apart(Place(files, next))
    ensures forall i :: 0 <= i < |files| ==>
              && Place(files, next)[i].name == files[i].name && Place(files, next)[i].data == files[i].data
              && Within(Place(files, next)[i], next, NextLbn(files, next))
    decreases |files|
  {
    hide BlocksFor;
    if files != [] {
      PlaceItems(files[1..], next + BlocksFor(|files[0].data|));
    }
  }

  function VhSectors(nextLbn: nat): nat { if nextLbn + 16 > 4096 then nextLbn + 16 else 4096 }

  /** No two files share a sector, and all lie in the volume-header partition, behind the header. */
  lemma FilesLieApart(files: seq<File>)
    ensures Apart(Place(files, 2))
    ensures forall i :: 0 <= i < |files| ==> Within(Place(files, 2)[i], 2, VhSectors(NextLbn(files, 2)) - 16)
  {
    hide BlocksFor;
    PlaceItems(files, 2);
  }

  // ---------------------------------------------------------------------- the image

  function Entry(it: Item): VdEntry { VdEntry(it.name, it.lbn, |it.data|) }

  function Directory(items: seq<Item>): (vd: seq<VdEntry>)
    ensures |vd| == |items| + 1
  {
    [VdEntry(LABEL, 0, VH_SIZE)] + seq(|items|, i requires 0 <= i < |items| => Entry(items[i]))
  }

  /** Partition 8 is the volume header, partition 10 the whole disk. */
  function Partitions(vhSectors: int, total: int): (pt: seq<PtEntry>)
    ensures |pt| == NPARTAB
  {
    seq(NPARTAB, i => NO_PART)[8 := PtEntry(vhSectors, 0, PTYPE_VOLHDR)][10 := PtEntry(total, 0, PTYPE_VOLUME)]
  }

  function Pad(data: seq<byte>): seq<byte> { if |data| % 512 == 0 then [] else Zeros(512 - |data| % 512) }

  function WriteItem(d: seq<byte>, it: Item): seq<byte> {
    WriteAt(d, it.lbn * 512, it.data + Pad(it.data))
  }

  function WriteItems(d: seq<byte>, items: seq<Item>): seq<byte> {
    if items == [] then d else WriteItem(WriteItems(d, items[..|items| - 1]), items[|items| - 1])
  }

  /** The header, the files, and a last byte that brings the image to its full size. */
  function Image(header: seq<byte>, items: seq<Item>, total: nat): seq<byte>
    requires total >= 1
  {
    WriteAt(WriteItems(WriteAt([], 0, header), items), total * 512 - 1, [0])
  }

  /** A read of `n` bytes from `at`; a negative count reads to the end. */
  function ReadAt(d: seq<byte>, at: nat, n: int): seq<byte> {
    if at >= |d| then [] else if n < 0 || at + n > |d| then d[at..] else d[at..at + n]
  }

  lemma PadFills(data: seq<byte>)
    ensures |data + Pad(data)| == BlocksFor(|data|) * 512
  {}

  lemma WriteItemPeek(d: seq<byte>, it: Item, k: nat)
    ensures Peek(WriteItem(d, it), k) ==
            if it.lbn * 512 <= k < (it.lbn + BlocksFor(|it.data|)) * 512 then (it.data + Pad(it.data))[k - it.lbn * 512]
            else Peek(d, k)
    ensures |WriteItem(d, it)| >= |d| && (it.data != [] ==> |WriteItem(d, it)| >= it.lbn * 512 + |it.data|)
  {
    hide WriteAt, Pad, BlocksFor;
    PadFills(it.data);
    WritePeek(d, it.lbn * 512, it.data + Pad(it.data), k);
  }

  predicate Covers(it: Item, k: nat) { it.lbn * 512 <= k < (it.lbn + BlocksFor(|it.data|)) * 512 }

  /** Bytes that no item covers stay as they were. */
  lemma {:induction false} OutsidePeek(d: seq<byte>, items: seq<Item>, k: nat)
    requires forall i :: 0 <= i < |items| ==> !Covers(items[i], k)
    ensures Peek(WriteItems(d, items), k) == Peek(d, k) && |WriteItems(d, items)| >= |d|
  {
    hide WriteItem, BlocksFor;
    if items != [] {
      OutsidePeek(d, items[..|items| - 1], k);
      WriteItemPeek(WriteItems(d, items[..|items| - 1]), items[|items| - 1], k);
    }
  }

  lemma {:induction false} ItemPeek(d: seq<byte>, items: seq<Item>, i: nat, k: nat)
    requires Apart(items) && i < |items| && k < |items[i].data|
    ensures Peek(WriteItems(d, items), items[i].lbn * 512 + k) == items[i].data[k]
    ensures |WriteItems(d, items)| >= items[i].lbn * 512 + |items[i].data|
  {
    hide WriteItem, BlocksFor, Pad;
    var n := |items| - 1;
    var at := items[i].lbn * 512 + k;
    var front := items[..n];
    WriteItemPeek(WriteItems(d, front), items[n], at);
    if i == n {
      PadFills(items[n].data);
    } else {
      SectorHolds(items[i], k);
      assert items[i].lbn + BlocksFor(|items[i].data|) <= items[n].lbn;
      ItemPeek(d, front, i, k);
    }
  }

  lemma SectorHolds(it: Item, k: nat)
    requires k < |it.data|
    ensures it.lbn * 512 + k < (it.lbn + BlocksFor(|it.data|)) * 512
  {}

  /** `data` with a zero at offset `k`, if that is inside. */
  function Blot(data: seq<byte>, k: int): (r: seq<byte>)
    ensures |r| == |data|
  {
    if 0 <= k < |data| then data[k := 0] else data
  }

  lemma BlotIntactIff(data: seq<byte>, k: int)
    ensures Blot(data, k) == data <==> Peek(data, k) == 0 || !(0 <= k < |data|)
  {
    if Blot(data, k) == data && 0 <= k < |data| { assert data[k] == Blot(data, k)[k]; }
  }

  lemma WriteGrows(d: seq<byte>, at: nat, b: seq<byte>)
    ensures |WriteAt(d, at, b)| >= |d| && (d == [] && at == 0 ==> |WriteAt(d, at, b)| == |b|)
  {}

  /** Reading a file's sectors from the image gives its bytes, but for the image's very last byte. */
  lemma {:induction false} ItemReads(header: seq<byte>, items: seq<Item>, total: nat, i: nat)
    requires total >= 1 && Apart(items) && i < |items|
    ensures var it := items[i];
            ReadAt(Image(header, items, total), it.lbn * 512, |it.data|)
            == Blot(it.data, total * 512 - 1 - it.lbn * 512)
  {
    hide WriteItems, WriteAt, Apart, BlocksFor;
    var it, start := items[i], WriteAt([], 0, header);
    var img := Image(header, items, total);
    if it.data != [] {
      ItemPeek(start, items, i, 0);
      WriteGrows(WriteItems(start, items), total * 512 - 1, [0]);
      var got, want := img[it.lbn * 512..it.lbn * 512 + |it.data|], Blot(it.data, total * 512 - 1 - it.lbn * 512);
      forall k | 0 <= k < |it.data| ensures got[k] == want[k] {
        ItemPeek(start, items, i, k);
        ImagePeek(start, items, total, it.lbn * 512 + k);
      }
    }
  }

  lemma ImagePeek(start: seq<byte>, items: seq<Item>, total: nat, at: nat)
    requires total >= 1
    ensures Peek(WriteAt(WriteItems(start, items), total * 512 - 1, [0]), at)
         == if at == total * 512 - 1 then 0 else Peek(WriteItems(start, items), at)
  {
    hide WriteItems, WriteAt;
    WritePeek(WriteItems(start, items), total * 512 - 1, [0], at);
  }

  /** The first sector of the image is the header. */
  lemma HeaderReads(header: seq<byte>, items: seq<Item>, total: nat)
    requires total >= 1 && |header| == VH_SIZE && header[511] == 0
    requires forall i :: 0 <= i < |items| ==> items[i].lbn >= 2
    ensures var img := Image(header, items, total); |img| >= VH_SIZE && img == header + img[VH_SIZE..]
  {
    hide WriteItems, WriteAt, BlocksFor;
    var start, img := WriteAt([], 0, header), Image(header, items, total);
    var w := WriteItems(start, items);
    OutsidePeek(start, items, 0);
    WriteGrows([], 0, header);
    WriteGrows(w, total * 512 - 1, [0]);
    forall k | 0 <= k < VH_SIZE ensures img[k] == header[k] {
      OutsidePeek(start, items, k);
      WritePeek(w, total * 512 - 1, [0], k);
      WritePeek([], 0, header, k);
    }
    assert img[..VH_SIZE] == header;
  }

  // ------------------------------------------------------------------------ extraction

  datatype Extracted = NoHeader | NotFound | BadSeek | Found(data: seq<byte>)

  function Find(vd: seq<VdEntry>, name: string): Option<VdEntry> {
    if vd == [] then None else if vd[0].name == name then Some(vd[0]) else Find(vd[1..], name)
  }

  /** `cmd_extract`: the bytes of the first directory entry with that name. */
  function Extract(d: seq<byte>, name: string): Extracted {
    match ReadVh(d)
    case None => NoHeader
    case Some(vh) =>
      match Find(vh.vd, name)
      case None => NotFound
      case Some(e) => if e.lbn < 0 then BadSeek else Found(ReadAt(d, e.lbn * 512, e.nbytes))
  }

  lemma {:induction false} FindFirst(vd: seq<VdEntry>, name: string, i: nat)
    requires i < |vd| && vd[i].name == name && forall j :: 0 <= j < i ==> vd[j].name != name
    ensures Find(vd, name) == Some(vd[i])
  {
    if i > 0 { FindFirst(vd[1..], name, i - 1); }
  }

  lemma {:induction false} FindNone(vd: seq<VdEntry>, name: string)
    requires forall j :: 0 <= j < |vd| ==> vd[j].name != name
    ensures Find(vd, name) == None
  {
    if vd != [] { FindNone(vd[1..], name); }
  }

  /** What extracting the first entry of a name gives: the bytes from its sector on, as many as it says and the disk
      has, or all of them when it says a negative number; a negative sector cannot be sought. */
  lemma {:induction false} ExtractIs(d: seq<byte>, name: string, i: nat)
    requires ReadVh(d).Some? && i < 15 && ReadVh(d).value.vd[i].name == name
    requires forall j :: 0 <= j < i ==> ReadVh(d).value.vd[j].name != name
    ensures var e, r := ReadVh(d).value.vd[i], Extract(d, name);
            if e.lbn < 0 then r == BadSeek
            else
              && r.Found?
              && (e.lbn * 512 >= |d| ==> r.data == [])
              && (e.lbn * 512 < |d| ==>
                    && |r.data| == (if 0 <= e.nbytes < |d| - e.lbn * 512 then e.nbytes else |d| - e.lbn * 512)
                    && forall k :: 0 <= k < |r.data| ==> r.data[k] == d[e.lbn * 512 + k])
  {
    hide ReadVds, ReadPts, ReadName, Get32, Get16;
    FindFirst(ReadVh(d).value.vd, name, i);
  }

  predicate Distinct(files: seq<File>) {
    forall i, j :: 0 <= i < j < |files| ==> files[i].name != files[j].name
  }

  /** Names that reach the directory whole. */
  predicate Storable(files: seq<File>) {
    forall i :: 0 <= i < |files| ==> Clean(files[i].name, VDNAMESIZE) && files[i].name != LABEL
  }

  function ImageOf(bootfile: string, items: seq<Item>, nextLbn: nat, total: nat): seq<byte>
    requires total >= 1 && InRange(bootfile, Directory(items), Partitions(VhSectors(nextLbn), total))
  {
    Image(Header(bootfile, Directory(items), Partitions(VhSectors(nextLbn), total)), items, total)
  }

  lemma DirectoryReads(bootfile: string, items: seq<Item>, nextLbn: nat, total: nat)
    requires total >= 1 && InRange(bootfile, Directory(items), Partitions(VhSectors(nextLbn), total))
    requires forall i :: 0 <= i < |items| ==> items[i].lbn >= 2
    ensures var r := ReadVh(ImageOf(bootfile, items, nextLbn, total));
            r.Some? && r.value.vd == KeptVds(Directory(items), NVDIR)
  {
    hide WriteItems, WriteAt, BlocksFor, Image, Body, ReadVh, KeptVds, Kept, Checksum, InRange;
    var vd, pt := Directory(items), Partitions(VhSectors(nextLbn), total);
    var h := Header(bootfile, vd, pt);
    HeaderReads(h, items, total);
    HeaderComesBack(bootfile, vd, pt, Image(h, items, total)[VH_SIZE..]);
  }

  /** The directory as it is read back: the label, up to 14 files, and empty slots. */
  lemma KeptDirectory(files: seq<File>, items: seq<Item>, j: nat)
    requires Storable(files) && |items| == |files| && j < NVDIR
    requires forall i :: 0 <= i < |files| ==> items[i].name == files[i].name
    ensures KeptVds(Directory(items), NVDIR)[j] ==
            if j == 0 then VdEntry(LABEL, 0, VH_SIZE) else if j <= |files| then Entry(items[j - 1]) else NO_FILE
  {
    hide Kept;
    if j == 0 {
      NameIntactIff(LABEL, VDNAMESIZE);
    } else if j <= |files| {
      NameIntactIff(files[j - 1].name, VDNAMESIZE);
    }
  }

  lemma {:induction false} FindPlaced(files: seq<File>, items: seq<Item>, i: nat)
    requires Distinct(files) && Storable(files) && |items| == |files| && i < |files|
    requires forall i :: 0 <= i < |files| ==> items[i].name == files[i].name
    ensures Find(KeptVds(Directory(items), NVDIR), files[i].name)
         == if i < NVDIR - 1 then Some(Entry(items[i])) else None
  {
    hide KeptVds, Directory, Find, Clean;
    var kept := KeptVds(Directory(items), NVDIR);
    forall j | 0 <= j < NVDIR ensures kept[j].name == files[i].name ==> j > i {
      KeptDirectory(files, items, j);
    }
    if i < NVDIR - 1 {
      KeptDirectory(files, items, i + 1);
      FindFirst(kept, files[i].name, i + 1);
    } else {
      FindNone(kept, files[i].name);
    }
  }

  /** What extracting the `i`-th file gives: its bytes, less a last byte that ended up at the very end of the
      image; only 14 files fit the directory beside the label, and the others are not found. */
  lemma {:induction false} ExtractPlaced(bootfile: string, files: seq<File>, total: nat, i: nat)
    requires Distinct(files) && Storable(files) && i < |files| && total >= 1
    requires InRange(bootfile, Directory(Place(files, 2)), Partitions(VhSectors(NextLbn(files, 2)), total))
    ensures var items := Place(files, 2);
            Extract(ImageOf(bootfile, items, NextLbn(files, 2), total), files[i].name)
            == if i < NVDIR - 1 then Found(Blot(files[i].data, total * 512 - 1 - items[i].lbn * 512)) else NotFound
  {
    hide Image, ReadVh, ReadAt, Place, NextLbn, BlocksFor, InRange, Clean, Blot, Find, KeptVds, Directory, Partitions;
    var items, next := Place(files, 2), NextLbn(files, 2);
    PlaceItems(files, 2);
    DirectoryReads(bootfile, items, next, total);
    FindPlaced(files, items, i);
    ItemReads(Header(bootfile, Directory(items), Partitions(VhSectors(next), total)), items, total, i);
  }

  /** A file comes back whole exactly when it is among the first 14 and the image's last byte, which is set to
      zero, is outside it or zero anyway. */
  lemma {:induction false} ExtractGivesTheFileIff(bootfile: string, files: seq<File>, total: nat, i: nat)
    requires Distinct(files) && Storable(files) && i < |files| && total >= 1
    requires InRange(bootfile, Directory(Place(files, 2)), Partitions(VhSectors(NextLbn(files, 2)), total))
    ensures var items := Place(files, 2); var last := total * 512 - 1 - items[i].lbn * 512;
            Extract(ImageOf(bootfile, items, NextLbn(files, 2), total), files[i].name) == Found(files[i].data)
            <==> i < NVDIR - 1 && (0 <= last < |files[i].data| ==> files[i].data[last] == 0)
  {
    hide Place, NextLbn, InRange, Directory, Partitions, Extract, ImageOf, VhSectors, Distinct, Storable, Blot;
    ExtractPlaced(bootfile, files, total, i);
    BlotIntactIff(files[i].data, total * 512 - 1 - Place(files, 2)[i].lbn * 512);
  }

  /** In particular whenever the volume-header partition fits on the disk and the files are at most 14. */
  lemma {:induction false} FittingDiskGivesEveryFile(bootfile: string, files: seq<File>, total: nat, i: nat)
    requires Distinct(files) && Storable(files) && i < |files| <= NVDIR - 1
    requires VhSectors(NextLbn(files, 2)) <= total
    requires InRange(bootfile, Directory(Place(files, 2)), Partitions(VhSectors(NextLbn(files, 2)), total))
    ensures Extract(ImageOf(bootfile, Place(files, 2), NextLbn(files, 2), total), files[i].name) == Found(files[i].data)
  {
    hide Place, NextLbn, InRange, Directory, Partitions, Extract, ImageOf, Distinct, Storable;
    PlaceItems(files, 2);
    assert Within(Place(files, 2)[i], 2, NextLbn(files, 2));
    ExtractGivesTheFileIff(bootfile, files, total, i);
  }

  // -------------------------------------------------------------- dictionaries in order

  /** `d[k] = v` on a dictionary that remembers the order in which keys were first set. */
  function Set<V>(d: seq<(string, V)>, k: string, v: V): seq<(string, V)> {
    if d == [] then [(k, v)] else if d[0].0 == k then [(k, v)] + d[1..] else [d[0]] + Set(d[1..], k, v)
  }

  function SetAll<V>(pairs: seq<(string, V)>): seq<(string, V)> {
    if pairs == [] then []
    else Set(SetAll(pairs[..|pairs| - 1]), pairs[|pairs| - 1].0, pairs[|pairs| - 1].1)
  }

  function Get<V>(d: seq<(string, V)>, k: string): Option<V> {
    if d == [] then None else if d[0].0 == k then Some(d[0].1) else Get(d[1..], k)
  }

  predicate DistinctKeys<V>(d: seq<(string, V)>) { forall i, j :: 0 <= i < j < |d| ==> d[i].0 != d[j].0 }

  lemma {:induction false} SetNew<V>(d: seq<(string, V)>, k: string, v: V)
    requires forall i :: 0 <= i < |d| ==> d[i].0 != k
    ensures Set(d, k, v) == d + [(k, v)]
  {
    if d != [] { SetNew(d[1..], k, v); }
  }

  /** Setting distinct keys keeps every pair, in order. */
  lemma {:induction false} SetAllDistinct<V>(pairs: seq<(string, V)>)
    requires DistinctKeys(pairs)
    ensures SetAll(pairs) == pairs
  {
    if pairs != [] {
      var n := |pairs| - 1;
      SetAllDistinct(pairs[..n]);
      SetNew(pairs[..n], pairs[n].0, pairs[n].1);
      assert pairs == pairs[..n] + [pairs[n]];
    }
  }

  lemma {:induction false} GetNth<V>(d: seq<(string, V)>, i: nat)
    requires DistinctKeys(d) && i < |d|
    ensures Get(d, d[i].0) == Some(d[i].1)
  {
    if i > 0 {
      assert d[0].0 != d[i].0;
      GetNth(d[1..], i - 1);
    }
  }

  lemma {:induction false} GetNone<V>(d: seq<(string, V)>, k: string)
    ensures Get(d, k).None? <==> forall i :: 0 <= i < |d| ==> d[i].0 != k
  {
    if d != [] {
      GetNone(d[1..], k);
      if forall i :: 0 <= i < |d| ==> d[i].0 != k {
        assert d[0].0 != k;
        forall i | 0 <= i < |d[1..]| ensures d[1..][i].0 != k { assert d[1..][i] == d[i + 1]; }
      } else if d[0].0 != k {
        var i :| 0 <= i < |d| && d[i].0 == k;
        assert d[1..][i - 1].0 == k;
      }
    }
  }

  // -------------------------------------------------------------------------- creating

  function Pairs(items: seq<Item>): (p: seq<(string, Item)>)
    ensures |p| == |items|
  {
    seq(|items|, i requires 0 <= i < |items| => (items[i].name, items[i]))
  }

  function Values(d: seq<(string, Item)>): (items: seq<Item>)
    ensures |items| == |d|
  {
    seq(|d|, i requires 0 <= i < |d| => d[i].1)
  }

  /** `cmd_create`; None when the header cannot be built, or the size leaves nothing to seek to. Of files given
      under the same name only the last is written. */
  function Created(files: seq<File>, sizeMb: int, bootfile: string): Option<seq<byte>> {
    var items, next, total := Place(files, 2), NextLbn(files, 2), sizeMb * 1024 * 1024 / 512;
    var vd, pt := Directory(items), Partitions(VhSectors(next), total);
    if !InRange(bootfile, vd, pt) || total < 1 then None
    else Some(Image(Header(bootfile, vd, pt), Values(SetAll(Pairs(items))), total))
  }

  lemma {:induction false} CreatedDistinct(files: seq<File>)
    requires Distinct(files)
    ensures Values(SetAll(Pairs(Place(files, 2)))) == Place(files, 2)
  {
    hide Place;
    PlaceItems(files, 2);
    SetAllDistinct(Pairs(Place(files, 2)));
  }

  // ------------------------------------------------------------------ what the header says

  /** The sectors that files take. */
  function Sectors(files: seq<File>): nat {
    if files == [] then 0 else BlocksFor(|files[0].data|) + Sectors(files[1..])
  }

  /** The header of a disk with these files: the boot file's name; a directory of the label and the first 14
      files, each placed behind the header and the files before it; and of the partitions only the volume header,
      long enough for every file, and the whole disk. */
  ghost predicate Describes(vh: VolHdr, files: seq<File>, sizeMb: int, bootfile: string) {
    && vh.rootpt == 0 && vh.swappt == 1 && vh.bootfile == Kept(bootfile, 16)
    && |vh.vd| == 15 && vh.vd[0] == VdEntry("sgilabel", 0, 512)
    && (forall i :: 0 <= i < |files| && i < 14 ==>
          vh.vd[i + 1] == VdEntry(Kept(files[i].name, 8), 2 + Sectors(files[..i]), |files[i].data|))
    && (forall i :: |files| < i < 15 ==> vh.vd[i] == VdEntry("", 0, 0))
    && |vh.pt| == 16
    && vh.pt[8] == PtEntry(if Sectors(files) + 18 > 4096 then Sectors(files) + 18 else 4096, 0, 0)
    && vh.pt[10] == PtEntry(sizeMb * 2048, 0, 6)
    && (forall i :: 0 <= i < 16 && i != 8 && i != 10 ==> vh.pt[i] == PtEntry(0, 0, 0))
  }

  lemma {:induction false} PlacedAt(files: seq<File>, next: nat, i: nat)
    requires i < |files|
    ensures Place(files, next)[i] == Item(files[i].name, next + Sectors(files[..i]), files[i].data)
    decreases |files|
  {
    hide BlocksFor;
    if i > 0 {
      PlacedAt(files[1..], next + BlocksFor(|files[0].data|), i - 1);
      assert files[..i][1..] == files[1..][..i - 1];
    }
  }

  lemma {:induction false} NextIs(files: seq<File>, next: nat)
    ensures NextLbn(files, next) == next + Sectors(files)
    decreases |files|
  {
    hide BlocksFor;
    if files != [] { NextIs(files[1..], next + BlocksFor(|files[0].data|)); }
  }

  lemma {:induction false} HeaderDescribes(vh: VolHdr, files: seq<File>, sizeMb: int, bootfile: string)
    requires vh.rootpt == 0 && vh.swappt == 1 && vh.bootfile == Kept(bootfile, BFNAMESIZE)
    requires vh.vd == KeptVds(Directory(Place(files, 2)), NVDIR)
    requires vh.pt == KeptPts(Partitions(VhSectors(NextLbn(files, 2)), sizeMb * 2048), NPARTAB)
    ensures Describes(vh, files, sizeMb, bootfile)
  {
    hide Kept, Place, NextLbn, BlocksFor, Sectors;
    NextIs(files, 2);
    NameIntactIff(LABEL, VDNAMESIZE);
    forall i | 0 <= i < |files| && i < 14
      ensures vh.vd[i + 1] == VdEntry(Kept(files[i].name, 8), 2 + Sectors(files[..i]), |files[i].data|)
    {
      PlacedAt(files, 2, i);
    }
  }

  lemma {:induction false} ImageDescribes(bootfile: string, files: seq<File>, sizeMb: int, written: seq<Item>)
    requires sizeMb >= 1 && forall i :: 0 <= i < |written| ==> written[i].lbn >= 2
    requires InRange(bootfile, Directory(Place(files, 2)), Partitions(VhSectors(NextLbn(files, 2)), sizeMb * 2048))
    ensures var h := Header(bootfile, Directory(Place(files, 2)),
                            Partitions(VhSectors(NextLbn(files, 2)), sizeMb * 2048));
            var r := ReadVh(Image(h, written, sizeMb * 2048));
            r.Some? && Describes(r.value, files, sizeMb, bootfile)
  {
    hide Place, NextLbn, Directory, Partitions, Describes, Image, Body, ReadVh, KeptVds, KeptPts, Kept, Checksum,
         InRange, VhSectors;
    var vd, pt := Directory(Place(files, 2)), Partitions(VhSectors(NextLbn(files, 2)), sizeMb * 2048);
    var h := Header(bootfile, vd, pt);
    HeaderReads(h, written, sizeMb * 2048);
    HeaderComesBack(bootfile, vd, pt, Image(h, written, sizeMb * 2048)[VH_SIZE..]);
    HeaderDescribes(ReadVh(Image(h, written, sizeMb * 2048)).value, files, sizeMb, bootfile);
  }

  lemma {:induction false} SetFrom<V>(d: seq<(string, V)>, k: string, v: V)
    ensures forall e :: e in Set(d, k, v) ==> e in d || e == (k, v)
  {
    if d != [] && d[0].0 != k { SetFrom(d[1..], k, v); }
  }

  /** A dictionary holds nothing but what was set. */
  lemma {:induction false} SetAllFrom<V>(pairs: seq<(string, V)>)
    ensures forall e :: e in SetAll(pairs) ==> e in pairs
  {
    if pairs != [] {
      var n := |pairs| - 1;
      SetAllFrom(pairs[..n]);
      SetFrom(SetAll(pairs[..n]), pairs[n].0, pairs[n].1);
    }
  }

  lemma {:induction false} WrittenBehindHeader(files: seq<File>, i: nat)
    requires i < |Values(SetAll(Pairs(Place(files, 2))))|
    ensures Values(SetAll(Pairs(Place(files, 2))))[i].lbn >= 2
  {
    hide Place;
    var items := Place(files, 2);
    PlaceItems(files, 2);
    SetAllFrom(Pairs(items));
    assert SetAll(Pairs(items))[i] in Pairs(items);
    var j :| 0 <= j < |items| && Pairs(items)[j] == SetAll(Pairs(items))[i];
    assert Within(items[j], 2, NextLbn(files, 2));
  }

  /** Whatever the files, their names and the boot file: a new disk has a header, and it describes them. */
  lemma {:induction false} CreatedHeader(files: seq<File>, sizeMb: int, bootfile: string)
    requires Created(files, sizeMb, bootfile).Some?
    ensures var r := ReadVh(Created(files, sizeMb, bootfile).value);
            r.Some? && Describes(r.value, files, sizeMb, bootfile)
  {
    hide Place, NextLbn, Directory, Partitions, Describes, Image, Header, ReadVh, InRange, SetAll, Pairs, VhSectors;
    assert sizeMb * 1024 * 1024 / 512 == sizeMb * 2048;
    var written := Values(SetAll(Pairs(Place(files, 2))));
    forall i | 0 <= i < |written| ensures written[i].lbn >= 2 { WrittenBehindHeader(files, i); }
    ImageDescribes(bootfile, files, sizeMb, written);
  }

  lemma PartitionsInRange(vhSectors: int, total: int)
    ensures (forall i :: 0 <= i < |Partitions(vhSectors, total)| && i < NPARTAB ==> PtOk(Partitions(vhSectors, total)[i]))
            <==> I32(vhSectors) && I32(total)
  {
    var pt := Partitions(vhSectors, total);
    assert pt[8] == PtEntry(vhSectors, 0, PTYPE_VOLHDR) && pt[10] == PtEntry(total, 0, PTYPE_VOLUME);
    if forall i :: 0 <= i < |pt| && i < NPARTAB ==> PtOk(pt[i]) { assert PtOk(pt[8]) && PtOk(pt[10]); }
  }

  lemma DirectoryInRange(items: seq<Item>)
    ensures (forall i :: 0 <= i < |Directory(items)| && i < NVDIR ==> VdOk(Directory(items)[i]))
            <==> forall i :: 0 <= i < |items| && i < 14 ==> VdOk(Entry(items[i]))
  {
    hide VdOk;
    var vd := Directory(items);
    LabelOk();
    if forall i :: 0 <= i < |vd| && i < NVDIR ==> VdOk(vd[i]) {
      forall i | 0 <= i < |items| && i < 14 ensures VdOk(Entry(items[i])) { assert VdOk(vd[i + 1]); }
    }
    if forall i :: 0 <= i < |items| && i < 14 ==> VdOk(Entry(items[i])) {
      forall i | 0 <= i < |vd| && i < NVDIR ensures VdOk(vd[i]) {
        if i > 0 { assert VdOk(Entry(items[i - 1])); }
      }
    }
  }

  lemma LabelOk()
    ensures VdOk(VdEntry(LABEL, 0, VH_SIZE))
  {}

  lemma {:induction false} SectorsBefore(files: seq<File>, i: nat)
    requires i <= |files|
    ensures Sectors(files[..i]) <= Sectors(files)
  {
    hide BlocksFor;
    if i > 0 {
      SectorsBefore(files[1..], i - 1);
      assert files[..i][1..] == files[1..][..i - 1];
    }
  }

  /** A disk is made exactly when it has a sector at all and everything its header says is ASCII and fits 32 bits. */
  lemma {:induction false} CreatedIff(files: seq<File>, sizeMb: int, bootfile: string)
    ensures Created(files, sizeMb, bootfile).Some? <==>
              && 1 <= sizeMb < 0x10_0000 && Sectors(files) + 18 < 0x8000_0000 && Ascii(bootfile)
              && forall i :: 0 <= i < |files| && i < 14 ==> Ascii(files[i].name) && |files[i].data| < 0x8000_0000
  {
    hide Place, NextLbn, Image, Header, SetAll, Pairs, BlocksFor, Sectors, Directory, Partitions, Ascii;
    assert sizeMb * 1024 * 1024 / 512 == sizeMb * 2048;
    var items, next := Place(files, 2), NextLbn(files, 2);
    NextIs(files, 2);
    PartitionsInRange(VhSectors(next), sizeMb * 2048);
    DirectoryInRange(items);
    forall i | 0 <= i < |files| && i < 14
      ensures Entry(items[i]) == VdEntry(files[i].name, 2 + Sectors(files[..i]), |files[i].data|)
      ensures Sectors(files[..i]) <= Sectors(files)
    {
      PlacedAt(files, 2, i);
      SectorsBefore(files, i);
    }
  }

  /** Files put on a new disk come back when extracted by name, each one whole. */
  lemma {:induction false} CreateThenExtract(files: seq<File>, sizeMb: int, bootfile: string, i: nat)
    requires Distinct(files) && Storable(files) && i < |files| <= NVDIR - 1
    requires VhSectors(NextLbn(files, 2)) <= sizeMb * 2048
    ensures Created(files, sizeMb, bootfile).None? <==>
              !InRange(bootfile, Directory(Place(files, 2)), Partitions(VhSectors(NextLbn(files, 2)), sizeMb * 2048))
    ensures Created(files, sizeMb, bootfile).Some? ==>
              Extract(Created(files, sizeMb, bootfile).value, files[i].name) == Found(files[i].data)
  {
    hide Place, NextLbn, InRange, Directory, Partitions, Extract, Image, Distinct, Storable, Header;
    CreatedDistinct(files);
    assert sizeMb * 1024 * 1024 / 512 == sizeMb * 2048;
    if Created(files, sizeMb, bootfile).Some? { FittingDiskGivesEveryFile(bootfile, files, sizeMb * 2048, i); }
  }
}
