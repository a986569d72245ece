/** The commands of create_boot_disk.py as they run: dictionaries filled in loops, images written by seeking. */
module BootDiskTool {
  import opened Common
  import opened Bytes
  import opened Disk
  import opened VolumeHeader
  import opened VolumeHeaderBuild
  import opened BootDisk
  import opened CopyVh

  lemma {:induction false} PlaceSnoc(files: seq<File>, f: File, next: nat)
    ensures Place(files + [f], next) == Place(files, next) + [Item(f.name, NextLbn(files, next), f.data)]
    ensures NextLbn(files + [f], next) == NextLbn(files, next) + BlocksFor(|f.data|)
    decreases |files|
  {
    hide BlocksFor;
    if files == [] {
      assert [f][1..] == [];
    } else {
      assert (files + [f])[1..] == files[1..] + [f];
      PlaceSnoc(files[1..], f, next + BlocksFor(|files[0].data|));
    }
  }

  /** Writes a file at its sector and pads it to a sector boundary. */
  method WriteFile(f: DiskFile, it: Item)
    modifies f
    ensures f.data == WriteItem(old(f.data), it)
  {
    hide WriteAt;
    f.Seek(it.lbn * 512);
    f.Write(it.data);
    var remainder := |it.data| % 512;
    if remainder != 0 {
      f.Write(Zeros(512 - remainder));
      WriteConcat(old(f.data), it.lbn * 512, it.data, Zeros(512 - remainder));
    } else {
      assert it.data + [] == it.data;
    }
  }

  method WriteFiles(f: DiskFile, items: seq<Item>)
    modifies f
    ensures f.data == WriteItems(old(f.data), items)
  {
    hide WriteItem;
    for i := 0 to |items|
      invariant f.data == WriteItems(old(f.data), items[..i])
    {
      WriteFile(f, items[i]);
      assert items[..i + 1][..i] == items[..i];
    }
    assert items[..|items|] == items;
  }

  /** The end of `cmd_create` and of `cmd_copy_vh`; None when seeking before the start raises. */
  method WriteImage(header: seq<byte>, items: seq<Item>, total: int) returns (image: Option<seq<byte>>)
    requires |header| == VH_SIZE
    ensures image == if total < 1 then None else Some(Image(header, items, total))
  {
    hide WriteAt, WriteItems;
    var f := new DiskFile();
    f.Write(header);
    f.Write(Zeros(512 - |header|));
    assert f.data == WriteAt([], 0, header) by {
      WriteConcat([], 0, header, []);
      assert header + [] == header;
      assert Zeros(0) == [];
    }
    WriteFiles(f, items);
    if total * 512 - 1 < 0 { return None; }
    f.Seek(total * 512 - 1);
    f.Write([0]);
    return Some(f.data);
  }

  method Volume(vhSectors: int, total: int) returns (pt: seq<PtEntry>)
    ensures pt == Partitions(vhSectors, total)
  {
    pt := seq(NPARTAB, i => NO_PART);
    pt := pt[8 := PtEntry(vhSectors, 0, PTYPE_VOLHDR)];
    pt := pt[10 := PtEntry(total, 0, PTYPE_VOLUME)];
  }

  lemma NothingPlaced()
    ensures Place([], 2) == [] && NextLbn([], 2) == 2 && SetAll(Pairs([])) == [] && SetAll(Locations([])) == []
  {}

  /** `cmd_create`. */
  method Create(files: seq<File>, sizeMb: int, bootfile: string) returns (image: Option<seq<byte>>)
    ensures image == Created(files, sizeMb, bootfile)
  {
    hide InRange, Header, Image, Set, SetAll, Place, NextLbn, BlocksFor, Partitions;
    var total := sizeMb * 1024 * 1024 / 512;
    var next: nat := 2;
    var vd := [VdEntry(LABEL, 0, VH_SIZE)];
    var fileData: seq<(string, Item)> := [];
    NothingPlaced();
    for i := 0 to |files|
      invariant next == NextLbn(files[..i], 2) && vd == Directory(Place(files[..i], 2))
      invariant fileData == SetAll(Pairs(Place(files[..i], 2)))
    {
      var f := files[i];
      var it := Item(f.name, next, f.data);
      assert files[..i + 1] == files[..i] + [f];
      PlaceSnoc(files[..i], f, 2);
      PairsSnoc(Place(files[..i], 2), it);
      vd := vd + [Entry(it)];
      fileData := Set(fileData, f.name, it);
      next := next + BlocksFor(|f.data|);
    }
    assert files[..|files|] == files;
    var vhSectors := 4096;
    if next + 16 > vhSectors { vhSectors := next + 16; }
    var pt := Volume(vhSectors, total);
    var header := BuildVh(bootfile, vd, pt);
    if header.None? { return None; }
    image := WriteImage(header.value, Values(fileData), total);
  }

  lemma PairsSnoc(items: seq<Item>, it: Item)
    ensures SetAll(Pairs(items + [it])) == Set(SetAll(Pairs(items)), it.name, it)
    ensures Directory(items + [it]) == Directory(items) + [Entry(it)]
  {
    hide Set;
    assert Pairs(items + [it])[..|items|] == Pairs(items);
  }

  /** `cmd_extract`. */
  method ExtractFile(d: seq<byte>, name: string) returns (r: Extracted)
    ensures r == Extract(d, name)
  {
    hide ReadVh;
    var vh := ReadHeader(d);
    if vh.None? { return NoHeader; }
    var vd := vh.value.vd;
    var i := 0;
    assert vd[0..] == vd;
    while i < |vd|
      invariant i <= |vd| && Find(vd[i..], name) == Find(vd, name)
    {
      if vd[i].name == name {
        if vd[i].lbn < 0 { return BadSeek; }
        return Found(ReadAt(d, vd[i].lbn * 512, vd[i].nbytes));
      }
      assert vd[i..][1..] == vd[i + 1..];
      i := i + 1;
    }
    return NotFound;
  }

  /** The files `cmd_copy_vh` reads from the source. */
  method ReadFiles(src: seq<byte>, vd: seq<VdEntry>) returns (fileData: seq<(string, seq<byte>)>)
    ensures fileData == FileData(src, vd)
  {
    hide Set, Content;
    fileData := [];
    for i := 0 to |vd|
      invariant fileData == FileData(src, vd[..i])
    {
      assert vd[..i + 1][..i] == vd[..i];
      if vd[i].name != "" && vd[i].nbytes > 0 && vd[i].lbn > 0 {
        fileData := Set(fileData, vd[i].name, Content(src, vd[i]));
      }
    }
    assert vd[..|vd|] == vd;
  }

  /** Where they go in the copy. */
  method PlaceFiles(vd: seq<VdEntry>, fd: seq<(string, seq<byte>)>)
    returns (entries: seq<VdEntry>, loc: seq<(string, nat)>, next: nat)
    ensures var items := Place(ChosenFiles(vd, fd), 2);
            entries == Directory(items) && loc == SetAll(Locations(items)) && next == NextLbn(ChosenFiles(vd, fd), 2)
  {
    hide Set, SetAll, Place, NextLbn, BlocksFor, Get;
    entries, loc, next := [VdEntry(LABEL, 0, VH_SIZE)], [], 2;
    NothingPlaced();
    for i := 0 to |vd|
      invariant entries == Directory(Place(ChosenFiles(vd[..i], fd), 2))
      invariant loc == SetAll(Locations(Place(ChosenFiles(vd[..i], fd), 2)))
      invariant next == NextLbn(ChosenFiles(vd[..i], fd), 2)
    {
      assert vd[..i + 1][..i] == vd[..i];
      if vd[i].name != "" && vd[i].name != LABEL && Get(fd, vd[i].name).Some? {
        var f := File(vd[i].name, Get(fd, vd[i].name).value);
        var it := Item(f.name, next, f.data);
        PlaceSnoc(ChosenFiles(vd[..i], fd), f, 2);
        PairsSnoc(Place(ChosenFiles(vd[..i], fd), 2), it);
        LocationsSnoc(Place(ChosenFiles(vd[..i], fd), 2), it);
        entries := entries + [Entry(it)];
        loc := Set(loc, f.name, next);
        next := next + BlocksFor(|f.data|);
      } else {
        assert ChosenFiles(vd[..i], fd) + [] == ChosenFiles(vd[..i], fd);
      }
    }
    assert vd[..|vd|] == vd;
  }

  lemma LocationsSnoc(items: seq<Item>, it: Item)
    ensures SetAll(Locations(items + [it])) == Set(SetAll(Locations(items)), it.name, it.lbn)
  {
    hide Set;
    assert Locations(items + [it])[..|items|] == Locations(items);
  }

  /** The items `cmd_copy_vh` writes. */
  method ChooseWritten(fd: seq<(string, seq<byte>)>, loc: seq<(string, nat)>) returns (items: seq<Item>)
    ensures items == Written(fd, loc)
  {
    hide Get;
    items := [];
    for i := 0 to |fd|
      invariant items == Written(fd[..i], loc)
    {
      assert fd[..i + 1][..i] == fd[..i];
      var at := Get(loc, fd[i].0);
      if at.Some? { items := items + [Item(fd[i].0, at.value, fd[i].1)]; }
    }
    assert fd[..|fd|] == fd;
  }

  /** `cmd_copy_vh`. */
  method CopyHeader(src: seq<byte>, sizeMb: int) returns (r: Copy)
    ensures r == Copied(src, sizeMb)
  {
    hide InRange, Header, Image, SetAll, Place, NextLbn, Partitions, ReadVh, FileData, ChosenFiles, Written, Locations,
         Directory;
    var vh := ReadHeader(src);
    if vh.None? { return NoSource; }
    var fd := ReadFiles(src, vh.value.vd);
    var total := sizeMb * 1024 * 1024 / 512;
    var entries, loc, next := PlaceFiles(vh.value.vd, fd);
    var vhSectors := if next + 16 > 4096 then next + 16 else 4096;
    var pt := Volume(vhSectors, total);
    var header := BuildVh(vh.value.bootfile, entries, pt);
    if header.None? { return Raises; }
    var items := ChooseWritten(fd, loc);
    var image := WriteImage(header.value, items, total);
    return if image.None? then Raises else Made(image.value);
  }
}
