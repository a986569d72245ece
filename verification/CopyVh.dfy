/** Copying a volume header and its files to a new image: `cmd_copy_vh` of create_boot_disk.py. */
module CopyVh {
  import opened Common
  import opened Bytes
  import opened Disk
  import opened VolumeHeader
  import opened BootDisk

  /** Entries whose bytes are read from the source. */
  predicate Wanted(e: VdEntry) { e.name != "" && e.nbytes > 0 && e.lbn > 0 }

  function Content(src: seq<byte>, e: VdEntry): seq<byte>
    requires Wanted(e)
  {
    ReadAt(src, e.lbn * 512, e.nbytes)
  }

  /** `file_data`: what was read, by name. */
  function FileData(src: seq<byte>, vd: seq<VdEntry>): seq<(string, seq<byte>)> {
    if vd == [] then []
    else
      var d, e := FileData(src, vd[..|vd| - 1]), vd[|vd| - 1];
      if Wanted(e) then Set(d, e.name, Content(src, e)) else d
  }

  predicate Chosen(e: VdEntry, fd: seq<(string, seq<byte>)>) {
    e.name != "" && e.name != LABEL && Get(fd, e.name).Some?
  }

  /** The files placed in the new directory. */
  function ChosenFiles(vd: seq<VdEntry>, fd: seq<(string, seq<byte>)>): seq<File> {
    if vd == [] then []
    else
      var e := vd[|vd| - 1];
      ChosenFiles(vd[..|vd| - 1], fd) + if Chosen(e, fd) then [File(e.name, Get(fd, e.name).value)] else []
  }

  function Locations(items: seq<Item>): (p: seq<(string, nat)>)
    ensures |p| == |items|
  {
    seq(|items|, i requires 0 <= i < |items| => (items[i].name, items[i].lbn))
  }

  /** What is written: each file read, at the last place given to its name. */
  function Written(fd: seq<(string, seq<byte>)>, loc: seq<(string, nat)>): seq<Item> {
    if fd == [] then []
    else
      var f := fd[|fd| - 1];
      Written(fd[..|fd| - 1], loc)
      + if Get(loc, f.0).Some? then [Item(f.0, Get(loc, f.0).value, f.1)] else []
  }

  datatype Copy = NoSource | Raises | Made(image: seq<byte>)

  /** `cmd_copy_vh`. */
  function Copied(src: seq<byte>, sizeMb: int): Copy {
    match ReadVh(src)
    case None => NoSource
    case Some(vh) =>
      var fd := FileData(src, vh.vd);
      var files := ChosenFiles(vh.vd, fd);
      var items, next, total := Place(files, 2), NextLbn(files, 2), sizeMb * 1024 * 1024 / 512;
      var vd, pt := Directory(items), Partitions(VhSectors(next), total);
      if !InRange(vh.bootfile, vd, pt) || total < 1 then Raises
      else Made(Image(Header(vh.bootfile, vd, pt), Written(fd, SetAll(Locations(items))), total))
  }

  // ------------------------------------------------------- when the names are distinct

  predicate DistinctNames(vd: seq<VdEntry>) {
    forall i, j :: 0 <= i < j < |vd| && vd[i].name != "" ==> vd[i].name != vd[j].name
  }

  /** The files read from the source, in directory order. */
  function Stored(src: seq<byte>, vd: seq<VdEntry>): seq<File> {
    if vd == [] then []
    else
      var e := vd[|vd| - 1];
      Stored(src, vd[..|vd| - 1]) + if Wanted(e) then [File(e.name, Content(src, e))] else []
  }

  function Unlabelled(files: seq<File>): seq<File> {
    if files == [] then []
    else
      var f := files[|files| - 1];
      Unlabelled(files[..|files| - 1]) + if f.name != LABEL then [f] else []
  }

  function FilePairs(files: seq<File>): (p: seq<(string, seq<byte>)>)
    ensures |p| == |files|
  {
    seq(|files|, i requires 0 <= i < |files| => (files[i].name, files[i].data))
  }

  ghost predicate FromEntry(f: File, vd: seq<VdEntry>) {
    exists j :: 0 <= j < |vd| && Wanted(vd[j]) && f.name == vd[j].name
  }

  lemma FromNth(f: File, vd: seq<VdEntry>, j: nat)
    requires j < |vd| && Wanted(vd[j]) && f.name == vd[j].name
    ensures FromEntry(f, vd)
  {}

  lemma FromFront(f: File, vd: seq<VdEntry>, n: nat)
    requires n <= |vd| && FromEntry(f, vd[..n])
    ensures FromEntry(f, vd)
    ensures DistinctNames(vd) && n < |vd| && Wanted(vd[n]) ==> f.name != vd[n].name
  {
    var j :| 0 <= j < |vd[..n]| && Wanted(vd[..n][j]) && f.name == vd[..n][j].name;
    assert Wanted(vd[j]) && vd[j].name != "";
  }

  /** Every stored file is that of some wanted entry, and of one entry only. */
  lemma {:induction false} StoredNames(src: seq<byte>, vd: seq<VdEntry>)
    requires DistinctNames(vd)
    ensures Distinct(Stored(src, vd)) && |Stored(src, vd)| <= |vd|
    ensures forall i :: 0 <= i < |Stored(src, vd)| ==> FromEntry(Stored(src, vd)[i], vd)
  {
    hide Wanted, Content, FromEntry;
    if vd != [] {
      var n := |vd| - 1;
      var front := Stored(src, vd[..n]);
      StoredNames(src, vd[..n]);
      forall i | 0 <= i < |front|
        ensures FromEntry(front[i], vd) && (Wanted(vd[n]) ==> front[i].name != vd[n].name)
      {
        FromFront(front[i], vd, n);
      }
      if Wanted(vd[n]) {
        var f := File(vd[n].name, Content(src, vd[n]));
        FromNth(f, vd, n);
      }
    }
  }

  lemma {:induction false} FileDataIs(src: seq<byte>, vd: seq<VdEntry>)
    requires DistinctNames(vd)
    ensures FileData(src, vd) == FilePairs(Stored(src, vd))
  {
    hide Wanted, Content, Set;
    if vd != [] {
      var n := |vd| - 1;
      FileDataIs(src, vd[..n]);
      StoredNames(src, vd);
      if Wanted(vd[n]) {
        var front := Stored(src, vd[..n]);
        forall i | 0 <= i < |front| ensures FilePairs(front)[i].0 != vd[n].name {
          assert Stored(src, vd)[i] == front[i] && Stored(src, vd)[|front|].name == vd[n].name;
        }
        SetNew(FilePairs(front), vd[n].name, Content(src, vd[n]));
      }
    }
  }

  /** A wanted entry's bytes are found under its name, an unwanted entry's are not. */
  lemma {:induction false} GetStored(src: seq<byte>, vd: seq<VdEntry>, i: nat)
    requires DistinctNames(vd) && i < |vd| && vd[i].name != ""
    ensures Get(FilePairs(Stored(src, vd)), vd[i].name)
         == if Wanted(vd[i]) then Some(Content(src, vd[i])) else None
  {
    hide Wanted, Content, Get, Stored;
    var fp := FilePairs(Stored(src, vd));
    StoredNames(src, vd);
    if Wanted(vd[i]) {
      var k := StoredAt(src, vd, i);
      assert DistinctKeys(fp) && fp[k] == (vd[i].name, Content(src, vd[i]));
      GetNth(fp, k);
    } else {
      GetNone(fp, vd[i].name);
      forall k | 0 <= k < |fp| ensures fp[k].0 != vd[i].name {
        assert FromEntry(Stored(src, vd)[k], vd);
        var j :| 0 <= j < |vd| && Wanted(vd[j]) && Stored(src, vd)[k].name == vd[j].name;
        OtherName(vd, i, j);
      }
    }
  }

  lemma OtherName(vd: seq<VdEntry>, i: nat, j: nat)
    requires DistinctNames(vd) && i < |vd| && j < |vd| && i != j && vd[i].name != ""
    ensures vd[i].name != vd[j].name
  {
    if j < i && vd[j].name != "" { assert vd[j].name != vd[i].name; }
  }

  /** Where a wanted entry's file is among the stored ones. */
  lemma {:induction false} StoredAt(src: seq<byte>, vd: seq<VdEntry>, i: nat) returns (k: nat)
    requires i < |vd| && Wanted(vd[i])
    ensures k < |Stored(src, vd)| && Stored(src, vd)[k] == File(vd[i].name, Content(src, vd[i]))
  {
    hide Wanted, Content;
    if i == |vd| - 1 {
      k := |Stored(src, vd[..i])|;
    } else {
      k := StoredAt(src, vd[..|vd| - 1], i);
    }
  }

  lemma {:induction false} ChosenAre(src: seq<byte>, vd: seq<VdEntry>, n: nat)
    requires DistinctNames(vd) && n <= |vd|
    ensures ChosenFiles(vd[..n], FilePairs(Stored(src, vd))) == Unlabelled(Stored(src, vd[..n]))
  {
    hide Content, Get, FilePairs;
    if n > 0 {
      ChosenAre(src, vd, n - 1);
      var e, fd := vd[n - 1], FilePairs(Stored(src, vd));
      assert vd[..n][..n - 1] == vd[..n - 1] && vd[..n][n - 1] == e;
      if e.name != "" { GetStored(src, vd, n - 1); }
      assert ChosenFiles(vd[..n], fd)
          == ChosenFiles(vd[..n - 1], fd) + if Chosen(e, fd) then [File(e.name, Get(fd, e.name).value)] else [];
      if Wanted(e) {
        var f := File(e.name, Content(src, e));
        UnlabelledSnoc(Stored(src, vd[..n - 1]), f);
        assert Stored(src, vd[..n]) == Stored(src, vd[..n - 1]) + [f];
      } else {
        assert !Chosen(e, fd);
        assert Stored(src, vd[..n]) == Stored(src, vd[..n - 1]) + [] == Stored(src, vd[..n - 1]);
        assert ChosenFiles(vd[..n - 1], fd) + [] == ChosenFiles(vd[..n - 1], fd);
      }
    }
  }

  lemma UnlabelledSnoc(files: seq<File>, f: File)
    ensures Unlabelled(files + [f]) == Unlabelled(files) + if f.name != LABEL then [f] else []
  {
    assert (files + [f])[..|files|] == files;
  }

  lemma {:induction false} UnlabelledNames(files: seq<File>)
    requires Distinct(files)
    ensures Distinct(Unlabelled(files)) && |Unlabelled(files)| <= |files|
    ensures forall f :: f in Unlabelled(files) <==> f in files && f.name != LABEL
  {
    if files != [] {
      var n := |files| - 1;
      UnlabelledNames(files[..n]);
      assert files == files[..n] + [files[n]];
      var front := Unlabelled(files[..n]);
      forall i | 0 <= i < |front| ensures front[i].name != files[n].name {
        assert front[i] in files[..n];
        var j :| 0 <= j < n && files[j] == front[i];
      }
    }
  }

  lemma {:induction false} UnlabelledTake(files: seq<File>, n: nat)
    requires n <= |files|
    ensures Unlabelled(files[..n]) <= Unlabelled(files)
  {
    if n < |files| {
      UnlabelledTake(files[..|files| - 1], n);
      assert files[..|files| - 1][..n] == files[..n];
    } else {
      assert files[..n] == files;
    }
  }

  /** With distinct names, what is written is exactly what was placed. */
  lemma {:induction false} WrittenIs(files: seq<File>, n: nat)
    requires Distinct(files) && n <= |files|
    ensures var items := Place(Unlabelled(files), 2);
            |Unlabelled(files[..n])| <= |items|
            && Written(FilePairs(files)[..n], Locations(items)) == items[..|Unlabelled(files[..n])|]
  {
    hide Get, Place, BlocksFor;
    var chosen, fp := Unlabelled(files), FilePairs(files);
    var items := Place(chosen, 2);
    UnlabelledTake(files, n);
    if n > 0 {
      WrittenIs(files, n - 1);
      var f, k := files[n - 1], |Unlabelled(files[..n - 1])|;
      assert files[..n][..n - 1] == files[..n - 1] && fp[..n][..n - 1] == fp[..n - 1];
      LocationOf(files, n - 1);
    }
  }

  lemma {:induction false} LocationOf(files: seq<File>, i: nat)
    requires Distinct(files) && i < |files|
    ensures var items, k := Place(Unlabelled(files), 2), |Unlabelled(files[..i])|;
            if files[i].name == LABEL then Get(Locations(items), LABEL).None?
            else && k < |items| && Get(Locations(items), files[i].name) == Some(items[k].lbn)
                 && items[k].name == files[i].name && items[k].data == files[i].data
  {
    hide Get, Place, BlocksFor;
    var chosen, k := Unlabelled(files), |Unlabelled(files[..i])|;
    var items := Place(chosen, 2);
    PlaceItems(chosen, 2);
    UnlabelledNames(files);
    if files[i].name == LABEL {
      GetNone(Locations(items), LABEL);
      forall j | 0 <= j < |items| ensures Locations(items)[j].0 != LABEL { assert chosen[j] in chosen; }
    } else {
      UnlabelledTake(files, i + 1);
      assert files[..i + 1][..i] == files[..i];
      assert chosen[k] == files[i];
      GetNth(Locations(items), k);
    }
  }

  lemma NamesAreShort(f: seq<byte>)
    ensures Clean(ReadName(f), |f|)
  {
    if f != [] && f[0] != 0 { NamesAreShort(f[1..]); }
  }

  lemma {:induction false} ReadVdsNames(d: seq<byte>, n: nat)
    requires 72 + 16 * n <= |d|
    ensures forall i :: 0 <= i < n ==> Clean(ReadVds(d, n)[i].name, VDNAMESIZE)
  {
    hide ReadName, Clean;
    if n > 0 {
      ReadVdsNames(d, n - 1);
      NamesAreShort(d[72 + 16 * (n - 1)..72 + 16 * (n - 1) + 8]);
    }
  }

  /** An entry with a name other than the label's, a place behind the header and at least one byte. */
  predicate IsFile(e: VdEntry) { e.name != "" && e.name != "sgilabel" && e.nbytes > 0 && e.lbn > 0 }

  /** How many of the first `n` entries are such. */
  function FilesBefore(vd: seq<VdEntry>, n: nat): nat
    requires n <= |vd|
  {
    if n == 0 then 0 else FilesBefore(vd, n - 1) + if IsFile(vd[n - 1]) then 1 else 0
  }

  lemma {:induction false} CountsFiles(src: seq<byte>, vd: seq<VdEntry>, n: nat)
    requires n <= |vd|
    ensures |Unlabelled(Stored(src, vd[..n]))| == FilesBefore(vd, n)
  {
    hide Content, Unlabelled;
    if n == 0 {
      NothingStored(src);
    } else {
      CountsFiles(src, vd, n - 1);
      assert vd[..n][..n - 1] == vd[..n - 1] && vd[..n][n - 1] == vd[n - 1];
      var front := Stored(src, vd[..n - 1]);
      if Wanted(vd[n - 1]) {
        UnlabelledSnoc(front, File(vd[n - 1].name, Content(src, vd[n - 1])));
      } else {
        assert Stored(src, vd[..n]) == front + [] == front;
      }
    }
  }

  lemma NothingStored(src: seq<byte>)
    ensures Unlabelled(Stored(src, [])) == []
  {}

  /** Copying keeps what extraction gives: on a source whose names are distinct, every file in its directory is
      extracted from the copy as from the source, provided fewer than 14 files come before it and the copy's disk
      holds the header partition that the copy itself says it has. */
  lemma {:induction false} CopyKeepsFiles(src: seq<byte>, sizeMb: int, i: nat)
    requires ReadVh(src).Some? && DistinctNames(ReadVh(src).value.vd) && i < NVDIR
    requires IsFile(ReadVh(src).value.vd[i]) && Copied(src, sizeMb).Made?
    ensures var e := ReadVh(src).value.vd[i]; var copy := Copied(src, sizeMb).image;
            var k := FilesBefore(ReadVh(src).value.vd, i);
            && Extract(src, e.name) == Found(ReadAt(src, e.lbn * 512, e.nbytes)) && ReadVh(copy).Some?
            && (k >= 14 ==> Extract(copy, e.name) == NotFound)
            && (k < 14 && ReadVh(copy).value.pt[8].nblks <= sizeMb * 2048 ==>
                  Extract(copy, e.name) == Extract(src, e.name))
  {
    hide Image, Header, ReadAt, InRange, Directory, Partitions, Place, NextLbn, Wanted, Stored, Unlabelled, Written,
         FileData, ChosenFiles, Locations, FilePairs, BlocksFor, ReadVh, SetAll, Distinct, Storable, ImageOf, Find;
    VdLength(src);
    var vh := ReadVh(src).value;
    var vd, stored := vh.vd, Stored(src, vh.vd);
    var files, k := Unlabelled(stored), |Unlabelled(Stored(src, vd[..i]))|;
    assert Wanted(vd[i]) by { FileIsWanted(vd[i]); }
    CopiedIs(src, sizeMb);
    SourceExtracts(src, i);
    StoredFilesStorable(src);
    StoredIndex(src, vd, i);
    CountsFiles(src, vd, i);
    CopiedPartition(src, sizeMb);
    var total := sizeMb * 1024 * 1024 / 512;
    assert total == sizeMb * 2048;
    ExtractPlaced(vh.bootfile, files, total, k);
    if VhSectors(NextLbn(files, 2)) <= total { BlotOutside(files, total, k); }
  }

  lemma FileIsWanted(e: VdEntry)
    requires IsFile(e)
    ensures Wanted(e)
  {}

  lemma {:induction false} BlotOutside(files: seq<File>, total: nat, k: nat)
    requires k < |files| && VhSectors(NextLbn(files, 2)) <= total
    ensures Blot(files[k].data, total * 512 - 1 - Place(files, 2)[k].lbn * 512) == files[k].data
  {
    hide Place, NextLbn;
    PlaceItems(files, 2);
    assert Within(Place(files, 2)[k], 2, NextLbn(files, 2));
  }

  /** With distinct names the copy is laid out like a new disk with the stored files. */
  lemma {:induction false} CopiedIs(src: seq<byte>, sizeMb: int)
    requires ReadVh(src).Some? && DistinctNames(ReadVh(src).value.vd) && Copied(src, sizeMb).Made?
    ensures var vh := ReadVh(src).value; var files := Unlabelled(Stored(src, vh.vd));
            var items, next, total := Place(files, 2), NextLbn(files, 2), sizeMb * 1024 * 1024 / 512;
            && total >= 1 && InRange(vh.bootfile, Directory(items), Partitions(VhSectors(next), total))
            && Copied(src, sizeMb).image == ImageOf(vh.bootfile, items, next, total)
  {
    hide Image, Header, InRange, Directory, Partitions, Place, NextLbn, Stored, Unlabelled, Written,
         FileData, ChosenFiles, Locations, FilePairs, ReadVh, SetAll, VhSectors;
    var vd := ReadVh(src).value.vd;
    var stored := Stored(src, vd);
    var files := Unlabelled(stored);
    FileDataIs(src, vd);
    ChosenAre(src, vd, |vd|);
    assert vd[..|vd|] == vd && stored[..|stored|] == stored;
    StoredNames(src, vd);
    WrittenIs(stored, |stored|);
    UnlabelledNames(stored);
    LocationsDistinct(files);
    var fp := FilePairs(stored);
    assert fp[..|fp|] == fp;
    var items := Place(files, 2);
    assert items[..|items|] == items;
    assert Written(fp, SetAll(Locations(items))) == items;
  }

  lemma {:induction false} LocationsDistinct(files: seq<File>)
    requires Distinct(files)
    ensures SetAll(Locations(Place(files, 2))) == Locations(Place(files, 2))
  {
    hide Place;
    PlaceItems(files, 2);
    SetAllDistinct(Locations(Place(files, 2)));
  }

  lemma VdLength(src: seq<byte>)
    ensures ReadVh(src).Some? ==> |ReadVh(src).value.vd| == NVDIR
  {}

  lemma {:induction false} SourceExtracts(src: seq<byte>, i: nat)
    requires ReadVh(src).Some? && DistinctNames(ReadVh(src).value.vd) && i < NVDIR
    requires Wanted(ReadVh(src).value.vd[i])
    ensures var e := ReadVh(src).value.vd[i]; Extract(src, e.name) == Found(Content(src, e))
  {
    hide ReadVh, ReadAt;
    VdLength(src);
    var vd := ReadVh(src).value.vd;
    forall j | 0 <= j < i ensures vd[j].name != vd[i].name { OtherName(vd, i, j); }
    FindFirst(vd, vd[i].name, i);
  }

  lemma {:induction false} StoredFilesStorable(src: seq<byte>)
    requires ReadVh(src).Some? && DistinctNames(ReadVh(src).value.vd)
    ensures var files := Unlabelled(Stored(src, ReadVh(src).value.vd)); Distinct(files) && Storable(files)
  {
    hide Stored, Unlabelled, ReadVds, ReadPts, ReadName, ReadI32, Clean, DistinctNames, Get32, Get16, Wanted;
    var vd := ReadVh(src).value.vd;
    var stored := Stored(src, vd);
    StoredNames(src, vd);
    UnlabelledNames(stored);
    ReadVdsNames(src, NVDIR);
    var files := Unlabelled(stored);
    forall m | 0 <= m < |files| ensures Clean(files[m].name, VDNAMESIZE) && files[m].name != LABEL {
      assert files[m] in files;
      var n :| 0 <= n < |stored| && stored[n] == files[m];
      assert FromEntry(stored[n], vd);
    }
  }

  /** The file of a wanted entry comes behind those of the entries before it. */
  lemma {:induction false} StoredIndex(src: seq<byte>, vd: seq<VdEntry>, i: nat)
    requires i < |vd| && Wanted(vd[i]) && vd[i].name != LABEL
    ensures var files, k := Unlabelled(Stored(src, vd)), |Unlabelled(Stored(src, vd[..i]))|;
            k < |files| && files[k] == File(vd[i].name, Content(src, vd[i]))
  {
    hide Wanted, Content, Unlabelled;
    var n := |vd| - 1;
    var front := Stored(src, vd[..n]);
    if Wanted(vd[n]) {
      UnlabelledSnoc(front, File(vd[n].name, Content(src, vd[n])));
    } else {
      assert Stored(src, vd) == front + [] == front;
    }
    if i < n {
      assert vd[..n][..i] == vd[..i];
      StoredIndex(src, vd[..n], i);
    }
  }

  // ---------------------------------------------------------------- the copy's header

  lemma {:induction false} GetIn<V>(d: seq<(string, V)>, k: string)
    requires Get(d, k).Some?
    ensures (k, Get(d, k).value) in d
  {
    if d[0].0 == k {
      assert d[0] == (k, Get(d, k).value);
    } else {
      GetIn(d[1..], k);
    }
  }

  lemma {:induction false} CopiedBehindHeader(files: seq<File>, k: string)
    requires Get(SetAll(Locations(Place(files, 2))), k).Some?
    ensures Get(SetAll(Locations(Place(files, 2))), k).value >= 2
  {
    hide Place, Get, SetAll;
    var items := Place(files, 2);
    PlaceItems(files, 2);
    SetAllFrom(Locations(items));
    GetIn(SetAll(Locations(items)), k);
    var j :| 0 <= j < |items| && Locations(items)[j] == (k, Get(SetAll(Locations(items)), k).value);
    assert Within(items[j], 2, NextLbn(files, 2));
  }

  lemma {:induction false} WrittenAt(fd: seq<(string, seq<byte>)>, loc: seq<(string, nat)>)
    requires forall k :: Get(loc, k).Some? ==> Get(loc, k).value >= 2
    ensures forall i :: 0 <= i < |Written(fd, loc)| ==> Written(fd, loc)[i].lbn >= 2
  {
    hide Get;
    if fd != [] {
      WrittenAt(fd[..|fd| - 1], loc);
    }
  }

  /** Whatever the source, the copy has a header that describes the files chosen, with the source's boot file. */
  lemma {:induction false} CopiedHeader(src: seq<byte>, sizeMb: int)
    requires Copied(src, sizeMb).Made?
    ensures ReadVh(src).Some?
    ensures var s := ReadVh(src).value; var r := ReadVh(Copied(src, sizeMb).image);
            && r.Some? && r.value.bootfile == s.bootfile
            && Describes(r.value, ChosenFiles(s.vd, FileData(src, s.vd)), sizeMb, s.bootfile)
  {
    hide Place, NextLbn, Directory, Partitions, Image, Header, InRange, SetAll, Locations, VhSectors,
         ChosenFiles, FileData, Written, ReadVh, Get;
    assert sizeMb * 1024 * 1024 / 512 == sizeMb * 2048;
    var s := ReadVh(src).value;
    var fd := FileData(src, s.vd);
    var files := ChosenFiles(s.vd, fd);
    var loc := SetAll(Locations(Place(files, 2)));
    forall k | Get(loc, k).Some? ensures Get(loc, k).value >= 2 { CopiedBehindHeader(files, k); }
    WrittenAt(fd, loc);
    ImageDescribes(s.bootfile, files, sizeMb, Written(fd, loc));
    BootfileIsShort(src);
  }

  lemma BootfileIsShort(src: seq<byte>)
    requires ReadVh(src).Some?
    ensures Kept(ReadVh(src).value.bootfile, 16) == ReadVh(src).value.bootfile
  {
    hide ReadName, Kept, ReadVds, ReadPts;
    NamesAreShort(src[8..24]);
    NameIntactIff(ReadVh(src).value.bootfile, 16);
  }

  /** The size of the copy's header partition, in terms of the files stored. */
  lemma {:induction false} CopiedPartition(src: seq<byte>, sizeMb: int)
    requires ReadVh(src).Some? && DistinctNames(ReadVh(src).value.vd) && Copied(src, sizeMb).Made?
    ensures var r := ReadVh(Copied(src, sizeMb).image);
            && r.Some? && |r.value.pt| == 16
            && r.value.pt[8].nblks == VhSectors(NextLbn(Unlabelled(Stored(src, ReadVh(src).value.vd)), 2))
  {
    hide Place, NextLbn, Stored, Unlabelled, FileData, ChosenFiles, FilePairs, ReadVh, Copied, Sectors;
    var vd := ReadVh(src).value.vd;
    CopiedHeader(src, sizeMb);
    FileDataIs(src, vd);
    ChosenAre(src, vd, |vd|);
    assert vd[..|vd|] == vd;
    NextIs(Unlabelled(Stored(src, vd)), 2);
  }
}
