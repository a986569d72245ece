/** The directory tree that `EFSBuilder` collects, and the order in which it is laid out.
    A path is the list of its components; the root is the empty list. */
module EfsTree {
  import opened Bytes

  type Path = seq<string>

  const S_IFDIR: int := 0x4000
  const S_IFLNK: int := 0xA000
  const ROOT_INODE: nat := 2

  datatype FileEntry = FileEntry(
    name: string, mode: int, uid: int, gid: int, size: int, mtime: int, data: seq<byte>, linkTarget: string,
    inode: nat, parentInode: nat)

  datatype DirEntry = DirEntry(
    name: string, mode: int, uid: int, gid: int, mtime: int, inode: nat, parentInode: nat, entries: seq<Path>)

  datatype Meta = Meta(uid: int, gid: int, mtime: int)

  /** The two dictionaries, with their insertion orders. */
  datatype Tree = Tree(dirs: map<Path, DirEntry>, files: map<Path, FileEntry>, dirOrder: seq<Path>, fileOrder: seq<Path>)

  function Parent(p: Path): Path { if p == [] then [] else p[..|p| - 1] }

  function Name(p: Path): string { if p == [] then "" else p[|p| - 1] }

  /** The file type bits of a mode. */
  function FileType(mode: int): int { mode / 0x1000 % 0x10 * 0x1000 }

  /** `mode | S_IFDIR` */
  function OrDir(mode: int): int { if mode / S_IFDIR % 2 == 1 then mode else mode + S_IFDIR }

  predicate NoDup<T(==)>(s: seq<T>) { forall i, j :: 0 <= i < j < |s| ==> s[i] != s[j] }

  ghost predicate Lists<V>(order: seq<Path>, m: map<Path, V>) {
    NoDup(order) && forall p :: p in order <==> p in m
  }

  // ---------------------------------------------------------- adding entries

  function AppendEntry(dirs: map<Path, DirEntry>, parent: Path, child: Path): map<Path, DirEntry> {
    if parent in dirs then dirs[parent := dirs[parent].(entries := dirs[parent].entries + [child])] else dirs
  }

  /** Records a new directory and lists it in its parent. */
  function WithDir(t: Tree, p: Path, mode: int, m: Meta): Tree {
    var d := DirEntry(Name(p), OrDir(mode), m.uid, m.gid, m.mtime, 0, 0, []);
    var dirs := t.dirs[p := d];
    var listed := Parent(p) in dirs && p in dirs[Parent(p)].entries;
    t.(dirs := if listed then dirs else AppendEntry(dirs, Parent(p), p), dirOrder := t.dirOrder + [p])
  }

  /** Records a file and lists it in its parent. */
  function WithFile(t: Tree, p: Path, f: FileEntry): Tree {
    t.(files := t.files[p := f],
       fileOrder := if p in t.files then t.fileOrder else t.fileOrder + [p],
       dirs := AppendEntry(t.dirs, Parent(p), p))
  }

  /** The ancestors of `p` down to depth `n`, created where missing. */
  function EnsureDirs(t: Tree, p: Path, n: nat, m: Meta): Tree
    requires n <= |p|
  {
    if n == 0 then t
    else
      var t1 := EnsureDirs(t, p, n - 1, m);
      if p[..n] in t1.dirs then t1 else WithDir(t1, p[..n], 0x1ED, m)
  }

  function EnsureParents(t: Tree, p: Path, m: Meta): Tree {
    if p == [] then t else EnsureDirs(t, p, |p| - 1, m)
  }

  /** `add_directory`. */
  function AddDirectory(t: Tree, p: Path, mode: int, m: Meta): Tree {
    if p == [] then t
    else
      var t1 := EnsureParents(t, p, m);
      if p in t1.dirs then t1 else WithDir(t1, p, mode, m)
  }

  /** `add_file`. */
  function AddFile(t: Tree, p: Path, f: FileEntry, m: Meta): Tree {
    WithFile(EnsureParents(t, p, m), p, f)
  }

  // ------------------------------------------------------- what a tree should be

  predicate IsNode(t: Tree, p: Path) { p in t.dirs || p in t.files }

  /** The orders list the two dictionaries, which hold the root and share no path. */
  ghost predicate KeysOk(t: Tree) {
    && Lists(t.dirOrder, t.dirs) && Lists(t.fileOrder, t.files)
    && [] in t.dirs && [] !in t.files && t.dirs.Keys !! t.files.Keys
  }

  /** Every path but the root is listed in its parent, under its own name. */
  ghost predicate Placed(t: Tree) {
    && (forall p :: IsNode(t, p) && p != [] ==> Parent(p) in t.dirs && p in t.dirs[Parent(p)].entries)
    && (forall p :: p in t.dirs && p != [] ==> t.dirs[p].name == Name(p))
    && (forall p :: p in t.files ==> t.files[p].name == Name(p))
  }

  /** A directory lists its own children and nothing else, each once. */
  ghost predicate EntriesOk(t: Tree, p: Path)
    requires p in t.dirs
  {
    && NoDup(t.dirs[p].entries)
    && forall e :: e in t.dirs[p].entries ==> e != [] && Parent(e) == p && IsNode(t, e)
  }

  ghost predicate TreeOk(t: Tree) {
    KeysOk(t) && Placed(t) && forall p :: p in t.dirs ==> EntriesOk(t, p)
  }

  /** `r` is `t` with the one new path `p`, listed at the end of its parent. */
  ghost predicate AddsChild(t: Tree, r: Tree, p: Path) {
    var q := Parent(p);
    && p != [] && q in t.dirs && !IsNode(t, p)
    && (forall x :: IsNode(r, x) <==> IsNode(t, x) || x == p)
    && (forall x :: x in t.dirs ==> x in r.dirs)
    && (forall x :: x in t.files ==> x in r.files && r.files[x] == t.files[x])
    && (forall x :: x in t.dirs && x != q ==> r.dirs[x] == t.dirs[x])
    && r.dirs[q] == t.dirs[q].(entries := t.dirs[q].entries + [p])
    && (p in r.dirs ==> r.dirs[p].entries == [] && r.dirs[p].name == Name(p))
    && (p in r.files ==> r.files[p].name == Name(p))
    && (forall x :: x in r.dirs ==> x in t.dirs || x == p)
    && (forall x :: x in r.files ==> x in t.files || x == p)
  }

  lemma AddsChildEntries(t: Tree, r: Tree, p: Path, d: Path)
    requires TreeOk(t) && AddsChild(t, r, p) && d in r.dirs
    ensures EntriesOk(r, d)
  {
    if d in t.dirs {
      assert EntriesOk(t, d);
      assert p !in t.dirs[d].entries;
      assert forall e :: e in r.dirs[d].entries ==> e in t.dirs[d].entries || (e == p && d == Parent(p));
    }
  }

  lemma AddsChildPlaced(t: Tree, r: Tree, p: Path)
    requires TreeOk(t) && AddsChild(t, r, p)
    ensures Placed(r)
  {
    assert p in r.dirs[Parent(p)].entries;
    forall x | IsNode(r, x) && x != []
      ensures Parent(x) in r.dirs && x in r.dirs[Parent(x)].entries
    {
      if x != p { assert IsNode(t, x); }
    }
  }

  lemma WithDirOk(t: Tree, p: Path, mode: int, m: Meta)
    requires TreeOk(t) && p != [] && Parent(p) in t.dirs && !IsNode(t, p)
    ensures TreeOk(WithDir(t, p, mode, m))
  {
    var r := WithDir(t, p, mode, m);
    assert EntriesOk(t, Parent(p));
    assert p !in t.dirs[Parent(p)].entries;
    assert AddsChild(t, r, p);
    assert KeysOk(r);
    AddsChildPlaced(t, r, p);
    forall d | d in r.dirs ensures EntriesOk(r, d) { AddsChildEntries(t, r, p, d); }
  }

  lemma WithFileOk(t: Tree, p: Path, f: FileEntry)
    requires TreeOk(t) && p != [] && Parent(p) in t.dirs && !IsNode(t, p) && f.name == Name(p)
    ensures TreeOk(WithFile(t, p, f))
  {
    var r := WithFile(t, p, f);
    assert AddsChild(t, r, p);
    assert KeysOk(r);
    AddsChildPlaced(t, r, p);
    forall d | d in r.dirs ensures EntriesOk(r, d) { AddsChildEntries(t, r, p, d); }
  }

  /** Nothing that was there is lost or moved. */
  ghost predicate Extends(t: Tree, r: Tree) {
    && r.files == t.files && r.fileOrder == t.fileOrder
    && (forall q :: q in t.dirs ==> q in r.dirs && t.dirs[q].entries <= r.dirs[q].entries)
  }

  ghost predicate IsPrefixDir(p: Path, n: nat, q: Path)
    requires n <= |p|
  {
    1 <= |q| <= n && q == p[..|q|]
  }

  lemma {:induction false} EnsureDirsGrows(t: Tree, p: Path, n: nat, m: Meta)
    requires n <= |p|
    ensures var r := EnsureDirs(t, p, n, m);
            && Extends(t, r)
            && (forall q :: q in r.dirs <==> q in t.dirs || IsPrefixDir(p, n, q))
  {
    if n > 0 {
      EnsureDirsGrows(t, p, n - 1, m);
      var t1, r := EnsureDirs(t, p, n - 1, m), EnsureDirs(t, p, n, m);
      assert forall q :: q in r.dirs <==> q in t1.dirs || q == p[..n];
      assert forall q :: IsPrefixDir(p, n, q) <==> IsPrefixDir(p, n - 1, q) || q == p[..n];
    }
  }

  lemma {:induction false} EnsureDirsOk(t: Tree, p: Path, n: nat, m: Meta)
    requires TreeOk(t) && n <= |p| && forall q :: q in t.files ==> !IsPrefixDir(p, n, q)
    ensures TreeOk(EnsureDirs(t, p, n, m))
  {
    hide TreeOk, WithDir, EnsureDirs;
    if n == 0 {
      EnsureNone(t, p, m);
    } else {
      HasRoot(t);
      EnsureDirsOk(t, p, n - 1, m);
      EnsureDirsGrows(t, p, n - 1, m);
      var t1 := EnsureDirs(t, p, n - 1, m);
      if p[..n] !in t1.dirs {
        assert Parent(p[..n]) == p[..n - 1];
        assert n > 1 ==> IsPrefixDir(p, n - 1, p[..n - 1]);
        assert n == 1 ==> p[..n - 1] == [];
        WithDirOk(t1, p[..n], 0x1ED, m);
      }
      assert EnsureDirs(t, p, n, m) == if p[..n] in t1.dirs then t1 else WithDir(t1, p[..n], 0x1ED, m) by {
        EnsureDirsStep(t, p, n, m);
      }
    }
  }

  lemma HasRoot(t: Tree)
    requires TreeOk(t)
    ensures [] in t.dirs
  {}

  lemma EnsureNone(t: Tree, p: Path, m: Meta)
    ensures EnsureDirs(t, p, 0, m) == t
  {}

  lemma EnsureDirsStep(t: Tree, p: Path, n: nat, m: Meta)
    requires 1 <= n <= |p|
    ensures var t1 := EnsureDirs(t, p, n - 1, m);
            EnsureDirs(t, p, n, m) == if p[..n] in t1.dirs then t1 else WithDir(t1, p[..n], 0x1ED, m)
  {}

  /** Once the ancestors of `p` are there, creating them again changes nothing. */
  lemma {:induction false} EnsureDirsAgain(t: Tree, p: Path, i: nat, m: Meta)
    requires 1 <= i <= |p|
    ensures EnsureDirs(EnsureDirs(t, p, i - 1, m), p[..i], i - 1, m) == EnsureDirs(t, p, i - 1, m)
  {
    AncestorsThere(EnsureDirs(t, p, i - 1, m), p, i, i - 1, m) by { EnsureDirsGrows(t, p, i - 1, m); }
  }

  lemma {:induction false} AncestorsThere(t: Tree, p: Path, i: nat, k: nat, m: Meta)
    requires k < i <= |p| && forall q :: IsPrefixDir(p, i - 1, q) ==> q in t.dirs
    ensures EnsureDirs(t, p[..i], k, m) == t
  {
    if k > 0 {
      AncestorsThere(t, p, i, k - 1, m);
      assert IsPrefixDir(p, i - 1, p[..i][..k]);
    }
  }

  /** No proper ancestor of `p` is a file. */
  ghost predicate NoFileAbove(t: Tree, p: Path) {
    p == [] || forall q :: q in t.files ==> !IsPrefixDir(p, |p| - 1, q)
  }

  ghost predicate BothKinds(t: Tree) { exists q :: q in t.dirs && q in t.files }

  /** Creating the ancestors of `p` keeps the tree sound, or makes some file a directory as well. */
  lemma ParentsReady(t: Tree, p: Path, m: Meta)
    requires TreeOk(t) && p != []
    ensures var t1 := EnsureParents(t, p, m);
            && Extends(t, t1) && Parent(p) in t1.dirs && (p in t1.dirs <==> p in t.dirs)
            && (if NoFileAbove(t, p) then TreeOk(t1) else BothKinds(t1))
  {
    EnsureDirsGrows(t, p, |p| - 1, m);
    var t1 := EnsureParents(t, p, m);
    assert [] in t.dirs && (|p| > 1 ==> IsPrefixDir(p, |p| - 1, Parent(p)));
    if NoFileAbove(t, p) {
      EnsureDirsOk(t, p, |p| - 1, m);
    } else {
      var q :| q in t.files && IsPrefixDir(p, |p| - 1, q);
      assert q in t1.dirs && q in t1.files;
    }
  }

  /** Adding a file keeps the tree sound exactly when the path is new, is not the root, and no ancestor
      of it is a file. (The same file added twice is listed twice in its directory.) */
  lemma AddFileOkIff(t: Tree, p: Path, f: FileEntry, m: Meta)
    requires TreeOk(t) && f.name == Name(p)
    ensures TreeOk(AddFile(t, p, f, m)) <==> p != [] && !IsNode(t, p) && NoFileAbove(t, p)
  {
    var r := AddFile(t, p, f, m);
    if p != [] {
      ParentsReady(t, p, m);
      var t1 := EnsureParents(t, p, m);
      hide EnsureParents, NoFileAbove;
      if NoFileAbove(t, p) {
        if p in t.files {
          ListedTwice(t, t1, r, p);
        } else if p in t.dirs {
          assert p in r.dirs && p in r.files;
        } else {
          WithFileOk(t1, p, f);
        }
      } else {
        var q :| q in t1.dirs && q in t1.files;
        assert q in r.dirs && q in r.files;
      }
    }
  }

  lemma ListedTwice(t: Tree, t1: Tree, r: Tree, p: Path)
    requires TreeOk(t) && Extends(t, t1) && p in t.files && Parent(p) in t1.dirs
    requires r.dirs == AppendEntry(t1.dirs, Parent(p), p)
    ensures !TreeOk(r)
  {
    var es := t.dirs[Parent(p)].entries;
    var i :| 0 <= i < |es| && es[i] == p;
    var n := |t1.dirs[Parent(p)].entries|;
    assert r.dirs[Parent(p)].entries[i] == r.dirs[Parent(p)].entries[n] == p;
    assert !EntriesOk(r, Parent(p));
  }

  /** Adding a directory keeps the tree sound exactly when neither the path nor an ancestor is a file. */
  lemma AddDirectoryOkIff(t: Tree, p: Path, mode: int, m: Meta)
    requires TreeOk(t)
    ensures TreeOk(AddDirectory(t, p, mode, m)) <==> p !in t.files && NoFileAbove(t, p)
  {
    var r := AddDirectory(t, p, mode, m);
    if p != [] {
      ParentsReady(t, p, m);
      var t1 := EnsureParents(t, p, m);
      hide EnsureParents, NoFileAbove;
      if NoFileAbove(t, p) {
        if p in t.files {
          assert p in r.dirs && p in r.files;
        } else if p !in t1.dirs {
          hide TreeOk;
          WithDirOk(t1, p, mode, m) by { FreshNode(t, t1, p); }
        }
      } else {
        var q :| q in t1.dirs && q in t1.files;
        assert q in r.dirs && q in r.files;
      }
    }
  }

  lemma FreshNode(t: Tree, t1: Tree, p: Path)
    requires Extends(t, t1) && p !in t.files && p !in t1.dirs
    ensures !IsNode(t1, p)
  {}

  // ------------------------------------------------------------- a run of adds

  datatype Add = AddF(path: Path, file: FileEntry, meta: Meta) | AddD(path: Path, mode: int, meta: Meta)

  function Empty(now: int): Tree {
    Tree(map[[] := DirEntry("/", OrDir(0x1ED), 0, 0, now, ROOT_INODE, ROOT_INODE, [])], map[], [[]], [])
  }

  function Apply(t: Tree, a: Add): Tree {
    match a
    case AddF(p, f, m) => AddFile(t, p, f, m)
    case AddD(p, mode, m) => AddDirectory(t, p, mode, m)
  }

  function ApplyAll(t: Tree, adds: seq<Add>): Tree {
    if adds == [] then t else Apply(ApplyAll(t, adds[..|adds| - 1]), adds[|adds| - 1])
  }

  /** What a caller can check before an add. */
  ghost predicate AddFits(t: Tree, a: Add) {
    && NoFileAbove(t, a.path)
    && if a.AddF? then a.path != [] && !IsNode(t, a.path) else a.path !in t.files
  }

  ghost predicate NamedByPath(adds: seq<Add>) {
    forall i :: 0 <= i < |adds| && adds[i].AddF? ==> adds[i].file.name == Name(adds[i].path)
  }

  /** A fault no later add can repair. */
  ghost predicate Broken(t: Tree) {
    [] in t.files || BothKinds(t) || exists d :: d in t.dirs && !NoDup(t.dirs[d].entries)
  }

  ghost predicate Grows(t: Tree, r: Tree) {
    && t.files.Keys <= r.files.Keys
    && (forall q :: q in t.dirs ==> q in r.dirs && t.dirs[q].entries <= r.dirs[q].entries)
  }

  lemma ApplyGrows(t: Tree, a: Add)
    ensures Grows(t, Apply(t, a))
  {
    if a.path != [] {
      EnsureDirsGrows(t, a.path, |a.path| - 1, a.meta);
      hide EnsureDirs;
    }
  }

  lemma BrokenStays(t: Tree, r: Tree)
    requires Broken(t) && Grows(t, r)
    ensures Broken(r)
  {
    if [] in t.files {
    } else if BothKinds(t) {
      var q :| q in t.dirs && q in t.files;
      assert q in r.dirs && q in r.files;
    } else {
      var d :| d in t.dirs && !NoDup(t.dirs[d].entries);
      var i, j :| 0 <= i < j < |t.dirs[d].entries| && t.dirs[d].entries[i] == t.dirs[d].entries[j];
      assert r.dirs[d].entries[i] == t.dirs[d].entries[i] && r.dirs[d].entries[j] == t.dirs[d].entries[j];
    }
  }

  lemma BadAddBreaks(t: Tree, a: Add)
    requires TreeOk(t) && !AddFits(t, a)
    ensures Broken(Apply(t, a))
  {
    var p, r := a.path, Apply(t, a);
    if p != [] {
      ParentsReady(t, p, a.meta);
      var t1 := EnsureParents(t, p, a.meta);
      hide EnsureParents, NoFileAbove;
      if !NoFileAbove(t, p) {
        assert BothKinds(t1);
        BrokenStays(t1, r) by { assert Grows(t1, r); }
      } else if p in t.files && a.AddF? {
        var es := t.dirs[Parent(p)].entries;
        var i :| 0 <= i < |es| && es[i] == p;
        var n := |t1.dirs[Parent(p)].entries|;
        assert r.dirs[Parent(p)].entries[i] == r.dirs[Parent(p)].entries[n] == p;
      } else {
        assert p in r.dirs && p in r.files;
      }
    }
  }

  /** Each add fitted the tree it met. */
  ghost predicate AllFit(t: Tree, adds: seq<Add>) {
    adds == [] ||
    var init, last := adds[..|adds| - 1], adds[|adds| - 1];
    AllFit(t, init) && AddFits(ApplyAll(t, init), last)
  }

  /** A run of adds leaves a sound tree exactly when each add fitted the tree it met. */
  lemma {:induction false} ApplyAllOkIff(now: int, adds: seq<Add>)
    requires NamedByPath(adds)
    ensures TreeOk(ApplyAll(Empty(now), adds)) <==> AllFit(Empty(now), adds)
    ensures TreeOk(ApplyAll(Empty(now), adds)) || Broken(ApplyAll(Empty(now), adds))
  {
    if adds == [] {
      assert Lists(Empty(now).dirOrder, Empty(now).dirs);
    } else {
      var n := |adds| - 1;
      ApplyAllOkIff(now, adds[..n]);
      var t, a := ApplyAll(Empty(now), adds[..n]), adds[n];
      hide TreeOk, Broken, AddFits, Apply;
      if !TreeOk(t) {
        ApplyGrows(t, a);
        BrokenStays(t, Apply(t, a));
        BrokenNotOk(Apply(t, a));
      } else if AddFits(t, a) {
        FittingAdd(t, a);
      } else {
        BadAddBreaks(t, a);
        BrokenNotOk(Apply(t, a));
      }
    }
  }

  lemma BrokenNotOk(t: Tree)
    ensures Broken(t) ==> !TreeOk(t)
  {
    assert forall d :: d in t.dirs && EntriesOk(t, d) ==> NoDup(t.dirs[d].entries);
  }

  lemma FittingAdd(t: Tree, a: Add)
    requires TreeOk(t) && AddFits(t, a) && (a.AddF? ==> a.file.name == Name(a.path))
    ensures TreeOk(Apply(t, a))
  {
    match a
    case AddF(p, f, m) => AddFileOkIff(t, p, f, m);
    case AddD(p, mode, m) => AddDirectoryOkIff(t, p, mode, m);
  }

  /** `q` is an added directory or an ancestor of an added path. */
  ghost predicate Needed(adds: seq<Add>, q: Path) {
    adds != [] &&
    var init, last := adds[..|adds| - 1], adds[|adds| - 1];
    Needed(init, q) || NeededBy(last, q)
  }

  ghost predicate NeededBy(a: Add, q: Path) {
    a.path != [] && (IsPrefixDir(a.path, |a.path| - 1, q) || (a.AddD? && q == a.path))
  }

  function AddedFiles(adds: seq<Add>): map<Path, FileEntry> {
    if adds == [] then map[]
    else
      var rest, a := AddedFiles(adds[..|adds| - 1]), adds[|adds| - 1];
      if a.AddF? then rest[a.path := a.file] else rest
  }

  lemma ApplyContents(t: Tree, a: Add)
    ensures var r := Apply(t, a);
            && (forall q :: q in r.dirs <==> q in t.dirs || NeededBy(a, q))
            && r.files == if a.AddF? then t.files[a.path := a.file] else t.files
  {
    if a.path != [] { EnsureDirsGrows(t, a.path, |a.path| - 1, a.meta); }
  }

  /** The directories of a tree are the root and the needed ones; its files are the added ones, each with
      what was last added for it. */
  lemma {:induction false} ApplyAllContents(now: int, adds: seq<Add>)
    ensures var t := ApplyAll(Empty(now), adds);
            && (forall q :: q in t.dirs <==> q == [] || Needed(adds, q))
            && t.files == AddedFiles(adds)
  {
    if adds != [] {
      var n := |adds| - 1;
      ApplyAllContents(now, adds[..n]);
      ApplyContents(ApplyAll(Empty(now), adds[..n]), adds[n]);
      hide Apply, NeededBy;
    }
  }
}
