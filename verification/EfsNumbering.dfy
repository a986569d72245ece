/** The loop of `allocate_inodes`, step by step: parents are numbered before what they hold. */
module EfsNumbering {
  import opened EfsTree
  import opened EfsOrder
  import opened EfsPlan

  ghost predicate ParentIsEarlier(ds: seq<Path>, i: nat)
    requires i < |ds|
  {
    exists k :: 0 <= k < i && ds[k] == Parent(ds[i])
  }

  ghost predicate ParentsEarlier(ds: seq<Path>) {
    (forall i :: 0 < i < |ds| ==> ParentIsEarlier(ds, i)) && (|ds| > 0 ==> ds[0] == [])
  }

  ghost predicate DirDone(was: map<Path, DirEntry>, cur: map<Path, DirEntry>, ds: seq<Path>, i: nat)
    requires i < |ds| && ds[i] in was && ds[i] in cur
  {
    var p := ds[i];
    && cur[p] == was[p].(inode := ROOT_INODE + i, parentInode := cur[p].parentInode)
    && IsNumberOf(ds, Parent(p), cur[p].parentInode)
  }

  /** The first `i` directories are numbered and the others untouched. */
  ghost predicate DirLoop(was: map<Path, DirEntry>, cur: map<Path, DirEntry>, ds: seq<Path>, i: nat)
    requires i <= |ds|
  {
    && Lists(ds, was) && cur.Keys == was.Keys
    && (forall j :: 0 <= j < |ds| ==> was[ds[j]].inode == if j == 0 then ROOT_INODE else 0)
    && (forall j :: 0 <= j < |ds| ==> if j < i then DirDone(was, cur, ds, j) else cur[ds[j]] == was[ds[j]])
  }

  lemma RootIsNumbered(dirs: map<Path, DirEntry>, ds: seq<Path>)
    requires DirLoop(dirs, dirs, ds, 0) && ParentsEarlier(ds) && |ds| >= 1
    ensures [] in dirs && dirs[[] := dirs[[]].(inode := ROOT_INODE)] == dirs
  {
    assert ds[0] in ds;
  }

  function NumberedDir(dirs: map<Path, DirEntry>, p: Path, next: nat): DirEntry
    requires p in dirs
  {
    var n := if dirs[p].inode == 0 then next else dirs[p].inode;
    var parent := if Parent(p) == p then n else if Parent(p) in dirs then dirs[Parent(p)].inode else ROOT_INODE;
    dirs[p].(inode := n, parentInode := parent)
  }

  lemma ParentKnown(was: map<Path, DirEntry>, cur: map<Path, DirEntry>, ds: seq<Path>, i: nat, next: nat)
    requires i < |ds| && DirLoop(was, cur, ds, i) && ParentsEarlier(ds) && ds[i] in cur
    ensures i > 0 ==> IsNumberOf(ds, Parent(ds[i]), NumberedDir(cur, ds[i], next).parentInode)
  {
    if i > 0 {
      var p := ds[i];
      assert ParentIsEarlier(ds, i);
      var k :| 0 <= k < i && ds[k] == Parent(p);
      assert DirDone(was, cur, ds, k) && ds[k] in ds && Parent(p) != p;
    }
  }

  lemma DirStep(was: map<Path, DirEntry>, cur: map<Path, DirEntry>, ds: seq<Path>, i: nat, next: nat)
    requires i < |ds| && DirLoop(was, cur, ds, i) && ParentsEarlier(ds)
    requires next == ROOT_INODE + if i == 0 then 1 else i
    ensures ds[i] in cur && cur[ds[i]].inode == if i == 0 then ROOT_INODE else 0
    ensures DirLoop(was, cur[ds[i] := NumberedDir(cur, ds[i], next)], ds, i + 1)
  {
    var p := ds[i];
    assert p in ds;
    var d := NumberedDir(cur, p, next);
    var r := cur[p := d];
    ParentKnown(was, cur, ds, i, next);
    assert i == 0 ==> IsNumberOf(ds, Parent(p), d.parentInode) by { assert i == 0 ==> ds[0] == Parent(p); }
    assert d == was[p].(inode := ROOT_INODE + i, parentInode := d.parentInode);
    hide IsNumberOf, ParentsEarlier, NumberedDir, Parent;
    forall j | 0 <= j < |ds|
      ensures ds[j] in was && ds[j] in r
      ensures if j < i + 1 then DirDone(was, r, ds, j) else r[ds[j]] == was[ds[j]]
    {
      assert ds[j] in ds && (j != i ==> ds[j] != p);
      if j < i { assert DirDone(was, cur, ds, j); }
    }
  }

  ghost predicate FileDone(was: map<Path, FileEntry>, cur: map<Path, FileEntry>, ds: seq<Path>, fs: seq<Path>, i: nat)
    requires i < |fs| && fs[i] in was && fs[i] in cur
  {
    var p := fs[i];
    && cur[p] == was[p].(inode := ROOT_INODE + |ds| + i, parentInode := cur[p].parentInode)
    && IsNumberOf(ds, Parent(p), cur[p].parentInode)
  }

  /** The first `i` files are numbered and the others untouched. */
  ghost predicate FileLoop(
    was: map<Path, FileEntry>, cur: map<Path, FileEntry>, dirs: map<Path, DirEntry>, ds: seq<Path>, fs: seq<Path>, i: nat)
    requires i <= |fs|
  {
    && Lists(fs, was) && cur.Keys == was.Keys
    && (forall k :: 0 <= k < |ds| ==> ds[k] in dirs && dirs[ds[k]].inode == ROOT_INODE + k)
    && (forall j :: 0 <= j < |fs| ==> Parent(fs[j]) in ds)
    && (forall j :: 0 <= j < |fs| ==> if j < i then FileDone(was, cur, ds, fs, j) else cur[fs[j]] == was[fs[j]])
  }

  lemma FileStep(was: map<Path, FileEntry>, cur: map<Path, FileEntry>, dirs: map<Path, DirEntry>, ds: seq<Path>, fs: seq<Path>, i: nat)
    requires i < |fs| && FileLoop(was, cur, dirs, ds, fs, i)
    ensures fs[i] in cur
    ensures var parent := if Parent(fs[i]) in dirs then dirs[Parent(fs[i])].inode else ROOT_INODE;
            var f := cur[fs[i]].(inode := ROOT_INODE + |ds| + i, parentInode := parent);
            FileLoop(was, cur[fs[i] := f], dirs, ds, fs, i + 1)
  {
    var p := fs[i];
    assert p in fs && Parent(p) in ds;
    var k :| 0 <= k < |ds| && ds[k] == Parent(p);
    assert IsNumberOf(ds, Parent(p), ROOT_INODE + k);
    var r := cur[p := cur[p].(inode := ROOT_INODE + |ds| + i, parentInode := ROOT_INODE + k)];
    assert forall j :: 0 <= j < |fs| && j != i ==> fs[j] != p && fs[j] in fs;
    hide IsNumberOf;
    forall j | 0 <= j < |fs|
      ensures if j < i + 1 then FileDone(was, r, ds, fs, j) else r[fs[j]] == was[fs[j]]
    {
      if j < i { assert FileDone(was, cur, ds, fs, j); }
    }
  }

  lemma ParentsNumbered(t: Tree, ds: seq<Path>, i: nat)
    requires TreeOk(t) && NormalPaths(t) && Sorted(ds) && Lists(ds, t.dirs) && i < |ds|
    ensures ds[i] != [] ==> ParentIsEarlier(ds, i)
  {
    if ds[i] != [] {
      assert ds[i] in ds && IsNode(t, ds[i]);
      var k :| 0 <= k < |ds| && ds[k] == Parent(ds[i]);
      ParentIndexFirst(ds, k, i);
    }
  }

  lemma ReadyToNumber(t: Tree)
    requires TreeOk(t) && NormalPaths(t) && Unnumbered(t)
    ensures var ds, fs := DirOrder(t), FileOrder(t);
            && |ds| >= 1 && ParentsEarlier(ds) && DirLoop(t.dirs, t.dirs, ds, 0) && Lists(fs, t.files)
            && forall j :: 0 <= j < |fs| ==> Parent(fs[j]) in ds
  {
    var ds, fs := DirOrder(t), FileOrder(t);
    OrderLists(t);
    SortPathsSorts(t.dirOrder);
    assert [] in ds;
    RootFirst(ds);
    forall i | 0 < i < |ds|
      ensures ParentIsEarlier(ds, i)
    {
      ParentsNumbered(t, ds, i);
    }
    assert forall j :: 0 <= j < |fs| ==> fs[j] in fs && IsNode(t, fs[j]);
  }

  lemma ReadyForFiles(was: map<Path, DirEntry>, dirs: map<Path, DirEntry>, files: map<Path, FileEntry>, ds: seq<Path>, fs: seq<Path>)
    requires DirLoop(was, dirs, ds, |ds|) && Lists(fs, files) && forall j :: 0 <= j < |fs| ==> Parent(fs[j]) in ds
    ensures FileLoop(files, files, dirs, ds, fs, 0)
  {
    forall k | 0 <= k < |ds|
      ensures ds[k] in dirs && dirs[ds[k]].inode == ROOT_INODE + k
    {
      assert ds[k] in ds && DirDone(was, dirs, ds, k);
    }
    assert forall j :: 0 <= j < |fs| ==> fs[j] in fs;
  }

  lemma DirsDone(was: map<Path, DirEntry>, cur: map<Path, DirEntry>, ds: seq<Path>, p: Path)
    requires DirLoop(was, cur, ds, |ds|) && p in was
    ensures cur[p] == was[p].(inode := cur[p].inode, parentInode := cur[p].parentInode)
  {
    assert p in ds;
    var i :| 0 <= i < |ds| && ds[i] == p;
    assert DirDone(was, cur, ds, i);
  }

  lemma FilesDone(was: map<Path, FileEntry>, cur: map<Path, FileEntry>, dirs: map<Path, DirEntry>, ds: seq<Path>, fs: seq<Path>, p: Path)
    requires FileLoop(was, cur, dirs, ds, fs, |fs|) && p in was
    ensures cur[p] == was[p].(inode := cur[p].inode, parentInode := cur[p].parentInode)
  {
    assert p in fs;
    var i :| 0 <= i < |fs| && fs[i] == p;
    assert FileDone(was, cur, ds, fs, i);
  }

  lemma DirsNumberedAll(t: Tree, r: Tree, ds: seq<Path>)
    requires DirLoop(t.dirs, r.dirs, ds, |ds|)
    ensures DirsNumbered(r, ds, |ds|)
  {
    hide IsNumberOf;
    forall i | 0 <= i < |ds|
      ensures ds[i] in r.dirs && r.dirs[ds[i]].inode == ROOT_INODE + i && IsNumberOf(ds, Parent(ds[i]), r.dirs[ds[i]].parentInode)
    {
      assert ds[i] in ds && DirDone(t.dirs, r.dirs, ds, i);
    }
  }

  lemma FilesNumberedAll(t: Tree, r: Tree, ds: seq<Path>, fs: seq<Path>)
    requires FileLoop(t.files, r.files, r.dirs, ds, fs, |fs|)
    ensures FilesNumbered(r, ds, fs, ROOT_INODE + |ds|, |fs|)
  {
    hide IsNumberOf;
    forall i | 0 <= i < |fs|
      ensures fs[i] in r.files && r.files[fs[i]].inode == ROOT_INODE + |ds| + i
      ensures IsNumberOf(ds, Parent(fs[i]), r.files[fs[i]].parentInode)
    {
      assert fs[i] in fs && FileDone(t.files, r.files, ds, fs, i);
    }
  }

  lemma SameButNumbersAll(t: Tree, r: Tree, ds: seq<Path>, fs: seq<Path>)
    requires r.dirOrder == t.dirOrder && r.fileOrder == t.fileOrder
    requires DirLoop(t.dirs, r.dirs, ds, |ds|) && FileLoop(t.files, r.files, r.dirs, ds, fs, |fs|)
    ensures SameButNumbers(t, r)
  {
    forall p | p in t.dirs
      ensures r.dirs[p] == t.dirs[p].(inode := r.dirs[p].inode, parentInode := r.dirs[p].parentInode)
    {
      DirsDone(t.dirs, r.dirs, ds, p);
    }
    forall p | p in t.files
      ensures r.files[p] == t.files[p].(inode := r.files[p].inode, parentInode := r.files[p].parentInode)
    {
      FilesDone(t.files, r.files, r.dirs, ds, fs, p);
    }
  }

  lemma NumberingDone(t: Tree, r: Tree, ds: seq<Path>, fs: seq<Path>)
    requires r.dirOrder == t.dirOrder && r.fileOrder == t.fileOrder
    requires DirLoop(t.dirs, r.dirs, ds, |ds|) && FileLoop(t.files, r.files, r.dirs, ds, fs, |fs|)
    ensures SameButNumbers(t, r) && DirsNumbered(r, ds, |ds|) && FilesNumbered(r, ds, fs, ROOT_INODE + |ds|, |fs|)
  {
    hide DirLoop, FileLoop, SameButNumbers, DirsNumbered, FilesNumbered;
    DirsNumberedAll(t, r, ds);
    FilesNumberedAll(t, r, ds, fs);
    SameButNumbersAll(t, r, ds, fs);
  }
}
