/** The order `sorted` gives to paths: code-point order of their written form. */
module EfsOrder {
  import opened EfsTree

  function Written(p: Path): string {
    if p == [] then "" else Written(p[..|p| - 1]) + "/" + p[|p| - 1]
  }

  /** The path as the dictionaries key it. */
  function Render(p: Path): string { if p == [] then "/" else Written(p) }

  predicate LexLe(a: string, b: string) {
    a == [] || (b != [] && (a[0] < b[0] || (a[0] == b[0] && LexLe(a[1..], b[1..]))))
  }

  lemma {:induction false} LexTotal(a: string, b: string)
    ensures LexLe(a, b) || LexLe(b, a)
  {
    if a != [] && b != [] { LexTotal(a[1..], b[1..]); }
  }

  lemma {:induction false} LexTransitive(a: string, b: string, c: string)
    requires LexLe(a, b) && LexLe(b, c)
    ensures LexLe(a, c)
  {
    if a != [] && a[0] == b[0] && b[0] == c[0] { LexTransitive(a[1..], b[1..], c[1..]); }
  }

  lemma {:induction false} LexExtension(a: string, b: string)
    requires b != []
    ensures !LexLe(a + b, a)
  {
    if a == [] {
      assert a + b == b;
    } else {
      assert (a + b)[1..] == a[1..] + b;
      LexExtension(a[1..], b);
    }
  }

  /** The first character in which two strings differ decides. */
  lemma {:induction false} LexDecides(a: string, b: string, k: nat)
    requires k < |a| && k < |b| && a[..k] == b[..k] && a[k] != b[k]
    ensures LexLe(a, b) <==> a[k] < b[k]
  {
    if k > 0 {
      assert a[0] == a[..k][0] == b[..k][0] == b[0];
      assert a[1..][..k - 1] == a[..k][1..] == b[..k][1..] == b[1..][..k - 1];
      LexDecides(a[1..], b[1..], k - 1);
    }
  }

  predicate PathLe(p: Path, q: Path) { LexLe(Render(p), Render(q)) }

  /** A directory sorts strictly before what it holds. */
  lemma ParentFirst(p: Path)
    requires p != [] && p[0] != ""
    ensures !PathLe(p, Parent(p))
  {
    if |p| == 1 {
      assert Written(p[..0]) == "" && Render(p) == "/" + p[0];
      LexExtension("/", p[0]);
    } else {
      var last := "/" + p[|p| - 1];
      assert Render(p) == Written(Parent(p)) + last;
      LexExtension(Written(Parent(p)), last);
    }
  }

  ghost predicate Sorted(s: seq<Path>) { forall i, j :: 0 <= i < j < |s| ==> PathLe(s[i], s[j]) }

  function Insert(s: seq<Path>, p: Path): seq<Path> {
    if s == [] || PathLe(p, s[0]) then [p] + s else [s[0]] + Insert(s[1..], p)
  }

  function SortPaths(s: seq<Path>): seq<Path> {
    if s == [] then [] else Insert(SortPaths(s[1..]), s[0])
  }

  lemma SortedCons(p: Path, s: seq<Path>)
    ensures Sorted([p] + s) <==> Sorted(s) && forall j :: 0 <= j < |s| ==> PathLe(p, s[j])
  {
    hide PathLe;
    var t := [p] + s;
    if Sorted(t) {
      forall j | 0 <= j < |s| ensures PathLe(p, s[j]) { assert PathLe(t[0], t[j + 1]); }
      forall i, j | 0 <= i < j < |s| ensures PathLe(s[i], s[j]) { assert PathLe(t[i + 1], t[j + 1]); }
    }
  }

  lemma {:induction false} InsertSorted(s: seq<Path>, p: Path)
    requires Sorted(s)
    ensures Sorted(Insert(s, p)) && multiset(Insert(s, p)) == multiset(s) + multiset{p}
  {
    hide PathLe, Sorted;
    if s == [] {
      SortedCons(p, s);
    } else if PathLe(p, s[0]) {
      forall j | 0 <= j < |s|
        ensures PathLe(p, s[j])
      {
        if j > 0 { SortedPair(s, 0, j); LeTransitive(p, s[0], s[j]); }
      }
      SortedCons(p, s);
    } else {
      var r := Insert(s[1..], p);
      assert s == [s[0]] + s[1..];
      SortedCons(s[0], s[1..]);
      InsertSorted(s[1..], p);
      LeTotal(p, s[0]);
      forall j | 0 <= j < |r|
        ensures PathLe(s[0], r[j])
      {
        assert r[j] in multiset(r);
        assert r[j] == p || r[j] in s[1..];
      }
      SortedCons(s[0], r);
    }
  }

  lemma SortedPair(s: seq<Path>, i: nat, j: nat)
    requires Sorted(s) && i < j < |s|
    ensures PathLe(s[i], s[j])
  {}

  lemma LeTransitive(p: Path, q: Path, r: Path)
    requires PathLe(p, q) && PathLe(q, r)
    ensures PathLe(p, r)
  {
    LexTransitive(Render(p), Render(q), Render(r));
  }

  lemma LeTotal(p: Path, q: Path)
    ensures PathLe(p, q) || PathLe(q, p)
  {
    LexTotal(Render(p), Render(q));
  }

  /** Sorting permutes, and puts parents before children. */
  lemma {:induction false} SortPathsSorts(s: seq<Path>)
    ensures Sorted(SortPaths(s)) && multiset(SortPaths(s)) == multiset(s)
  {
    if s != [] {
      assert s == [s[0]] + s[1..];
      SortPathsSorts(s[1..]);
      InsertSorted(SortPaths(s[1..]), s[0]);
    }
  }

  lemma NoDupPermutation<T>(a: seq<T>, b: seq<T>)
    requires multiset(a) == multiset(b) && NoDup(a)
    ensures NoDup(b) && (forall x :: x in a <==> x in b) && |a| == |b|
  {
    assert forall x :: x in a <==> x in multiset(a);
    assert forall x :: x in b <==> x in multiset(b);
    forall i, j | 0 <= i < j < |b|
      ensures b[i] != b[j]
    {
      if b[i] == b[j] {
        assert b == b[..i] + [b[i]] + b[i + 1..j] + [b[j]] + b[j + 1..];
        assert multiset(b)[b[i]] >= 2;
        NoDupOnce(a, b[i]);
      }
    }
    assert |multiset(a)| == |a| && |multiset(b)| == |b|;
  }

  lemma {:induction false} NoDupOnce<T>(a: seq<T>, x: T)
    requires NoDup(a)
    ensures multiset(a)[x] <= 1
  {
    if a != [] {
      NoDupOnce(a[1..], x);
      assert a == [a[0]] + a[1..];
      assert a[0] !in a[1..];
      assert a[0] !in multiset(a[1..]);
    }
  }

  /** In a sorted list without repeats, a directory stands before what it holds. */
  lemma ParentIndexFirst(s: seq<Path>, i: nat, j: nat)
    requires Sorted(s) && i < |s| && j < |s| && s[j] != [] && s[j][0] != "" && s[i] == Parent(s[j])
    ensures i < j
  {
    ParentFirst(s[j]);
  }

  lemma {:induction false} WrittenStart(p: Path)
    requires p != [] && p[0] != ""
    ensures |Written(p)| > 1 && Written(p)[0] == '/'
  {
    if |p| == 1 { assert Written(p[..0]) == ""; } else { WrittenStart(p[..|p| - 1]); }
  }

  /** The root sorts first. */
  lemma RootFirst(s: seq<Path>)
    requires Sorted(s) && NoDup(s) && [] in s && forall p :: p in s && p != [] ==> p[0] != ""
    ensures s[0] == []
  {
    var i :| 0 <= i < |s| && s[i] == [];
    assert i > 0 ==> PathLe(s[0], s[i]);
    if s[0] != [] {
      WrittenStart(s[0]);
      assert Render(s[0]) == "/" + Render(s[0])[1..];
      LexExtension("/", Render(s[0])[1..]);
    }
  }
}
