/** The visible region of a GL window: rectangles subtracted into a capped array (dgld_proxy.c). */
module Clip {
  import opened Common

  const MAXP := 16

  datatype Rect = Rect(x: int, y: int, w: int, h: int)

  // ------------------------------------------------------------------ as point sets

  type Point = (int, int)

  predicate In(p: Point, r: Rect) { r.x <= p.0 < r.x + r.w && r.y <= p.1 < r.y + r.h }

  predicate InSome(p: Point, rs: seq<Rect>) { exists i :: 0 <= i < |rs| && In(p, rs[i]) }

  /** The region to be shown: in the window and under none of the windows above it. */
  predicate Visible(p: Point, window: Rect, above: seq<Rect>) { In(p, window) && !InSome(p, above) }

  predicate Nonempty(r: Rect) { r.w > 0 && r.h > 0 }

  ghost predicate Apart(r: Rect, s: Rect) { forall p: Point :: !(In(p, r) && In(p, s)) }

  ghost predicate Disjoint(rs: seq<Rect>) { forall i, j :: 0 <= i < j < |rs| ==> Apart(rs[i], rs[j]) }

  ghost predicate AllNonempty(rs: seq<Rect>) { forall i :: 0 <= i < |rs| ==> Nonempty(rs[i]) }

  // ------------------------------------------------------------------ the subtraction

  function If(c: bool, r: Rect): seq<Rect> { if c then [r] else [] }

  /** `rect_subtract` without the cap: the bands of `r` that `o` leaves visible. */
  function Bands(r: Rect, o: Rect): (b: seq<Rect>)
    ensures |b| <= 4
  {
    var ix0, iy0 := Max(r.x, o.x), Max(r.y, o.y);
    var ix1, iy1 := Min(r.x + r.w, o.x + o.w), Min(r.y + r.h, o.y + o.h);
    if ix0 >= ix1 || iy0 >= iy1 then [r]
    else
      If(iy0 > r.y, Rect(r.x, r.y, r.w, iy0 - r.y))
      + If(iy1 < r.y + r.h, Rect(r.x, iy1, r.w, r.y + r.h - iy1))
      + If(ix0 > r.x, Rect(r.x, iy0, ix0 - r.x, iy1 - iy0))
      + If(ix1 < r.x + r.w, Rect(ix1, iy0, r.x + r.w - ix1, iy1 - iy0))
  }

  /** All the bands of all the pieces. */
  function SubtractAll(rs: seq<Rect>, o: Rect): seq<Rect> {
    if rs == [] then [] else SubtractAll(rs[..|rs| - 1], o) + Bands(rs[|rs| - 1], o)
  }

  function Cap(rs: seq<Rect>): seq<Rect> { if |rs| <= MAXP then rs else rs[..MAXP] }

  /** The pieces left after the occluders, the array holding 16 at a time. */
  function Pieces(rs: seq<Rect>, above: seq<Rect>): seq<Rect>
    decreases |above|
  {
    if above == [] then rs else Pieces(Cap(SubtractAll(rs, above[0])), above[1..])
  }

  /** A point of a band that found no room, which no later occluder covers. */
  predicate Lost(p: Point, rs: seq<Rect>, above: seq<Rect>)
    decreases |above|
  {
    above != [] &&
    var all := SubtractAll(rs, above[0]);
    || (|all| > MAXP && InSome(p, all[MAXP..]) && !InSome(p, above[1..]))
    || Lost(p, Cap(all), above[1..])
  }

  /** No band ever lacks room. */
  predicate FitsAll(rs: seq<Rect>, above: seq<Rect>)
    decreases |above|
  {
    above == [] || (|SubtractAll(rs, above[0])| <= MAXP && FitsAll(SubtractAll(rs, above[0]), above[1..]))
  }

  lemma InSomePlus(p: Point, a: seq<Rect>, b: seq<Rect>)
    ensures InSome(p, a + b) <==> InSome(p, a) || InSome(p, b)
  {
    if InSome(p, a) { var i :| 0 <= i < |a| && In(p, a[i]); assert In(p, (a + b)[i]); }
    if InSome(p, b) { var i :| 0 <= i < |b| && In(p, b[i]); assert In(p, (a + b)[|a| + i]); }
  }

  lemma InNone(p: Point)
    ensures !InSome(p, [])
  {}

  lemma InSomeOne(p: Point, r: Rect)
    ensures InSome(p, [r]) <==> In(p, r)
  {
    if In(p, r) { assert In(p, [r][0]); }
  }

  lemma InIf(p: Point, c: bool, r: Rect)
    ensures InSome(p, If(c, r)) <==> c && In(p, r)
  {
    InSomeOne(p, r);
  }

  /** The bands are exactly what the occluder leaves of the rectangle. */
  lemma BandsExact(p: Point, r: Rect, o: Rect)
    ensures InSome(p, Bands(r, o)) <==> In(p, r) && !In(p, o)
  {
    hide InSome;
    var ix0, iy0 := Max(r.x, o.x), Max(r.y, o.y);
    var ix1, iy1 := Min(r.x + r.w, o.x + o.w), Min(r.y + r.h, o.y + o.h);
    if ix0 >= ix1 || iy0 >= iy1 {
      InSomeOne(p, r);
    } else {
      var a := Rect(r.x, r.y, r.w, iy0 - r.y);
      var b := Rect(r.x, iy1, r.w, r.y + r.h - iy1);
      var c := Rect(r.x, iy0, ix0 - r.x, iy1 - iy0);
      var d := Rect(ix1, iy0, r.x + r.w - ix1, iy1 - iy0);
      var ca, cb, cc, cd := iy0 > r.y, iy1 < r.y + r.h, ix0 > r.x, ix1 < r.x + r.w;
      InIf(p, ca, a); InIf(p, cb, b); InIf(p, cc, c); InIf(p, cd, d);
      InSomePlus(p, If(ca, a), If(cb, b));
      InSomePlus(p, If(ca, a) + If(cb, b), If(cc, c));
      InSomePlus(p, If(ca, a) + If(cb, b) + If(cc, c), If(cd, d));
    }
  }

  /** A rectangle above another one, or to its left, shares no point with it. */
  lemma ApartByEdge(r: Rect, s: Rect)
    requires r.y + r.h <= s.y || r.x + r.w <= s.x
    ensures Apart(r, s)
  {}

  lemma DisjointFour(ca: bool, a: Rect, cb: bool, b: Rect, cc: bool, c: Rect, cd: bool, d: Rect)
    requires Apart(a, b) && Apart(c, d) && Apart(a, c) && Apart(a, d) && Apart(b, c) && Apart(b, d)
    ensures Disjoint(If(ca, a) + If(cb, b) + If(cc, c) + If(cd, d))
  {
    hide In, Apart;
  }

  lemma NonemptyPlus(a: seq<Rect>, b: seq<Rect>)
    requires AllNonempty(a) && AllNonempty(b)
    ensures AllNonempty(a + b)
  {
    hide Nonempty;
  }

  lemma NonemptyIf(c: bool, r: Rect)
    requires c ==> Nonempty(r)
    ensures AllNonempty(If(c, r))
  {}

  /** No two bands of a rectangle share a point. */
  lemma BandsDisjoint(r: Rect, o: Rect)
    ensures Disjoint(Bands(r, o))
  {
    var ix0, iy0 := Max(r.x, o.x), Max(r.y, o.y);
    var ix1, iy1 := Min(r.x + r.w, o.x + o.w), Min(r.y + r.h, o.y + o.h);
    hide Disjoint, Apart, In, If;
    if ix0 >= ix1 || iy0 >= iy1 {
      Alone(r);
    } else {
      var a := Rect(r.x, r.y, r.w, iy0 - r.y);
      var b := Rect(r.x, iy1, r.w, r.y + r.h - iy1);
      var c := Rect(r.x, iy0, ix0 - r.x, iy1 - iy0);
      var d := Rect(ix1, iy0, r.x + r.w - ix1, iy1 - iy0);
      ApartByEdge(a, b); ApartByEdge(c, d); ApartByEdge(a, c); ApartByEdge(a, d);
      ApartByEdge(c, b); ApartByEdge(d, b);
      ApartSym(c, b); ApartSym(d, b);
      DisjointFour(iy0 > r.y, a, iy1 < r.y + r.h, b, ix0 > r.x, c, ix1 < r.x + r.w, d);
    }
  }

  lemma ApartSym(r: Rect, s: Rect)
    requires Apart(r, s)
    ensures Apart(s, r)
  {}

  /** None of them is empty unless the rectangle was. */
  lemma BandsNonempty(r: Rect, o: Rect)
    requires Nonempty(r)
    ensures AllNonempty(Bands(r, o))
  {
    var ix0, iy0 := Max(r.x, o.x), Max(r.y, o.y);
    var ix1, iy1 := Min(r.x + r.w, o.x + o.w), Min(r.y + r.h, o.y + o.h);
    hide AllNonempty, If;
    if ix0 >= ix1 || iy0 >= iy1 {
      NonemptyOne(r);
    } else {
      var a := Rect(r.x, r.y, r.w, iy0 - r.y);
      var b := Rect(r.x, iy1, r.w, r.y + r.h - iy1);
      var c := Rect(r.x, iy0, ix0 - r.x, iy1 - iy0);
      var d := Rect(ix1, iy0, r.x + r.w - ix1, iy1 - iy0);
      var ca, cb, cc, cd := iy0 > r.y, iy1 < r.y + r.h, ix0 > r.x, ix1 < r.x + r.w;
      NonemptyIf(ca, a); NonemptyIf(cb, b); NonemptyIf(cc, c); NonemptyIf(cd, d);
      NonemptyPlus(If(ca, a), If(cb, b));
      NonemptyPlus(If(ca, a) + If(cb, b), If(cc, c));
      NonemptyPlus(If(ca, a) + If(cb, b) + If(cc, c), If(cd, d));
    }
  }

  lemma NonemptyOne(r: Rect)
    requires Nonempty(r)
    ensures AllNonempty([r])
  {}

  lemma {:induction false} SubtractAllExact(p: Point, rs: seq<Rect>, o: Rect)
    ensures InSome(p, SubtractAll(rs, o)) <==> InSome(p, rs) && !In(p, o)
  {
    if rs != [] {
      hide InSome, Bands;
      var front, r := rs[..|rs| - 1], rs[|rs| - 1];
      SubtractAllExact(p, front, o);
      BandsExact(p, r, o);
      InSomePlus(p, SubtractAll(front, o), Bands(r, o));
      InSomeOne(p, r);
      InSomePlus(p, front, [r]);
      assert rs == front + [r];
    }
  }

  lemma InNth(p: Point, rs: seq<Rect>, i: nat)
    requires i < |rs| && In(p, rs[i])
    ensures InSome(p, rs)
  {}

  lemma DisjointPlus(a: seq<Rect>, b: seq<Rect>)
    requires Disjoint(a) && Disjoint(b)
    requires forall p: Point :: !(InSome(p, a) && InSome(p, b))
    ensures Disjoint(a + b)
  {
    hide InSome, In;
    forall i, j | 0 <= i < j < |a + b| ensures Apart((a + b)[i], (a + b)[j]) {
      if i < |a| <= j {
        forall p: Point ensures !(In(p, a[i]) && In(p, b[j - |a|])) {
          if In(p, a[i]) && In(p, b[j - |a|]) { InNth(p, a, i); InNth(p, b, j - |a|); }
        }
      } else if j < |a| {
        assert Apart(a[i], a[j]);
      } else {
        assert Apart(b[i - |a|], b[j - |a|]);
      }
    }
  }

  lemma NotBoth(p: Point, a: seq<Rect>, b: seq<Rect>, i: nat, j: nat)
    requires Disjoint(a + b) && i < |a| && j < |b|
    ensures !(In(p, a[i]) && In(p, b[j]))
  {
    assert Apart((a + b)[i], (a + b)[|a| + j]);
  }

  lemma DisjointNot(p: Point, a: seq<Rect>, b: seq<Rect>)
    requires Disjoint(a + b)
    ensures !(InSome(p, a) && InSome(p, b))
  {
    hide Disjoint, In;
    if InSome(p, a) && InSome(p, b) {
      var i :| 0 <= i < |a| && In(p, a[i]);
      var j :| 0 <= j < |b| && In(p, b[j]);
      NotBoth(p, a, b, i, j);
    }
  }

  lemma DisjointPart(a: seq<Rect>, b: seq<Rect>)
    requires Disjoint(a + b)
    ensures Disjoint(a)
  {
    forall i, j | 0 <= i < j < |a| ensures Apart(a[i], a[j]) {
      assert Apart((a + b)[i], (a + b)[j]);
    }
  }

  lemma {:induction false} SubtractAllDisjoint(rs: seq<Rect>, o: Rect)
    requires Disjoint(rs)
    ensures Disjoint(SubtractAll(rs, o))
  {
    if rs != [] {
      hide InSome, Disjoint, Bands, In;
      var front, r := rs[..|rs| - 1], rs[|rs| - 1];
      assert rs == front + [r];
      DisjointPart(front, [r]);
      SubtractAllDisjoint(front, o);
      BandsDisjoint(r, o);
      forall p: Point ensures !(InSome(p, SubtractAll(front, o)) && InSome(p, Bands(r, o))) {
        SubtractAllExact(p, front, o);
        BandsExact(p, r, o);
        InSomeOne(p, r);
        DisjointNot(p, front, [r]);
      }
      DisjointPlus(SubtractAll(front, o), Bands(r, o));
    }
  }

  /** The cap parts the bands in two that share no point. */
  lemma CapParts(p: Point, all: seq<Rect>)
    requires Disjoint(all)
    ensures Disjoint(Cap(all))
    ensures InSome(p, all) <==> InSome(p, Cap(all)) || (|all| > MAXP && InSome(p, all[MAXP..]))
    ensures |all| > MAXP ==> !(InSome(p, Cap(all)) && InSome(p, all[MAXP..]))
  {
    hide InSome, Disjoint, In;
    if |all| > MAXP {
      assert all == all[..MAXP] + all[MAXP..];
      DisjointPart(all[..MAXP], all[MAXP..]);
      DisjointNot(p, all[..MAXP], all[MAXP..]);
      InSomePlus(p, all[..MAXP], all[MAXP..]);
    }
  }

  lemma InSomeCons(p: Point, above: seq<Rect>)
    requires above != []
    ensures InSome(p, above) <==> In(p, above[0]) || InSome(p, above[1..])
  {
    hide InSome, In;
    InSomeOne(p, above[0]);
    InSomePlus(p, [above[0]], above[1..]);
    assert above == [above[0]] + above[1..];
  }

  /** What the pieces show, with or without the cap: the region, all but the points lost for want of room. */
  lemma {:induction false} WhatPiecesShow(p: Point, rs: seq<Rect>, above: seq<Rect>)
    requires Disjoint(rs)
    ensures InSome(p, Pieces(rs, above)) <==> InSome(p, rs) && !InSome(p, above) && !Lost(p, rs, above)
    decreases |above|
  {
    hide InSome, Disjoint, SubtractAll, In, Cap;
    if above == [] {
      InNone(p);
    } else {
      var all := SubtractAll(rs, above[0]);
      SubtractAllExact(p, rs, above[0]);
      SubtractAllDisjoint(rs, above[0]);
      CapParts(p, all);
      WhatPiecesShow(p, Cap(all), above[1..]);
      InSomeCons(p, above);
    }
  }

  lemma {:induction false} PiecesDisjoint(rs: seq<Rect>, above: seq<Rect>)
    requires Disjoint(rs) && |rs| <= MAXP
    ensures Disjoint(Pieces(rs, above)) && |Pieces(rs, above)| <= MAXP
    decreases |above|
  {
    hide Disjoint, SubtractAll;
    if above != [] {
      var all := SubtractAll(rs, above[0]);
      SubtractAllDisjoint(rs, above[0]);
      assert all == Cap(all) + all[|Cap(all)|..];
      DisjointPart(Cap(all), all[|Cap(all)|..]);
      PiecesDisjoint(Cap(all), above[1..]);
    }
  }

  lemma Alone(window: Rect)
    ensures Disjoint([window])
  {}

  /** The pieces of a window never overlap one another, and lie inside its visible region. */
  lemma PiecesAreVisible(window: Rect, above: seq<Rect>)
    ensures Disjoint(Pieces([window], above))
    ensures forall p: Point :: InSome(p, Pieces([window], above)) ==> Visible(p, window, above)
  {
    hide InSome, Disjoint, Pieces, In;
    Alone(window);
    PiecesDisjoint([window], above);
    forall p: Point | InSome(p, Pieces([window], above)) ensures Visible(p, window, above) {
      WhatPiecesShow(p, [window], above);
      InSomeOne(p, window);
    }
  }

  lemma VisibleIff(p: Point, window: Rect, above: seq<Rect>)
    ensures Visible(p, window, above) <==> In(p, window) && !InSome(p, above)
  {}

  /** They are all of the visible region if and only if every band that found no room is covered by the
      windows that come after. */
  lemma PiecesExactIff(window: Rect, above: seq<Rect>)
    ensures (forall p: Point :: InSome(p, Pieces([window], above)) <==> Visible(p, window, above))
       <==> (forall p: Point :: !(Visible(p, window, above) && Lost(p, [window], above)))
  {
    hide InSome, Disjoint, Pieces, In, Lost, Visible;
    Alone(window);
    forall p: Point
      ensures InSome(p, Pieces([window], above)) <==> Visible(p, window, above) && !Lost(p, [window], above)
    {
      VisibleIff(p, window, above);
      WhatPiecesShow(p, [window], above);
      InSomeOne(p, window);
    }
  }

  lemma {:induction false} NothingLost(p: Point, rs: seq<Rect>, above: seq<Rect>)
    requires FitsAll(rs, above)
    ensures !Lost(p, rs, above)
    decreases |above|
  {
    if above != [] { NothingLost(p, SubtractAll(rs, above[0]), above[1..]); }
  }

  /** When no band lacks room the pieces are exactly the visible region. */
  lemma PiecesExact(p: Point, window: Rect, above: seq<Rect>)
    requires FitsAll([window], above)
    ensures InSome(p, Pieces([window], above)) <==> Visible(p, window, above)
  {
    hide InSome, Disjoint, Pieces, In, Lost, FitsAll;
    Alone(window);
    NothingLost(p, [window], above);
    WhatPiecesShow(p, [window], above);
    InSomeOne(p, window);
  }

  // -------------------------------------------------------------------- counts and areas

  lemma {:induction false} SubtractAllNonempty(rs: seq<Rect>, o: Rect)
    requires AllNonempty(rs)
    ensures AllNonempty(SubtractAll(rs, o))
  {
    hide Bands, Nonempty;
    if rs != [] {
      SubtractAllNonempty(rs[..|rs| - 1], o);
      BandsNonempty(rs[|rs| - 1], o);
    }
  }

  lemma {:induction false} PiecesNonempty(rs: seq<Rect>, above: seq<Rect>)
    requires AllNonempty(rs)
    ensures AllNonempty(Pieces(rs, above))
    decreases |above|
  {
    hide SubtractAll, Nonempty;
    if above != [] {
      SubtractAllNonempty(rs, above[0]);
      PiecesNonempty(Cap(SubtractAll(rs, above[0])), above[1..]);
    }
  }

  /** An empty rectangle is never cut: it stays the one piece, though it shows nothing. */
  lemma {:induction false} EmptyWindowStays(window: Rect, above: seq<Rect>)
    requires !Nonempty(window)
    ensures Pieces([window], above) == [window]
    decreases |above|
  {
    if above != [] {
      var o := above[0];
      assert Bands(window, o) == [window];
      assert [window][..0] == [];
      assert SubtractAll([window], o) == SubtractAll([], o) + Bands(window, o) == [window];
      EmptyWindowStays(window, above[1..]);
    }
  }

  /** When no band lacks room, the count is 0 exactly when the window is not empty and covered all over. */
  lemma NoPieceIff(window: Rect, above: seq<Rect>)
    requires FitsAll([window], above)
    ensures Pieces([window], above) == [] <==> Nonempty(window) && forall p: Point :: !Visible(p, window, above)
  {
    hide Visible, FitsAll, Pieces;
    var ps := Pieces([window], above);
    if !Nonempty(window) {
      EmptyWindowStays(window, above);
    } else if ps == [] {
      forall p: Point ensures !Visible(p, window, above) { PiecesExact(p, window, above); }
    } else {
      PiecesNonempty([window], above);
      assert Nonempty(ps[0]);
      var p := (ps[0].x, ps[0].y);
      assert In(p, ps[0]);
      PiecesExact(p, window, above);
    }
  }

  // ------------------------------------------------------------------ how many pieces

  lemma NoneToSubtract(o: Rect)
    ensures SubtractAll([], o) == [] == Cap([])
  {}

  /** All pieces, with no limit on their number. */
  function Uncapped(window: Rect, above: seq<Rect>): seq<Rect> {
    if above == [] then [window] else SubtractAll(Uncapped(window, above[..|above| - 1]), above[|above| - 1])
  }

  predicate InRow(y: int, r: Rect) { r.y <= y < r.y + r.h }

  /** How many rectangles cross row `y`. */
  function Row(rs: seq<Rect>, y: int): nat {
    if rs == [] then 0 else Row(rs[..|rs| - 1], y) + if InRow(y, rs[|rs| - 1]) then 1 else 0
  }

  /** How many begin there. */
  function Tops(rs: seq<Rect>, y: int): nat {
    if rs == [] then 0 else Tops(rs[..|rs| - 1], y) + if rs[|rs| - 1].y == y then 1 else 0
  }

  lemma {:induction false} RowPlus(a: seq<Rect>, b: seq<Rect>, y: int)
    ensures Row(a + b, y) == Row(a, y) + Row(b, y)
  {
    if b == [] {
      assert a + b == a;
    } else {
      assert (a + b)[..|a + b| - 1] == a + b[..|b| - 1];
      RowPlus(a, b[..|b| - 1], y);
    }
  }

  lemma RowIf(c: bool, r: Rect, y: int)
    ensures Row(If(c, r), y) == if c && InRow(y, r) then 1 else 0
  {
    assert [r][..0] == [];
  }

  /** The occluder takes out a stretch in the middle of the rectangle's rows. */
  predicate Splits(r: Rect, o: Rect) { r.x < o.x < o.x + o.w < r.x + r.w }

  /** A row of a rectangle falls into two only where an occluder splits it. */
  lemma BandsInRow(r: Rect, o: Rect, y: int)
    requires Nonempty(r)
    ensures Row(Bands(r, o), y) <= if !InRow(y, r) then 0 else if InRow(y, o) && Splits(r, o) then 2 else 1
  {
    hide Row, If;
    var ix0, iy0 := Max(r.x, o.x), Max(r.y, o.y);
    var ix1, iy1 := Min(r.x + r.w, o.x + o.w), Min(r.y + r.h, o.y + o.h);
    if ix0 >= ix1 || iy0 >= iy1 {
      RowIf(true, r, y);
      IfTrue(r);
    } else {
      var a := Rect(r.x, r.y, r.w, iy0 - r.y);
      var b := Rect(r.x, iy1, r.w, r.y + r.h - iy1);
      var c := Rect(r.x, iy0, ix0 - r.x, iy1 - iy0);
      var d := Rect(ix1, iy0, r.x + r.w - ix1, iy1 - iy0);
      var ca, cb, cc, cd := iy0 > r.y, iy1 < r.y + r.h, ix0 > r.x, ix1 < r.x + r.w;
      RowIf(ca, a, y); RowIf(cb, b, y); RowIf(cc, c, y); RowIf(cd, d, y);
      RowPlus(If(ca, a), If(cb, b), y);
      RowPlus(If(ca, a) + If(cb, b), If(cc, c), y);
      RowPlus(If(ca, a) + If(cb, b) + If(cc, c), If(cd, d), y);
    }
  }

  /** Some rectangle that crosses row `y` is split there. */
  ghost predicate SplitsOne(rs: seq<Rect>, o: Rect, y: int) {
    InRow(y, o) && exists i :: 0 <= i < |rs| && InRow(y, rs[i]) && Splits(rs[i], o)
  }

  /** Of rectangles that do not overlap at most one is. */
  lemma SplitsOnlyOne(front: seq<Rect>, r: Rect, o: Rect, y: int)
    requires Disjoint(front + [r]) && InRow(y, r) && Splits(r, o)
    ensures !SplitsOne(front, o, y)
  {
    if SplitsOne(front, o, y) {
      var i :| 0 <= i < |front| && InRow(y, front[i]) && Splits(front[i], o);
      hide Disjoint;
      assert In((o.x, y), front[i]) && In((o.x, y), [r][0]);
      NotBoth((o.x, y), front, [r], i, 0);
    }
  }

  lemma SplitsOneStep(front: seq<Rect>, r: Rect, o: Rect, y: int)
    ensures SplitsOne(front + [r], o, y) <==> SplitsOne(front, o, y) || (InRow(y, o) && InRow(y, r) && Splits(r, o))
  {
    hide InRow, Splits;
    var rs := front + [r];
    if SplitsOne(front, o, y) {
      var i :| 0 <= i < |front| && InRow(y, front[i]) && Splits(front[i], o);
      assert rs[i] == front[i];
    }
    assert rs[|front|] == r;
  }

  lemma {:induction false} SubtractInRow(rs: seq<Rect>, o: Rect, y: int)
    requires Disjoint(rs) && AllNonempty(rs)
    ensures Row(SubtractAll(rs, o), y) <= Row(rs, y) + if SplitsOne(rs, o, y) then 1 else 0
  {
    hide Disjoint, Bands, InRow, Splits, SplitsOne, Nonempty;
    if rs != [] {
      var front, r := rs[..|rs| - 1], rs[|rs| - 1];
      assert rs == front + [r];
      DisjointPart(front, [r]);
      SubtractInRow(front, o, y);
      RowPlus(SubtractAll(front, o), Bands(r, o), y);
      BandsInRow(r, o, y);
      SplitsOneStep(front, r, o, y);
      if InRow(y, r) && Splits(r, o) { SplitsOnlyOne(front, r, o, y); }
    }
  }

  /** How many of the windows above cross row `y`. */
  function Cover(above: seq<Rect>, y: int): nat {
    if above == [] then 0 else Cover(above[..|above| - 1], y) + if InRow(y, above[|above| - 1]) then 1 else 0
  }

  /** Each of them splits a row of the window at most once more. */
  lemma {:induction false} PiecesInRow(window: Rect, above: seq<Rect>, y: int)
    requires Nonempty(window)
    ensures var ps := Uncapped(window, above);
            Disjoint(ps) && AllNonempty(ps) && Row(ps, y) <= 1 + Cover(above, y)
  {
    hide Disjoint, SubtractAll, Nonempty;
    if above == [] {
      Alone(window);
      assert Row([window], y) <= 1 by { assert [window][..0] == []; }
    } else {
      var n := |above| - 1;
      PiecesInRow(window, above[..n], y);
      var ps := Uncapped(window, above[..n]);
      SubtractAllDisjoint(ps, above[n]);
      SubtractAllNonempty(ps, above[n]);
      SubtractInRow(ps, above[n], y);
      assert SplitsOne(ps, above[n], y) ==> InRow(y, above[n]);
    }
  }

  lemma {:induction false} TopsInRow(rs: seq<Rect>, y: int)
    requires AllNonempty(rs)
    ensures Tops(rs, y) <= Row(rs, y)
  {
    if rs != [] {
      TopsInRow(rs[..|rs| - 1], y);
      assert Nonempty(rs[|rs| - 1]);
    }
  }

  // ---- where pieces begin

  predicate IsNew(w: int, ls: seq<int>, y: int) { y > w && y !in ls }

  function AddLevel(w: int, ls: seq<int>, y: int): seq<int> { if IsNew(w, ls, y) then ls + [y] else ls }

  /** The rows where pieces can begin: the first of the window, and those where a window above begins or ends. */
  function Levels(w: int, above: seq<Rect>): seq<int> {
    if above == [] then [w]
    else
      var o := above[|above| - 1];
      AddLevel(w, AddLevel(w, Levels(w, above[..|above| - 1]), o.y), o.y + o.h)
  }

  ghost predicate OnLevels(rs: seq<Rect>, ls: seq<int>) { forall i :: 0 <= i < |rs| ==> rs[i].y in ls }

  lemma BandsBegin(r: Rect, o: Rect)
    ensures forall i :: 0 <= i < |Bands(r, o)| ==>
              var y := Bands(r, o)[i].y; y == r.y || (y > r.y && (y == o.y || y == o.y + o.h))
  {}

  lemma {:induction false} SubtractBegins(rs: seq<Rect>, o: Rect, w: int, ls: seq<int>)
    requires OnLevels(rs, ls) && forall y :: y in ls ==> y >= w
    ensures OnLevels(SubtractAll(rs, o), AddLevel(w, AddLevel(w, ls, o.y), o.y + o.h))
  {
    hide Bands;
    if rs != [] {
      SubtractBegins(rs[..|rs| - 1], o, w, ls);
      BandsBegin(rs[|rs| - 1], o);
      assert rs[|rs| - 1].y in ls;
    }
  }

  ghost predicate Distinct(ls: seq<int>) { forall i, j :: 0 <= i < j < |ls| ==> ls[i] != ls[j] }

  lemma {:induction false} LevelsOk(w: int, above: seq<Rect>)
    ensures Distinct(Levels(w, above)) && forall y :: y in Levels(w, above) ==> y >= w
  {
    if above != [] { LevelsOk(w, above[..|above| - 1]); }
  }

  lemma {:induction false} PiecesBegin(window: Rect, above: seq<Rect>)
    ensures OnLevels(Uncapped(window, above), Levels(window.y, above))
  {
    hide SubtractAll, AddLevel;
    if above != [] {
      var n := |above| - 1;
      PiecesBegin(window, above[..n]);
      LevelsOk(window.y, above[..n]);
      SubtractBegins(Uncapped(window, above[..n]), above[n], window.y, Levels(window.y, above[..n]));
    }
  }

  // ---- adding it up

  /** Pieces that begin on one of the rows `ls`. */
  function SumTops(rs: seq<Rect>, ls: seq<int>): nat {
    if ls == [] then 0 else SumTops(rs, ls[..|ls| - 1]) + Tops(rs, ls[|ls| - 1])
  }

  lemma {:induction false} OneMore(rs: seq<Rect>, ls: seq<int>)
    requires rs != []
    ensures SumTops(rs, ls) >= SumTops(rs[..|rs| - 1], ls) + if rs[|rs| - 1].y in ls then 1 else 0
  {
    if ls != [] {
      OneMore(rs, ls[..|ls| - 1]);
      assert ls == ls[..|ls| - 1] + [ls[|ls| - 1]];
    }
  }

  lemma {:induction false} EveryPieceBegins(rs: seq<Rect>, ls: seq<int>)
    requires OnLevels(rs, ls)
    ensures |rs| <= SumTops(rs, ls)
  {
    hide Tops;
    if rs != [] {
      EveryPieceBegins(rs[..|rs| - 1], ls);
      assert rs[|rs| - 1].y in ls;
      OneMore(rs, ls);
    }
  }

  /** What the rows `ls` can hold. */
  function SumCover(above: seq<Rect>, ls: seq<int>): nat {
    if ls == [] then 0 else SumCover(above, ls[..|ls| - 1]) + 1 + Cover(above, ls[|ls| - 1])
  }

  lemma {:induction false} SumTopsBound(window: Rect, above: seq<Rect>, ls: seq<int>)
    requires Nonempty(window)
    ensures SumTops(Uncapped(window, above), ls) <= SumCover(above, ls)
  {
    hide Uncapped, Tops, Row, Cover, Disjoint, Nonempty;
    if ls != [] {
      var y := ls[|ls| - 1];
      SumTopsBound(window, above, ls[..|ls| - 1]);
      PiecesInRow(window, above, y);
      TopsInRow(Uncapped(window, above), y);
    }
  }

  /** Rows of `ls` with lo <= y < hi. */
  function Between(ls: seq<int>, lo: int, hi: int): nat {
    if ls == [] then 0 else Between(ls[..|ls| - 1], lo, hi) + if lo <= ls[|ls| - 1] < hi then 1 else 0
  }

  lemma {:induction false} SumCoverStep(above: seq<Rect>, o: Rect, ls: seq<int>)
    ensures SumCover(above + [o], ls) == SumCover(above, ls) + Between(ls, o.y, o.y + o.h)
  {
    if ls != [] {
      SumCoverStep(above, o, ls[..|ls| - 1]);
      assert (above + [o])[..|above|] == above;
    }
  }

  /** Ends of the windows above strictly between `lo` and `hi`. */
  function EndsBetween(above: seq<Rect>, lo: int, hi: int): nat {
    if above == [] then 0
    else
      var o := above[|above| - 1];
      EndsBetween(above[..|above| - 1], lo, hi) + (if lo < o.y < hi then 1 else 0) + if lo < o.y + o.h < hi then 1 else 0
  }

  lemma BetweenAdd(w: int, ls: seq<int>, y: int, lo: int, hi: int)
    ensures Between(AddLevel(w, ls, y), lo, hi) == Between(ls, lo, hi) + if IsNew(w, ls, y) && lo <= y < hi then 1 else 0
  {
    assert (ls + [y])[..|ls|] == ls;
  }

  lemma {:induction false} NoneBetween(ls: seq<int>, y: int)
    requires y !in ls
    ensures Between(ls, y, y + 1) == 0
  {
    if ls != [] { NoneBetween(ls[..|ls| - 1], y); }
  }

  /** Strictly between two rows lie no more levels than ends, but for the first row of the window. */
  lemma {:induction false} LevelsInside(w: int, above: seq<Rect>, lo: int, hi: int)
    ensures Between(Levels(w, above), lo + 1, hi) <= EndsBetween(above, lo, hi) + if lo < w < hi then 1 else 0
  {
    if above == [] {
      assert [w][..0] == [];
    } else {
      var n := |above| - 1;
      var o, ls := above[n], Levels(w, above[..n]);
      LevelsInside(w, above[..n], lo, hi);
      BetweenAdd(w, ls, o.y, lo + 1, hi);
      BetweenAdd(w, AddLevel(w, ls, o.y), o.y + o.h, lo + 1, hi);
      hide Levels, AddLevel;
    }
  }

  lemma {:induction false} BetweenFirst(ls: seq<int>, lo: int, hi: int)
    requires Distinct(ls)
    ensures Between(ls, lo, hi) <= Between(ls, lo + 1, hi) + if lo in ls && lo < hi then 1 else 0
  {
    if ls != [] {
      BetweenFirst(ls[..|ls| - 1], lo, hi);
      assert ls == ls[..|ls| - 1] + [ls[|ls| - 1]];
    }
  }

  /** An end strictly inside an interval, and an end of the interval inside the other: never both for the same end. */
  lemma {:induction false} EndsAndCovers(above: seq<Rect>, lo: int, hi: int)
    ensures EndsBetween(above, lo, hi) + Cover(above, lo) + Cover(above, hi) <= 2 * |above|
  {
    if above != [] { EndsAndCovers(above[..|above| - 1], lo, hi); }
  }

  lemma SumCoverAdd(above: seq<Rect>, w: int, ls: seq<int>, y: int)
    ensures SumCover(above, AddLevel(w, ls, y)) == SumCover(above, ls) + if IsNew(w, ls, y) then 1 + Cover(above, y) else 0
  {
    assert (ls + [y])[..|ls|] == ls;
  }

  lemma CoverStep(above: seq<Rect>, o: Rect, y: int)
    ensures Cover(above + [o], y) == Cover(above, y) + if InRow(y, o) then 1 else 0
  {
    assert (above + [o])[..|above|] == above;
  }

  /** The levels a new window lies across: its own beginning, and the ends inside it; or the window's first row. */
  lemma LevelsAcross(w: int, above: seq<Rect>, o: Rect)
    ensures Between(Levels(w, above), o.y, o.y + o.h) + (if IsNew(w, Levels(w, above), o.y) && InRow(o.y, o) then 1 else 0)
         <= 1 + EndsBetween(above, o.y, o.y + o.h)
  {
    hide Levels, Between, EndsBetween, Distinct;
    var ls := Levels(w, above);
    LevelsOk(w, above);
    BetweenFirst(ls, o.y, o.y + o.h);
    LevelsInside(w, above, o.y, o.y + o.h);
    assert o.y in ls ==> o.y >= w;
  }

  lemma LevelsStep(w: int, above: seq<Rect>, o: Rect)
    ensures Levels(w, above + [o]) == AddLevel(w, AddLevel(w, Levels(w, above), o.y), o.y + o.h)
  {
    hide AddLevel;
    var all := above + [o];
    assert all[|all| - 1] == o && all[..|all| - 1] == above;
  }

  lemma NewLevel(above: seq<Rect>, w: int, ls: seq<int>, y: int, o: Rect)
    ensures SumCover(above + [o], AddLevel(w, ls, y)) ==
            SumCover(above + [o], ls) + if IsNew(w, ls, y) then 1 + Cover(above, y) + (if InRow(y, o) then 1 else 0) else 0
  {
    hide SumCover, Cover, AddLevel, InRow, IsNew;
    SumCoverAdd(above + [o], w, ls, y);
    CoverStep(above, o, y);
  }

  lemma GrowthBound(s: int, across: int, ends: int, n: int, ca: int, cb: int, newA: bool, newB: bool, proper: bool)
    requires across + (if newA && proper then 1 else 0) <= 1 + ends && ends + ca + cb <= 2 * n && ca >= 0 && cb >= 0
    ensures s + across + (if newA then 1 + ca + (if proper then 1 else 0) else 0) + (if newB then 1 + cb else 0)
         <= s + 2 * n + 3
  {}

  /** One more window: the sum grows by its own beginning and end, and by twice the number of windows at most. */
  lemma LevelsGrow(w: int, above: seq<Rect>, o: Rect)
    ensures SumCover(above + [o], Levels(w, above + [o])) <= SumCover(above, Levels(w, above)) + 2 * |above| + 3
  {
    var ls, a, b := Levels(w, above), o.y, o.y + o.h;
    var ls1 := AddLevel(w, ls, a);
    assert !InRow(b, o);
    hide Levels, SumCover, Cover, Between, EndsBetween, AddLevel, InRow, IsNew;
    LevelsStep(w, above, o);
    LevelsAcross(w, above, o);
    EndsAndCovers(above, a, b);
    SumCoverStep(above, o, ls);
    NewLevel(above, w, ls, a, o);
    NewLevel(above, w, ls1, b, o);
    GrowthBound(SumCover(above, ls), Between(ls, a, b), EndsBetween(above, a, b), |above|, Cover(above, a), Cover(above, b),
                IsNew(w, ls, a), IsNew(w, ls1, b), InRow(a, o));
  }

  lemma {:induction false} LevelsHold(w: int, above: seq<Rect>)
    ensures SumCover(above, Levels(w, above)) <= (|above| + 1) * (|above| + 1)
  {
    if above == [] {
      assert [w][..0] == [];
    } else {
      hide SumCover, Levels;
      var n := |above| - 1;
      LevelsHold(w, above[..n]);
      assert above == above[..n] + [above[n]];
      LevelsGrow(w, above[..n], above[n]);
      assert (n + 2) * (n + 2) == (n + 1) * (n + 1) + 2 * n + 3;
    }
  }

  lemma {:induction false} EmptyUncapped(window: Rect, above: seq<Rect>)
    requires !Nonempty(window)
    ensures Uncapped(window, above) == [window]
  {
    if above != [] {
      var n := |above| - 1;
      EmptyUncapped(window, above[..n]);
      assert Bands(window, above[n]) == [window];
      assert [] + [window] == [window];
      SubtractSnoc([], window, above[n]);
      NoneToSubtract(above[n]);
      hide SubtractAll, Bands;
    }
  }

  /** However `n` windows lie above another, its visible region falls into at most (n + 1) * (n + 1) pieces. */
  lemma PieceCount(window: Rect, above: seq<Rect>)
    ensures |Uncapped(window, above)| <= (|above| + 1) * (|above| + 1)
  {
    if Nonempty(window) {
      var ls := Levels(window.y, above);
      PiecesBegin(window, above);
      EveryPieceBegins(Uncapped(window, above), ls);
      SumTopsBound(window, above, ls);
      LevelsHold(window.y, above);
    } else {
      EmptyUncapped(window, above);
      MulMono(|above| + 1);
    }
  }

  lemma MulMono(n: nat)
    requires n >= 1
    ensures n * n >= 1
  {}

  lemma {:induction false} UncappedFits(window: Rect, done: seq<Rect>, rest: seq<Rect>)
    requires |done| + |rest| <= 3
    ensures FitsAll(Uncapped(window, done), rest)
    decreases |rest|
  {
    hide SubtractAll;
    if rest != [] {
      var next := done + [rest[0]];
      assert next[..|done|] == done;
      PieceCount(window, next);
      SquareOf(|next|);
      UncappedFits(window, next, rest[1..]);
    }
  }

  lemma SquareOf(n: nat)
    requires n <= 3
    ensures (n + 1) * (n + 1) <= MAXP
  {}

  /** Up to three windows above never make the array overflow. */
  lemma ThreeAlwaysFit(window: Rect, above: seq<Rect>)
    requires |above| <= 3
    ensures FitsAll([window], above)
  {
    UncappedFits(window, [], above);
  }

  // ------------------------------------------------------------- four windows can drop points

  /** Four columns, each longer than the one before it. */
  function Columns(): (s: seq<Rect>)
    ensures |s| == 4
  {
    [Rect(1, 4, 1, 1), Rect(3, 3, 1, 3), Rect(5, 2, 1, 5), Rect(7, 1, 1, 7)]
  }

  /** The pieces of a 9 by 9 window under the first one, two and three of them. */
  function Under1(): seq<Rect> { [Rect(0, 0, 9, 4), Rect(0, 5, 9, 4), Rect(0, 4, 1, 1), Rect(2, 4, 7, 1)] }

  function Under2(): seq<Rect> { Upper2() + Lower2() + Middle2() }

  function Upper2(): seq<Rect> { [Rect(0, 0, 9, 3), Rect(0, 3, 3, 1), Rect(4, 3, 5, 1)] }

  function Lower2(): seq<Rect> { [Rect(0, 6, 9, 3), Rect(0, 5, 3, 1), Rect(4, 5, 5, 1)] }

  function Middle2(): seq<Rect> { [Rect(0, 4, 1, 1), Rect(2, 4, 1, 1), Rect(4, 4, 5, 1)] }

  function Under3(): seq<Rect> { Upper3() + Lower3() + Middle3() }

  function Upper3(): seq<Rect> {
    [Rect(0, 0, 9, 2), Rect(0, 2, 5, 1), Rect(6, 2, 3, 1), Rect(0, 3, 3, 1), Rect(4, 3, 1, 1), Rect(6, 3, 3, 1)]
  }

  function Lower3(): seq<Rect> {
    [Rect(0, 7, 9, 2), Rect(0, 6, 5, 1), Rect(6, 6, 3, 1), Rect(0, 5, 3, 1), Rect(4, 5, 1, 1), Rect(6, 5, 3, 1)]
  }

  function Middle3(): seq<Rect> { [Rect(0, 4, 1, 1), Rect(2, 4, 1, 1), Rect(4, 4, 1, 1), Rect(6, 4, 3, 1)] }

  lemma SubtractSnoc(a: seq<Rect>, r: Rect, o: Rect)
    ensures SubtractAll(a + [r], o) == SubtractAll(a, o) + Bands(r, o)
  {
    assert (a + [r])[..|a|] == a;
    hide Bands;
  }

  lemma UnderFirst()
    ensures SubtractAll([Rect(0, 0, 9, 9)], Columns()[0]) == Under1()
  {
    var w := Rect(0, 0, 9, 9);
    assert [] + [w] == [w];
    SubtractSnoc([], w, Columns()[0]);
    hide SubtractAll;
    NoneToSubtract(Columns()[0]);
  }

  lemma {:induction false} SubtractPlus(a: seq<Rect>, b: seq<Rect>, o: Rect)
    ensures SubtractAll(a + b, o) == SubtractAll(a, o) + SubtractAll(b, o)
  {
    hide Bands;
    if b == [] {
      assert a + b == a;
    } else {
      var n := |b| - 1;
      assert (a + b)[..|a| + n] == a + b[..n] && (a + b)[|a| + n] == b[n];
      SubtractPlus(a, b[..n], o);
    }
  }

  lemma SubtractThree(a: Rect, b: Rect, c: Rect, o: Rect)
    ensures SubtractAll([a, b, c], o) == Bands(a, o) + Bands(b, o) + Bands(c, o)
  {
    hide Bands, SubtractAll;
    NoneToSubtract(o);
    SubtractSnoc([], a, o);
    SubtractSnoc([a], b, o);
    SubtractSnoc([a, b], c, o);
    assert [] + [a] == [a] && [a] + [b] == [a, b] && [a, b] + [c] == [a, b, c];
  }

  lemma SubtractFour(a: Rect, b: Rect, c: Rect, d: Rect, o: Rect)
    ensures SubtractAll([a, b, c, d], o) == Bands(a, o) + Bands(b, o) + Bands(c, o) + Bands(d, o)
  {
    hide Bands, SubtractAll;
    SubtractThree(a, b, c, o);
    SubtractSnoc([a, b, c], d, o);
    assert [a, b, c] + [d] == [a, b, c, d];
  }

  lemma Regroup(x: seq<Rect>, a: Rect, b: Rect, c: Rect)
    ensures x + [a] + [b, c] == x + [a, b, c]
  {}

  lemma SixRects(a: Rect, b: Rect, c: Rect, d: Rect, e: Rect, f: Rect)
    ensures [a, b, c] + [d] + [e, f] == [a, b, c, d, e, f]
  {}

  lemma SecondBands(o: Rect)
    requires o == Columns()[1]
    ensures Bands(Rect(0, 0, 9, 4), o) == Upper2() && Bands(Rect(0, 5, 9, 4), o) == Lower2()
    ensures Bands(Rect(0, 4, 1, 1), o) == [Rect(0, 4, 1, 1)]
    ensures Bands(Rect(2, 4, 7, 1), o) == [Rect(2, 4, 1, 1), Rect(4, 4, 5, 1)]
  {}

  lemma UnderSecond()
    ensures SubtractAll(Under1(), Columns()[1]) == Under2()
  {
    var o := Columns()[1];
    hide Bands, SubtractAll, Upper2, Lower2, Columns;
    SecondBands(o);
    SubtractFour(Rect(0, 0, 9, 4), Rect(0, 5, 9, 4), Rect(0, 4, 1, 1), Rect(2, 4, 7, 1), o);
    Regroup(Upper2() + Lower2(), Rect(0, 4, 1, 1), Rect(2, 4, 1, 1), Rect(4, 4, 5, 1));
  }

  lemma UpperBands(o: Rect)
    requires o == Columns()[2]
    ensures Bands(Rect(0, 0, 9, 3), o) == [Rect(0, 0, 9, 2), Rect(0, 2, 5, 1), Rect(6, 2, 3, 1)]
    ensures Bands(Rect(0, 3, 3, 1), o) == [Rect(0, 3, 3, 1)]
    ensures Bands(Rect(4, 3, 5, 1), o) == [Rect(4, 3, 1, 1), Rect(6, 3, 3, 1)]
  {}

  lemma UpperThird()
    ensures SubtractAll(Upper2(), Columns()[2]) == Upper3()
  {
    var o := Columns()[2];
    hide Bands, SubtractAll, Columns;
    UpperBands(o);
    SubtractThree(Rect(0, 0, 9, 3), Rect(0, 3, 3, 1), Rect(4, 3, 5, 1), o);
    SixRects(Rect(0, 0, 9, 2), Rect(0, 2, 5, 1), Rect(6, 2, 3, 1), Rect(0, 3, 3, 1), Rect(4, 3, 1, 1), Rect(6, 3, 3, 1));
  }

  lemma LowerBands(o: Rect)
    requires o == Columns()[2]
    ensures Bands(Rect(0, 6, 9, 3), o) == [Rect(0, 7, 9, 2), Rect(0, 6, 5, 1), Rect(6, 6, 3, 1)]
    ensures Bands(Rect(0, 5, 3, 1), o) == [Rect(0, 5, 3, 1)]
    ensures Bands(Rect(4, 5, 5, 1), o) == [Rect(4, 5, 1, 1), Rect(6, 5, 3, 1)]
  {}

  lemma LowerThird()
    ensures SubtractAll(Lower2(), Columns()[2]) == Lower3()
  {
    var o := Columns()[2];
    hide Bands, SubtractAll, Columns;
    LowerBands(o);
    SubtractThree(Rect(0, 6, 9, 3), Rect(0, 5, 3, 1), Rect(4, 5, 5, 1), o);
    SixRects(Rect(0, 7, 9, 2), Rect(0, 6, 5, 1), Rect(6, 6, 3, 1), Rect(0, 5, 3, 1), Rect(4, 5, 1, 1), Rect(6, 5, 3, 1));
  }

  lemma MiddleBands(o: Rect)
    requires o == Columns()[2]
    ensures Bands(Rect(0, 4, 1, 1), o) == [Rect(0, 4, 1, 1)]
    ensures Bands(Rect(2, 4, 1, 1), o) == [Rect(2, 4, 1, 1)]
    ensures Bands(Rect(4, 4, 5, 1), o) == [Rect(4, 4, 1, 1), Rect(6, 4, 3, 1)]
  {}

  lemma MiddleThird()
    ensures SubtractAll(Middle2(), Columns()[2]) == Middle3()
  {
    var o := Columns()[2];
    hide Bands, SubtractAll, Columns;
    MiddleBands(o);
    SubtractThree(Rect(0, 4, 1, 1), Rect(2, 4, 1, 1), Rect(4, 4, 5, 1), o);
    Regroup([Rect(0, 4, 1, 1)], Rect(2, 4, 1, 1), Rect(4, 4, 1, 1), Rect(6, 4, 3, 1));
  }

  lemma UnderThird()
    ensures SubtractAll(Under2(), Columns()[2]) == Under3()
  {
    var o := Columns()[2];
    hide SubtractAll, Upper2, Lower2, Middle2, Upper3, Lower3, Middle3, Columns;
    UpperThird();
    LowerThird();
    MiddleThird();
    SubtractPlus(Upper2(), Lower2(), o);
    SubtractPlus(Upper2() + Lower2(), Middle2(), o);
  }

  /** Rectangles that begin to the left of an occluder are not covered by it. */
  lemma {:induction false} LeftOnesStay(rs: seq<Rect>, o: Rect)
    requires forall i :: 0 <= i < |rs| ==> rs[i].x < o.x
    ensures |SubtractAll(rs, o)| >= |rs|
  {
    if rs != [] {
      LeftOnesStay(rs[..|rs| - 1], o);
      assert |Bands(rs[|rs| - 1], o)| >= 1;
    }
  }

  lemma LastBandIsLost()
    ensures var all := SubtractAll(Under3(), Columns()[3]);
            |all| > MAXP && InSome((8, 4), all[MAXP..])
  {
    var o, u := Columns()[3], Under3();
    var front, r := u[..15], u[15];
    assert u == front + [r] && r == Rect(6, 4, 3, 1);
    forall i | 0 <= i < 15 ensures front[i].x < 7 { assert front[i] == u[i]; }
    LeftOnesStay(front, o);
    SubtractSnoc(front, r, o);
    hide SubtractAll, Under3;
    var a := SubtractAll(front, o);
    assert Bands(r, o) == [Rect(6, 4, 1, 1), Rect(8, 4, 1, 1)];
    var all := a + Bands(r, o);
    assert all[|a| + 1] == Rect(8, 4, 1, 1);
    assert In((8, 4), all[MAXP..][|a| + 1 - MAXP]);
  }

  lemma LostHere(p: Point, rs: seq<Rect>, above: seq<Rect>)
    requires above != [] && |SubtractAll(rs, above[0])| > MAXP && InSome(p, SubtractAll(rs, above[0])[MAXP..])
    requires !InSome(p, above[1..])
    ensures Lost(p, rs, above)
  {}

  lemma LostLater(p: Point, rs: seq<Rect>, above: seq<Rect>)
    requires above != [] && |SubtractAll(rs, above[0])| <= MAXP && Lost(p, SubtractAll(rs, above[0]), above[1..])
    ensures Lost(p, rs, above)
  {}

  lemma ColumnsLose()
    ensures Lost((8, 4), [Rect(0, 0, 9, 9)], Columns())
  {
    var p, above := (8, 4), Columns();
    UnderFirst();
    UnderSecond();
    UnderThird();
    LastBandIsLost();
    assert |Under1()| == 4 && |Under2()| == 9 && |Under3()| == 16;
    assert above[1..][0] == above[1] && above[2..][0] == above[2] && above[3..][0] == above[3];
    assert above[1..][1..] == above[2..] && above[2..][1..] == above[3..] && above[3..][1..] == [];
    hide Lost, SubtractAll, Under1, Under2, Under3, Columns, InSome;
    InNone(p);
    LostHere(p, Under3(), above[3..]);
    LostLater(p, Under2(), above[2..]);
    LostLater(p, Under1(), above[1..]);
    LostLater(p, [Rect(0, 0, 9, 9)], above);
  }

  /** Under four windows the array can overflow, and a visible point is then shown by no piece. */
  lemma FourWindowsOverflow()
    ensures var window, above, p := Rect(0, 0, 9, 9), Columns(), (8, 4);
            Visible(p, window, above) && !InSome(p, Pieces([window], above)) && !FitsAll([window], above)
  {
    var window, above, p := Rect(0, 0, 9, 9), Columns(), (8, 4);
    hide Lost, Pieces, Columns, InSome, FitsAll;
    ColumnsLose();
    if FitsAll([window], above) { NothingLost(p, [window], above); }
    Alone(window);
    WhatPiecesShow(p, [window], above);
    ColumnsMiss();
  }

  lemma ColumnsMiss()
    ensures !InSome((8, 4), Columns())
  {}

  function PointSet(r: Rect): set<Point> {
    set a: int, b: int | r.x <= a < r.x + r.w && r.y <= b < r.y + r.h :: (a, b)
  }

  lemma {:induction false} RowSize(x: int, y: int, w: nat)
    ensures |PointSet(Rect(x, y, w, 1))| == w
    decreases w
  {
    if w == 0 {
      assert PointSet(Rect(x, y, w, 1)) == {};
    } else {
      RowSize(x, y, w - 1);
      assert PointSet(Rect(x, y, w, 1)) == PointSet(Rect(x, y, w - 1, 1)) + {(x + w - 1, y)};
    }
  }

  lemma {:induction false} PointSetSize(x: int, y: int, w: nat, h: nat)
    ensures |PointSet(Rect(x, y, w, h))| == w * h
    decreases h
  {
    if h == 0 {
      assert PointSet(Rect(x, y, w, h)) == {};
    } else {
      PointSetSize(x, y, w, h - 1);
      RowSize(x, y + h - 1, w);
      var a, b := PointSet(Rect(x, y, w, h - 1)), PointSet(Rect(x, y + h - 1, w, 1));
      assert PointSet(Rect(x, y, w, h)) == a + b;
      assert a !! b;
      assert w * h == w * (h - 1) + w;
    }
  }

  function Area(rs: seq<Rect>): int {
    if rs == [] then 0 else Area(rs[..|rs| - 1]) + rs[|rs| - 1].w * rs[|rs| - 1].h
  }

  /** The points of `window` that some rectangle of `rs` has. */
  function PointsIn(window: Rect, rs: seq<Rect>): set<Point> { set p: Point | p in PointSet(window) && InSome(p, rs) }

  lemma InPointSet(p: Point, r: Rect)
    ensures p in PointSet(r) <==> In(p, r)
  {
    assert p == (p.0, p.1);
  }

  lemma {:induction false} AreaCountsPoints(window: Rect, rs: seq<Rect>)
    requires Disjoint(rs) && AllNonempty(rs)
    requires forall p: Point :: InSome(p, rs) ==> In(p, window)
    ensures Area(rs) == |PointsIn(window, rs)|
  {
    hide InSome, Disjoint, In, PointSet;
    if rs == [] {
      forall p: Point ensures !InSome(p, []) { InNone(p); }
      assert PointsIn(window, rs) == {};
    } else {
      var front, r := rs[..|rs| - 1], rs[|rs| - 1];
      assert rs == front + [r];
      DisjointPart(front, [r]);
      forall p: Point ensures InSome(p, rs) <==> InSome(p, front) || In(p, r) {
        InSomePlus(p, front, [r]);
        InSomeOne(p, r);
      }
      AreaCountsPoints(window, front);
      PointSetSize(r.x, r.y, r.w, r.h);
      assert r == Rect(r.x, r.y, r.w, r.h);
      forall p: Point ensures !(InSome(p, front) && In(p, r)) {
        DisjointNot(p, front, [r]);
        InSomeOne(p, r);
      }
      forall p: Point ensures p in PointsIn(window, rs) <==> p in PointsIn(window, front) || p in PointSet(r) {
        InPointSet(p, r);
        InPointSet(p, window);
      }
      assert PointsIn(window, rs) == PointsIn(window, front) + PointSet(r);
      forall p: Point ensures !(p in PointsIn(window, front) && p in PointSet(r)) { InPointSet(p, r); }
      assert PointsIn(window, front) !! PointSet(r);
    }
  }

  lemma VisibleIsIn(p: Point, window: Rect, above: seq<Rect>)
    requires Visible(p, window, above)
    ensures In(p, window)
  {}

  /** When no band lacks room, the pieces' areas add up to the size of the visible region. */
  lemma PiecesAddUp(window: Rect, above: seq<Rect>)
    requires Nonempty(window) && FitsAll([window], above)
    ensures Area(Pieces([window], above)) == |set p: Point | p in PointSet(window) && Visible(p, window, above)|
  {
    hide InSome, Disjoint, In, PointSet, Pieces, FitsAll, Visible, Area;
    var ps := Pieces([window], above);
    PiecesNonempty([window], above);
    PiecesAreVisible(window, above);
    forall p: Point ensures InSome(p, ps) <==> Visible(p, window, above) { PiecesExact(p, window, above); }
    forall p: Point | InSome(p, ps) ensures In(p, window) {
      VisibleIsIn(p, window, above);
    }
    AreaCountsPoints(window, ps);
    assert PointsIn(window, ps) == set p: Point | p in PointSet(window) && Visible(p, window, above);
  }

  // -------------------------------------------------------------------------- in place

  /** As much of `b` as there is room for. */
  function Fit(b: seq<Rect>, room: nat): seq<Rect> { b[..Min(|b|, room)] }

  lemma FitPlus(a: seq<Rect>, b: seq<Rect>, room: nat)
    ensures Fit(a + b, room) == Fit(a, room) + Fit(b, room - |Fit(a, room)|)
  {}

  /** Appends `r` behind the first `n` rectangles if `c` holds and there is room. */
  method Append(c: bool, r: Rect, out: array<Rect>, n: nat, max: nat) returns (k: nat)
    requires n <= max <= out.Length
    modifies out
    ensures n <= k <= max && out[..k] == old(out[..n]) + Fit(If(c, r), max - n)
  {
    k := n;
    if c && k < max {
      out[k] := r;
      k := k + 1;
    }
  }

  lemma IfTrue(r: Rect)
    ensures If(true, r) == [r]
  {}

  /** `rect_subtract`: the bands, as many as there is room for, go behind the first `n` rectangles. */
  method RectSubtract(r: Rect, o: Rect, out: array<Rect>, n: nat, max: nat) returns (k: nat)
    requires n <= max <= out.Length
    modifies out
    ensures n <= k <= max && out[..k] == old(out[..n]) + Fit(Bands(r, o), max - n)
  {
    hide If, Fit;
    var ix0, iy0 := Max(r.x, o.x), Max(r.y, o.y);
    var ix1, iy1 := Min(r.x + r.w, o.x + o.w), Min(r.y + r.h, o.y + o.h);
    if ix0 >= ix1 || iy0 >= iy1 {
      k := Append(true, r, out, n, max);
      IfTrue(r);
      return k;
    }
    var a, b := Rect(r.x, r.y, r.w, iy0 - r.y), Rect(r.x, iy1, r.w, r.y + r.h - iy1);
    var c, d := Rect(r.x, iy0, ix0 - r.x, iy1 - iy0), Rect(ix1, iy0, r.x + r.w - ix1, iy1 - iy0);
    k := Append(iy0 > r.y, a, out, n, max);
    k := Append(iy1 < r.y + r.h, b, out, k, max);
    k := Append(ix0 > r.x, c, out, k, max);
    k := Append(ix1 < r.x + r.w, d, out, k, max);
    FitFour(If(iy0 > r.y, a), If(iy1 < r.y + r.h, b), If(ix0 > r.x, c), If(ix1 < r.x + r.w, d), max - n);
  }

  lemma FitFour(a: seq<Rect>, b: seq<Rect>, c: seq<Rect>, d: seq<Rect>, room: nat)
    ensures var fa := Fit(a, room); var fb := Fit(b, room - |fa|); var fc := Fit(c, room - |fa| - |fb|);
            fa + fb + fc + Fit(d, room - |fa| - |fb| - |fc|) == Fit(a + b + c + d, room)
  {
    hide Fit;
    FitPlus(a, b, room);
    FitPlus(a + b, c, room);
    FitPlus(a + b + c, d, room);
  }

  /** One round of `compute_pieces`: every piece of `cur` less the occluder, into `nxt`. */
  method SubtractRound(cur: array<Rect>, ncur: nat, o: Rect, nxt: array<Rect>) returns (k: nat)
    requires cur != nxt && ncur <= cur.Length && nxt.Length == MAXP
    modifies nxt
    ensures k <= MAXP && nxt[..k] == Cap(SubtractAll(cur[..ncur], o))
  {
    hide Bands, SubtractAll, Cap;
    k := 0;
    ghost var rs := cur[..ncur];
    assert rs[..0] == [];
    NoneToSubtract(o);
    for j := 0 to ncur
      invariant k <= MAXP && nxt[..k] == Cap(SubtractAll(rs[..j], o))
    {
      k := RectSubtract(cur[j], o, nxt, k, MAXP);
      assert rs[..j + 1] == rs[..j] + [rs[j]];
      CapStep(rs[..j], rs[j], o);
    }
    assert rs[..ncur] == rs;
  }

  lemma CapStep(front: seq<Rect>, r: Rect, o: Rect)
    ensures |Cap(SubtractAll(front, o))| <= MAXP
    ensures var a := Cap(SubtractAll(front, o));
            a + Fit(Bands(r, o), MAXP - |a|) == Cap(SubtractAll(front + [r], o))
  {
    hide Bands;
    assert (front + [r])[..|front|] == front;
    CapPlus(SubtractAll(front, o), Bands(r, o));
  }

  lemma CapPlus(x: seq<Rect>, b: seq<Rect>)
    ensures |Cap(x)| <= MAXP && Cap(x) + Fit(b, MAXP - |Cap(x)|) == Cap(x + b)
  {}

  lemma PiecesStep(rs: seq<Rect>, above: seq<Rect>, i: nat)
    requires i < |above|
    ensures Pieces(rs, above[i..]) == Pieces(Cap(SubtractAll(rs, above[i])), above[i + 1..])
  {
    assert above[i..][1..] == above[i + 1..];
  }

  lemma {:induction false} NoneLeft(above: seq<Rect>)
    ensures Pieces([], above) == []
    decreases |above|
  {
    if above != [] { NoneLeft(above[1..]); }
  }

  lemma NoneAbove(rs: seq<Rect>)
    ensures Pieces(rs, []) == rs
  {}

  /** `compute_pieces`, given the window's rectangle and those of the viewable windows stacked above it. */
  method ComputePieces(window: Rect, above: seq<Rect>, pieces: array<Rect>) returns (np: nat)
    requires pieces.Length >= MAXP
    modifies pieces
    ensures np <= MAXP && pieces[..np] == Pieces([window], above)
  {
    hide SubtractAll, Cap, Pieces;
    var cur, nxt := new Rect[MAXP](_ => window), new Rect[MAXP](_ => window);
    cur[0] := window;
    var ncur: nat := 1;
    assert cur[..ncur] == [window];
    assert above[0..] == above;
    var i := 0;
    while i < |above|
      invariant i <= |above| && ncur <= MAXP
      invariant Pieces(cur[..ncur], above[i..]) == Pieces([window], above)
      modifies cur, nxt
    {
      ghost var rs := cur[..ncur];
      var k := SubtractRound(cur, ncur, above[i], nxt);
      for j := 0 to k
        invariant cur[..j] == nxt[..j]
        modifies cur
      {
        cur[j] := nxt[j];
      }
      assert cur[..k] == nxt[..k] == Cap(SubtractAll(rs, above[i]));
      PiecesStep(rs, above, i);
      ncur := k;
      i := i + 1;
      if ncur == 0 {
        NoneLeft(above[i..]);
        assert cur[..0] == [];
        break;
      }
    }
    if i == |above| {
      assert above[i..] == [];
      NoneAbove(cur[..ncur]);
    }
    assert Pieces([window], above) == cur[..ncur];
    np := ncur;
    for j := 0 to ncur
      invariant pieces[..j] == cur[..j]
      modifies pieces
    {
      pieces[j] := cur[j];
    }
  }
}
