/** The damage tracker of graphics/server/damage.c: a bounded list of dirty rectangles, merged
    when that wastes little, proved never to lose a pixel. */
module Damage {
  import opened Arith

  const DAMAGE_MAX_RECTS: nat := 64

  datatype Rect = Rect(x: int, y: int, w: int, h: int)

  /** The pixels of a rectangle. */
  predicate Has(r: Rect, px: int, py: int) {
    r.x <= px < r.x + r.w && r.y <= py < r.y + r.h
  }

  predicate OnSurface(px: int, py: int, w: int, h: int) {
    0 <= px < w && 0 <= py < h
  }

  datatype Tracker = Tracker(rects: seq<Rect>, full: bool, w: int, h: int)

  ghost predicate Covered(d: Tracker, px: int, py: int) {
    OnSurface(px, py, d.w, d.h) && (d.full || exists i :: 0 <= i < |d.rects| && Has(d.rects[i], px, py))
  }

  /** Not empty, and inside the surface. */
  predicate Inside(r: Rect, w: int, h: int) {
    0 < r.w && 0 < r.h && 0 <= r.x && 0 <= r.y && r.x + r.w <= w && r.y + r.h <= h
  }

  predicate Ok(d: Tracker) {
    && |d.rects| <= DAMAGE_MAX_RECTS && (d.full ==> d.rects == [])
    && forall i :: 0 <= i < |d.rects| ==> Inside(d.rects[i], d.w, d.h)
  }

  // ---------------------------------------------------------------- rectangles

  function Clamped(r: Rect, w: int, h: int): Rect {
    var x, rw := if r.x < 0 then 0 else r.x, if r.x < 0 then r.w + r.x else r.w;
    var y, rh := if r.y < 0 then 0 else r.y, if r.y < 0 then r.h + r.y else r.h;
    var cw := if x + rw > w then w - x else rw;
    var ch := if y + rh > h then h - y else rh;
    Rect(x, y, if cw < 0 then 0 else cw, if ch < 0 then 0 else ch)
  }

  predicate Empty(r: Rect) {
    r.w <= 0 || r.h <= 0
  }

  /** Clamping keeps exactly the pixels on the surface, for any rectangle and any surface. */
  lemma ClampedIsExact(r: Rect, w: int, h: int, px: int, py: int)
    ensures Has(Clamped(r, w, h), px, py) <==> Has(r, px, py) && OnSurface(px, py, w, h)
    ensures !Empty(Clamped(r, w, h)) ==> Inside(Clamped(r, w, h), w, h)
  {}

  predicate Overlap(a: Rect, b: Rect) {
    a.x < b.x + b.w && a.x + a.w > b.x && a.y < b.y + b.h && a.y + a.h > b.y
  }

  lemma OverlapIsSharedPixel(a: Rect, b: Rect)
    requires !Empty(a) && !Empty(b)
    ensures Overlap(a, b) <==> exists px, py :: Has(a, px, py) && Has(b, px, py)
  {
    if Overlap(a, b) {
      var px, py := if a.x < b.x then b.x else a.x, if a.y < b.y then b.y else a.y;
      assert Has(a, px, py) && Has(b, px, py);
    }
  }

  function Union(a: Rect, b: Rect): Rect {
    var x1 := if a.x < b.x then a.x else b.x;
    var y1 := if a.y < b.y then a.y else b.y;
    var x2 := if a.x + a.w > b.x + b.w then a.x + a.w else b.x + b.w;
    var y2 := if a.y + a.h > b.y + b.h then a.y + a.h else b.y + b.h;
    Rect(x1, y1, x2 - x1, y2 - y1)
  }

  predicate Within(a: Rect, b: Rect) {
    b.x <= a.x && b.y <= a.y && a.x + a.w <= b.x + b.w && a.y + a.h <= b.y + b.h
  }

  /** For a rectangle with pixels, lying within another is having only pixels of the other. */
  lemma WithinIsSubset(a: Rect, b: Rect)
    requires !Empty(a)
    ensures Within(a, b) <==> Subset(a, b)
  {
    if Subset(a, b) {
      assert Has(a, a.x, a.y) && Has(a, a.x + a.w - 1, a.y + a.h - 1);
    }
  }

  lemma UnionBounds(a: Rect, b: Rect, c: Rect)
    ensures Within(a, Union(a, b)) && Within(b, Union(a, b))
    ensures Within(a, c) && Within(b, c) <==> Within(Union(a, b), c)
  {}

  ghost predicate Subset(a: Rect, b: Rect) {
    forall px, py :: Has(a, px, py) ==> Has(b, px, py)
  }

  /** The union is the least rectangle that has the pixels of both. */
  lemma UnionIsLeast(a: Rect, b: Rect, c: Rect)
    requires !Empty(a) && !Empty(b)
    ensures Subset(a, Union(a, b)) && Subset(b, Union(a, b))
    ensures Subset(a, c) && Subset(b, c) <==> Subset(Union(a, b), c)
  {
    UnionBounds(a, b, c);
    WithinIsSubset(a, c);
    WithinIsSubset(b, c);
    WithinIsSubset(Union(a, b), c);
  }

  function Area(r: Rect): int {
    r.w * r.h
  }

  predicate Mergeable(ex: Rect, r: Rect) {
    && (Overlap(ex, r) || (Abs(ex.x - r.x) < 8 && Abs(ex.y - r.y) < 8))
    && Area(Union(ex, r)) <= Area(ex) + Area(r) * 2
  }

  // ---------------------------------------------------------------- the tracker as a value

  /** The first stored rectangle to merge `r` with, or the number of rectangles. */
  function MergeIndex(rects: seq<Rect>, r: Rect, i: nat): (k: nat)
    requires i <= |rects|
    ensures i <= k <= |rects|
    decreases |rects| - i
  {
    if i == |rects| || Mergeable(rects[i], r) then i else MergeIndex(rects, r, i + 1)
  }

  function Put(d: Tracker, r: Rect): Tracker {
    var k := MergeIndex(d.rects, r, 0);
    if k < |d.rects| then d.(rects := d.rects[k := Union(d.rects[k], r)])
    else if |d.rects| >= DAMAGE_MAX_RECTS then d.(full := true, rects := [])
    else d.(rects := d.rects + [r])
  }

  function Added(d: Tracker, r: Rect): Tracker {
    var c := Clamped(r, d.w, d.h);
    if d.full || Empty(c) then d else Put(d, c)
  }

  function AddedAll(d: Tracker, rs: seq<Rect>): Tracker {
    if rs == [] then d else Added(AddedAll(d, rs[..|rs| - 1]), rs[|rs| - 1])
  }

  function Merged(d: Tracker, src: Tracker): Tracker {
    if src.full then d.(full := true, rects := []) else AddedAll(d, src.rects)
  }

  /** Adding a tracker's own rectangles to it one after the other, as they are by then. */
  function AddedOwn(d: Tracker, i: nat): Tracker
    requires Ok(d)
    decreases |d.rects| - i
  {
    if i >= |d.rects| then d
    else
      OwnFindsRoom(d, i);
      AddedOwn(Added(d, d.rects[i]), i + 1)
  }

  /** A rectangle of the tracker's own is merged with it or one before it. */
  lemma OwnFindsRoom(d: Tracker, i: nat)
    requires Ok(d) && i < |d.rects|
    ensures var e, k := Added(d, d.rects[i]), MergeIndex(d.rects, d.rects[i], 0);
            && Ok(e) && !e.full && k <= i && e == d.(rects := d.rects[k := Union(d.rects[k], d.rects[i])])
  {
    var r := d.rects[i];
    assert Inside(r, d.w, d.h) && Clamped(r, d.w, d.h) == r;
    MergesBy(d.rects, r, 0, i);
    AddedCovers(d, r, 0, 0);
  }

  lemma {:induction false} MergesBy(rects: seq<Rect>, r: Rect, j: nat, i: nat)
    requires j <= i < |rects| && rects[i] == r && !Empty(r)
    ensures MergeIndex(rects, r, j) <= i
    decreases i - j
  {
    if j == i {
      assert Union(r, r) == r && Area(r) > 0;
    } else {
      MergesBy(rects, r, j + 1, i);
    }
  }

  function MergedOwn(d: Tracker): Tracker
    requires Ok(d)
  {
    if d.full then d else AddedOwn(d, 0)
  }

  function ClippedRects(rs: seq<Rect>, w: int, h: int): seq<Rect> {
    if rs == [] then []
    else
      var c := Clamped(rs[|rs| - 1], w, h);
      ClippedRects(rs[..|rs| - 1], w, h) + if Empty(c) then [] else [c]
  }

  function Clipped(d: Tracker, w: int, h: int): Tracker {
    Tracker(ClippedRects(d.rects, w, h), d.full, w, h)
  }

  lemma PutCovers(d: Tracker, r: Rect, px: int, py: int)
    requires Ok(d) && !d.full && Inside(r, d.w, d.h)
    ensures Ok(Put(d, r)) && Put(d, r).w == d.w && Put(d, r).h == d.h
    ensures Covered(d, px, py) || Has(r, px, py) ==> Covered(Put(d, r), px, py)
  {
    var k := MergeIndex(d.rects, r, 0);
    var e := Put(d, r);
    if k < |d.rects| {
      UnionBounds(d.rects[k], r, Rect(0, 0, d.w, d.h));
      if Has(r, px, py) {
        assert Has(e.rects[k], px, py);
      }
      forall i | 0 <= i < |d.rects| && Has(d.rects[i], px, py)
        ensures Has(e.rects[i], px, py)
      {
      }
    } else if !e.full {
      assert e.rects[|d.rects|] == r;
      forall i | 0 <= i < |d.rects| && Has(d.rects[i], px, py)
        ensures Has(e.rects[i], px, py)
      {
      }
    }
  }

  /** Adding loses nothing: what was covered stays covered, and so is all of the rectangle that
      lies on the surface. */
  lemma AddedCovers(d: Tracker, r: Rect, px: int, py: int)
    requires Ok(d)
    ensures Ok(Added(d, r)) && Added(d, r).w == d.w && Added(d, r).h == d.h
    ensures Covered(d, px, py) || (Has(r, px, py) && OnSurface(px, py, d.w, d.h))
            ==> Covered(Added(d, r), px, py)
  {
    var c := Clamped(r, d.w, d.h);
    ClampedIsExact(r, d.w, d.h, px, py);
    if !d.full && !Empty(c) {
      PutCovers(d, c, px, py);
    }
  }

  ghost predicate AnyHas(rs: seq<Rect>, px: int, py: int) {
    exists i :: 0 <= i < |rs| && Has(rs[i], px, py)
  }

  lemma {:induction false} AddedAllCovers(d: Tracker, rs: seq<Rect>, px: int, py: int)
    requires Ok(d)
    ensures var e := AddedAll(d, rs); Ok(e) && e.w == d.w && e.h == d.h
    ensures Covered(d, px, py) || (AnyHas(rs, px, py) && OnSurface(px, py, d.w, d.h))
            ==> Covered(AddedAll(d, rs), px, py)
    decreases |rs|
  {
    if rs != [] {
      var init, last := rs[..|rs| - 1], rs[|rs| - 1];
      AddedAllCovers(d, init, px, py);
      AddedCovers(AddedAll(d, init), last, px, py);
      if AnyHas(rs, px, py) && !Has(last, px, py) {
        var i :| 0 <= i < |rs| && Has(rs[i], px, py);
        assert Has(init[i], px, py);
      }
    }
  }

  /** Merging a tracker into itself loses nothing and keeps the number of rectangles. */
  lemma {:induction false} AddedOwnCovers(d: Tracker, i: nat, px: int, py: int)
    requires Ok(d)
    ensures var e := AddedOwn(d, i);
            && Ok(e) && e.w == d.w && e.h == d.h && e.full == d.full && |e.rects| == |d.rects|
            && (Covered(d, px, py) ==> Covered(e, px, py))
    decreases |d.rects| - i
  {
    if i < |d.rects| {
      OwnFindsRoom(d, i);
      AddedCovers(d, d.rects[i], px, py);
      AddedOwnCovers(Added(d, d.rects[i]), i + 1, px, py);
    }
  }

  lemma {:induction false} ClippedRectsExact(rs: seq<Rect>, w: int, h: int, px: int, py: int)
    ensures |ClippedRects(rs, w, h)| <= |rs|
    ensures forall i :: 0 <= i < |ClippedRects(rs, w, h)| ==> Inside(ClippedRects(rs, w, h)[i], w, h)
    ensures AnyHas(ClippedRects(rs, w, h), px, py) <==> AnyHas(rs, px, py) && OnSurface(px, py, w, h)
    decreases |rs|
  {
    if rs != [] {
      var init, last := rs[..|rs| - 1], rs[|rs| - 1];
      ClippedRectsExact(init, w, h, px, py);
      ClampedIsExact(last, w, h, px, py);
      var c := Clamped(last, w, h);
      AnyHasSnoc(init, last, px, py);
      assert rs == init + [last];
      AnyHasSnoc(ClippedRects(init, w, h), c, px, py);
      assert Empty(c) ==> ClippedRects(rs, w, h) == ClippedRects(init, w, h);
    }
  }

  lemma AnyHasSnoc(rs: seq<Rect>, r: Rect, px: int, py: int)
    ensures AnyHas(rs + [r], px, py) <==> AnyHas(rs, px, py) || Has(r, px, py)
  {
    if AnyHas(rs, px, py) {
      var i :| 0 <= i < |rs| && Has(rs[i], px, py);
      assert Has((rs + [r])[i], px, py);
    }
    if Has(r, px, py) {
      assert Has((rs + [r])[|rs|], px, py);
    }
  }

  /** Clipping keeps exactly the covered pixels that lie on the new surface. */
  lemma ClippedIsExact(d: Tracker, w: int, h: int, px: int, py: int)
    requires Ok(d)
    ensures Ok(Clipped(d, w, h))
    ensures !d.full ==>
      (Covered(Clipped(d, w, h), px, py) <==> Covered(d, px, py) && OnSurface(px, py, w, h))
    ensures d.full ==> (Covered(Clipped(d, w, h), px, py) <==> OnSurface(px, py, w, h))
  {
    ClippedRectsExact(d.rects, w, h, px, py);
    if !d.full && AnyHas(d.rects, px, py) {
      var i :| 0 <= i < |d.rects| && Has(d.rects[i], px, py);
      assert Inside(d.rects[i], d.w, d.h);
    }
  }

  // ---------------------------------------------------------------- whole runs

  datatype Op = Add(r: Rect) | AddFull | Merge(src: Tracker) | MergeOwn | ClipTo(w: int, h: int) | Reset

  function Step(d: Tracker, op: Op): (e: Tracker)
    requires Ok(d)
    ensures Ok(e)
  {
    StepOk(d, op);
    match op
    case MergeOwn => MergedOwn(d)
    case Add(r) => Added(d, r)
    case AddFull => d.(full := true, rects := [])
    case Merge(src) => Merged(d, src)
    case ClipTo(w, h) => Clipped(d, w, h)
    case Reset => d.(full := false, rects := [])
  }

  lemma StepOk(d: Tracker, op: Op)
    requires Ok(d)
    ensures match op
            case Add(r) => Ok(Added(d, r))
            case Merge(src) => Ok(Merged(d, src))
            case MergeOwn => Ok(MergedOwn(d))
            case ClipTo(w, h) => Ok(Clipped(d, w, h))
            case _ => true
  {
    match op
    case Add(r) => AddedCovers(d, r, 0, 0);
    case Merge(src) => AddedAllCovers(d, src.rects, 0, 0);
    case MergeOwn => AddedOwnCovers(d, 0, 0, 0);
    case ClipTo(w, h) => ClippedIsExact(d, w, h, 0, 0);
    case _ =>
  }

  function Run(w: int, h: int, ops: seq<Op>): (d: Tracker)
    ensures Ok(d)
  {
    if ops == [] then Tracker([], false, w, h)
    else Step(Run(w, h, ops[..|ops| - 1]), ops[|ops| - 1])
  }

  /** What a call asks to have repainted. */
  ghost predicate Asks(op: Op, px: int, py: int) {
    match op
    case Add(r) => Has(r, px, py)
    case AddFull => true
    case Merge(src) => src.full || AnyHas(src.rects, px, py)
    case MergeOwn => false
    case ClipTo(_, _) => false
    case Reset => false
  }

  /** A pixel some call asked for, since the last reset, that has been on the surface since. */
  ghost predicate Due(w: int, h: int, ops: seq<Op>, px: int, py: int)
    decreases |ops|
  {
    ops != [] &&
    var d, op := Run(w, h, ops), ops[|ops| - 1];
    OnSurface(px, py, d.w, d.h) && op != Reset
    && (Asks(op, px, py) || Due(w, h, ops[..|ops| - 1], px, py))
  }

  lemma StepCovers(d: Tracker, op: Op, px: int, py: int)
    requires Ok(d)
    ensures var e := Step(d, op);
            && Ok(e)
            && (OnSurface(px, py, e.w, e.h) && op != Reset && (Asks(op, px, py) || Covered(d, px, py))
                ==> Covered(e, px, py))
  {
    match op
    case Add(r) => AddedCovers(d, r, px, py);
    case Merge(src) => AddedAllCovers(d, src.rects, px, py);
    case MergeOwn => AddedOwnCovers(d, 0, px, py);
    case ClipTo(w, h) => ClippedIsExact(d, w, h, px, py);
    case _ =>
  }

  /** Over every run of calls, no pixel that is due is ever missing from the damage, and the
      stored rectangles stay non-empty, inside the surface and within their array. */
  lemma {:induction false} NothingIsLost(w: int, h: int, ops: seq<Op>, px: int, py: int)
    ensures Ok(Run(w, h, ops))
    ensures Due(w, h, ops, px, py) ==> Covered(Run(w, h, ops), px, py)
    decreases |ops|
  {
    if ops != [] {
      NothingIsLost(w, h, ops[..|ops| - 1], px, py);
      StepCovers(Run(w, h, ops[..|ops| - 1]), ops[|ops| - 1], px, py);
    }
  }

  // ---------------------------------------------------------------- the bounding box

  function UnionAll(rs: seq<Rect>): Rect
    requires rs != []
  {
    if |rs| == 1 then rs[0] else Union(UnionAll(rs[..|rs| - 1]), rs[|rs| - 1])
  }

  function Box(d: Tracker): Rect {
    if d.rects == [] then Rect(0, 0, 0, 0)
    else if d.full then Rect(0, 0, d.w, d.h)
    else UnionAll(d.rects)
  }

  lemma {:induction false} UnionAllIsLeast(rs: seq<Rect>, c: Rect)
    requires rs != []
    ensures Within(UnionAll(rs), c) <==> forall i :: 0 <= i < |rs| ==> Within(rs[i], c)
    decreases |rs|
  {
    if |rs| > 1 {
      var init := rs[..|rs| - 1];
      UnionAllIsLeast(init, c);
      UnionBounds(UnionAll(init), rs[|rs| - 1], c);
      assert forall i :: 0 <= i < |init| ==> init[i] == rs[i];
    }
  }

  /** While not full, the box holds every covered pixel, and any rectangle that holds them all
      holds the box. */
  lemma BoxIsLeast(d: Tracker, c: Rect)
    requires Ok(d) && !d.full && d.rects != []
    ensures forall px, py :: Covered(d, px, py) ==> Has(Box(d), px, py)
    ensures (forall px, py :: Covered(d, px, py) ==> Has(c, px, py)) <==> Subset(Box(d), c)
  {
    UnionAllIsLeast(d.rects, Box(d));
    assert forall px, py :: Covered(d, px, py) ==> Has(Box(d), px, py);
    if forall px, py :: Covered(d, px, py) ==> Has(c, px, py) {
      CoveredWithin(d, c);
      UnionAllIsLeast(d.rects, c);
      assert Within(Box(d), c);
    }
  }

  lemma CoveredWithin(d: Tracker, c: Rect)
    requires Ok(d) && !d.full && forall px, py :: Covered(d, px, py) ==> Has(c, px, py)
    ensures forall i :: 0 <= i < |d.rects| ==> Within(d.rects[i], c)
  {
    forall i | 0 <= i < |d.rects|
      ensures Within(d.rects[i], c)
    {
      assert Inside(d.rects[i], d.w, d.h);
      assert forall px, py :: Has(d.rects[i], px, py) ==> Covered(d, px, py);
      WithinIsSubset(d.rects[i], c);
    }
  }

  /** Merging a tracker into itself may grow rectangles, but not past the box around them all. */
  lemma {:induction false} OwnKeepsBox(d: Tracker, i: nat)
    requires Ok(d) && !d.full
    ensures Box(AddedOwn(d, i)) == Box(d)
    decreases |d.rects| - i
  {
    if i < |d.rects| {
      var e, k := Added(d, d.rects[i]), MergeIndex(d.rects, d.rects[i], 0);
      OwnFindsRoom(d, i);
      SameBounds(d.rects, k, i);
      OwnKeepsBox(e, i + 1);
    }
  }

  lemma SameBounds(rs: seq<Rect>, k: nat, i: nat)
    requires k < |rs| && i < |rs|
    ensures UnionAll(rs[k := Union(rs[k], rs[i])]) == UnionAll(rs)
  {
    var a, b := UnionAll(rs), UnionAll(rs[k := Union(rs[k], rs[i])]);
    BoundsGrow(rs, k, i, a);
    BoundsGrow(rs, k, i, b);
  }

  lemma BoundsGrow(rs: seq<Rect>, k: nat, i: nat, c: Rect)
    requires k < |rs| && i < |rs|
    ensures Within(UnionAll(rs), c) <==> Within(UnionAll(rs[k := Union(rs[k], rs[i])]), c)
  {
    var t := rs[k := Union(rs[k], rs[i])];
    UnionAllIsLeast(rs, c);
    UnionAllIsLeast(t, c);
    UnionBounds(rs[k], rs[i], c);
    if forall j :: 0 <= j < |t| ==> Within(t[j], c) {
      assert Within(t[k], c);
      forall j | 0 <= j < |rs| ensures Within(rs[j], c) {
        assert j != k ==> t[j] == rs[j];
      }
    }
  }

  /** The box covers the damage exactly when the tracker is not full, or has no surface: once
      full, no rectangle is left to take a box of. */
  lemma BoxEnclosesExactly(d: Tracker)
    requires Ok(d)
    ensures (forall px, py :: Covered(d, px, py) ==> Has(Box(d), px, py))
            <==> !d.full || d.w <= 0 || d.h <= 0
  {
    if d.full {
      if d.w > 0 && d.h > 0 {
        assert Covered(d, 0, 0) && !Has(Box(d), 0, 0);
      }
    } else if d.rects != [] {
      BoxIsLeast(d, Box(d));
    }
  }

  // ---------------------------------------------------------------- the tracker object

  function ClippedAt(rs: seq<Rect>, i: nat, w: int, h: int): seq<Rect>
    requires i < |rs|
  {
    var c := Clamped(rs[i], w, h);
    rs[..i] + (if Empty(c) then [] else [c]) + rs[i + 1..]
  }

  /** One round of clipping in place: `done` rectangles have been seen, the others not. */
  lemma ClipOne(rs: seq<Rect>, was: seq<Rect>, done: nat, w: int, h: int)
    requires done <= |was| && rs == ClippedRects(was[..done], w, h) + was[done..]
    requires |ClippedRects(was[..done], w, h)| < |rs|
    ensures var front := ClippedRects(was[..done], w, h);
            && done < |was| && rs[|front|] == was[done]
            && ClippedAt(rs, |front|, w, h) == ClippedRects(was[..done + 1], w, h) + was[done + 1..]
            && |ClippedRects(was[..done + 1], w, h)| ==
               |front| + if Empty(Clamped(was[done], w, h)) then 0 else 1
  {
    var front := ClippedRects(was[..done], w, h);
    assert was[..done + 1][..done] == was[..done];
    assert rs[..|front|] == front && rs[|front| + 1..] == was[done + 1..];
  }

  lemma MergeStep(d: Tracker, was: Tracker, src: Tracker, i: nat)
    requires Ok(d) && Ok(src) && i < |src.rects|
    ensures d == AddedAll(was, src.rects[..i]) ==> Added(d, src.rects[i]) == AddedAll(was, src.rects[..i + 1])
    ensures d == src ==>
      var e := Added(d, d.rects[i]);
      Ok(e) && e.full == d.full && |e.rects| == |d.rects| && AddedOwn(e, i + 1) == AddedOwn(d, i)
  {
    assert src.rects[..i + 1][..i] == src.rects[..i];
    if d == src {
      OwnFindsRoom(d, i);
    }
  }

  class DamageTracker {
    const rects: array<Rect>
    var count: nat
    var full: bool
    var surfaceW: int
    var surfaceH: int

    ghost predicate Valid()
      reads this, rects
    {
      rects.Length == DAMAGE_MAX_RECTS && count <= rects.Length && Ok(State())
    }

    ghost function State(): Tracker
      requires count <= rects.Length
      reads this, rects
    {
      Tracker(rects[..count], full, surfaceW, surfaceH)
    }

    constructor (w: int, h: int)
      ensures Valid() && fresh(rects) && State() == Tracker([], false, w, h)
    {
      rects := new Rect[DAMAGE_MAX_RECTS](_ => Rect(0, 0, 0, 0));
      count, full, surfaceW, surfaceH := 0, false, w, h;
    }

    method AddRect(r: Rect)
      requires Valid()
      modifies rects, this`count, this`full
      ensures Valid() && State() == Added(old(State()), r)
    {
      AddedCovers(State(), r, 0, 0);
      if full {
        return;
      }
      var c := Clamped(r, surfaceW, surfaceH);
      if Empty(c) {
        return;
      }
      ghost var was := rects[..count];
      var i := 0;
      while i < count
        invariant 0 <= i <= count && rects[..count] == was
        invariant MergeIndex(was, c, 0) == MergeIndex(was, c, i)
      {
        if Mergeable(rects[i], c) {
          rects[i] := Union(rects[i], c);
          assert rects[..count] == was[i := Union(was[i], c)];
          return;
        }
        i := i + 1;
      }
      if count >= DAMAGE_MAX_RECTS {
        full, count := true, 0;
        return;
      }
      rects[count] := c;
      count := count + 1;
      assert rects[..count] == was + [c];
    }

    method AddFull()
      requires Valid()
      modifies this`count, this`full
      ensures Valid() && State() == Step(old(State()), Op.AddFull)
    {
      full, count := true, 0;
    }

    method Reset()
      requires Valid()
      modifies this`count, this`full
      ensures Valid() && State() == Step(old(State()), Op.Reset)
    {
      full, count := false, 0;
    }

    /** Adds everything a tracker has, be it another or this one. */
    method MergeFrom(src: DamageTracker)
      requires Valid() && src.Valid() && (src == this || src.rects != rects)
      modifies rects, this`count, this`full
      ensures Valid()
      ensures State() == if src == this then MergedOwn(old(State())) else Merged(old(State()), old(src.State()))
    {
      if src.full {
        AddFull();
        return;
      }
      ghost var all := src.rects[..src.count];
      var i := 0;
      while i < src.count
        invariant Valid() && src.Valid() && 0 <= i <= src.count == |all|
        invariant src != this ==> src.rects[..src.count] == all && State() == AddedAll(old(State()), all[..i])
        invariant src == this ==> AddedOwn(State(), i) == AddedOwn(old(State()), 0) && !full
      {
        MergeStep(State(), old(State()), src.State(), i);
        AddRect(src.rects[i]);
        i := i + 1;
      }
      assert all[..i] == all;
    }

    /** Takes rectangle `i` out by moving the ones after it down. */
    method RemoveAt(i: nat)
      requires i < count <= rects.Length
      modifies rects, this`count
      ensures count == old(count) - 1
      ensures rects[..count] == old(rects[..i] + rects[i + 1..count])
    {
      forall k | i <= k < count - 1 {
        rects[k] := rects[k + 1];
      }
      count := count - 1;
    }

    /** Clips rectangle `i`, or takes it out when nothing of it is left. */
    method ClipAt(i: nat) returns (kept: bool)
      requires i < count <= rects.Length
      modifies rects, this`count
      ensures kept == !Empty(Clamped(old(rects[..count])[i], surfaceW, surfaceH))
      ensures count == (if kept then old(count) else old(count) - 1)
      ensures rects[..count] == ClippedAt(old(rects[..count]), i, surfaceW, surfaceH)
    {
      rects[i] := Clamped(rects[i], surfaceW, surfaceH);
      kept := !Empty(rects[i]);
      if !kept {
        RemoveAt(i);
      }
    }

    /** Clips every rectangle, deleting in place the ones with nothing left. */
    method ClipAll()
      requires count <= rects.Length
      modifies rects, this`count
      ensures count <= rects.Length
      ensures rects[..count] == ClippedRects(old(rects[..count]), surfaceW, surfaceH)
    {
      ghost var was := rects[..count];
      ghost var done := 0;
      var i := 0;
      while i < count
        invariant i <= count <= rects.Length && done <= |was|
        invariant i == |ClippedRects(was[..done], surfaceW, surfaceH)|
        invariant rects[..count] == ClippedRects(was[..done], surfaceW, surfaceH) + was[done..]
        decreases count - i
      {
        ClipOne(rects[..count], was, done, surfaceW, surfaceH);
        var kept := ClipAt(i);
        if kept {
          i := i + 1;
        }
        done := done + 1;
      }
      assert was[..done] == was;
    }

    method ClipTo(w: int, h: int)
      requires Valid()
      modifies this, rects
      ensures Valid() && State() == Clipped(old(State()), w, h)
    {
      ClippedIsExact(State(), w, h, 0, 0);
      surfaceW, surfaceH := w, h;
      ClipAll();
    }

    method BoundingBox() returns (box: Rect)
      requires Valid()
      ensures box == Box(State())
    {
      box := Rect(0, 0, 0, 0);
      if count == 0 {
        return;
      }
      if full {
        return Rect(0, 0, surfaceW, surfaceH);
      }
      ghost var was := rects[..count];
      box := rects[0];
      assert was[..1] == [rects[0]];
      for i := 1 to count
        invariant box == UnionAll(was[..i])
      {
        assert was[..i + 1][..i] == was[..i];
        box := Union(box, rects[i]);
      }
      assert was[..count] == was;
    }
  }
}
