/** The compositor of graphics/server/compositor.c as a value: surfaces in z order, a framebuffer
    and the damage still to be repainted.  The theorem is that repainting only the damage never
    leaves a wrong pixel behind. */
module Scene {
  import opened Colour
  import opened Damage
  import opened Pixmap

  const COMPOSITOR_MAX_SURFACES: nat := 64
  const COMPOSITOR_MAX_DAMAGE: nat := 32

  /** The clear colour as a packed pixel: 0x1A1A2EFF read as ARGB, which is not opaque. */
  const BACKGROUND := Argb(0x1A, 0x1A, 0x2E, 0xFF)

  datatype Layer = Wallpaper | Normal | Overlay | Notification | Cursor

  datatype Surf = Surf(
    id: int, x: int, y: int, w: int, h: int, z: int, visible: bool, alpha: int, layer: Layer, buf: Image)

  datatype Comp = Comp(
    w: int, h: int, fb: Image, back: Image,
    surfaces: seq<Surf>, nextId: int, damage: seq<Rect>, full: bool)

  predicate SurfOk(s: Surf) {
    s.w > 0 && s.h > 0 && Sized(s.buf, s.w, s.h) && 0 <= s.alpha < 256
  }

  predicate AllOk(ss: seq<Surf>) {
    forall i :: 0 <= i < |ss| ==> SurfOk(ss[i])
  }

  predicate Sorted(ss: seq<Surf>) {
    forall i, j :: 0 <= i < j < |ss| ==> ss[i].z <= ss[j].z
  }

  predicate Ids(ss: seq<Surf>, nextId: int) {
    && (forall i :: 0 <= i < |ss| ==> ss[i].id < nextId)
    && forall i, j :: 0 <= i < j < |ss| ==> ss[i].id != ss[j].id
  }

  predicate Good(c: Comp) {
    && c.w > 0 && c.h > 0 && Sized(c.fb, c.w, c.h) && Sized(c.back, c.w, c.h)
    && |c.surfaces| <= COMPOSITOR_MAX_SURFACES && AllOk(c.surfaces) && Sorted(c.surfaces)
    && Ids(c.surfaces, c.nextId)
    && |c.damage| <= COMPOSITOR_MAX_DAMAGE
    && forall i :: 0 <= i < |c.damage| ==> !Empty(c.damage[i])
  }

  // ---------------------------------------------------------------- the scene

  function Frame(s: Surf): Rect {
    Rect(s.x, s.y, s.w, s.h)
  }

  /** The surface has a pixel to show here. */
  predicate Shows(s: Surf, x: int, y: int) {
    s.visible && Has(Frame(s), x, y)
  }

  /** What a surface makes of the pixel below it. */
  function Over(s: Surf, below: Argb, x: int, y: int): Argb
    requires SurfOk(s)
  {
    if !Shows(s, x, y) then below
    else
      var p := s.buf[y - s.y][x - s.x];
      if s.alpha == 255 then p else Blend(below, Faded(p, s.alpha))
  }

  /** The surfaces drawn over `below` from the first to the last. */
  function Stack(ss: seq<Surf>, below: Argb, x: int, y: int): Argb
    requires AllOk(ss)
  {
    if ss == [] then below
    else Over(ss[|ss| - 1], Stack(ss[..|ss| - 1], below, x, y), x, y)
  }

  /** Some visible surface of full opacity lies here, so nothing below it shows. */
  ghost predicate Opaque(ss: seq<Surf>, x: int, y: int) {
    exists i :: 0 <= i < |ss| && Shows(ss[i], x, y) && ss[i].alpha == 255
  }

  lemma {:induction false} StackConcat(a: seq<Surf>, b: seq<Surf>, below: Argb, x: int, y: int)
    requires AllOk(a) && AllOk(b)
    ensures AllOk(a + b) && Stack(a + b, below, x, y) == Stack(b, Stack(a, below, x, y), x, y)
    decreases |b|
  {
    if b == [] {
      assert a + b == a;
    } else {
      assert (a + b)[..|a + b| - 1] == a + b[..|b| - 1];
      StackConcat(a, b[..|b| - 1], below, x, y);
    }
  }

  /** Under an opaque surface it does not matter what was there before. */
  lemma {:induction false} BelowIsHidden(ss: seq<Surf>, p: Argb, q: Argb, x: int, y: int)
    requires AllOk(ss) && Opaque(ss, x, y)
    ensures Stack(ss, p, x, y) == Stack(ss, q, x, y)
    decreases |ss|
  {
    var init, last := ss[..|ss| - 1], ss[|ss| - 1];
    if !(Shows(last, x, y) && last.alpha == 255) {
      var i :| 0 <= i < |ss| && Shows(ss[i], x, y) && ss[i].alpha == 255;
      assert init[i] == ss[i];
      BelowIsHidden(init, p, q, x, y);
    }
  }

  /** Any middle part that shows nothing here can be replaced by another that shows nothing. */
  lemma MiddleUnseen(a: seq<Surf>, m: seq<Surf>, n: seq<Surf>, b: seq<Surf>, below: Argb, x: int, y: int)
    requires AllOk(a) && AllOk(m) && AllOk(n) && AllOk(b)
    requires |m| <= 1 && |n| <= 1
    requires forall s :: s in m || s in n ==> !Shows(s, x, y)
    ensures AllOk(a + m + b) && AllOk(a + n + b)
    ensures Stack(a + m + b, below, x, y) == Stack(a + n + b, below, x, y)
    ensures Opaque(a + m + b, x, y) <==> Opaque(a + n + b, x, y)
  {
    Dropped(a, m, b, below, x, y);
    Dropped(a, n, b, below, x, y);
  }

  lemma Dropped(a: seq<Surf>, m: seq<Surf>, b: seq<Surf>, below: Argb, x: int, y: int)
    requires AllOk(a) && AllOk(m) && AllOk(b) && |m| <= 1
    requires forall s :: s in m ==> !Shows(s, x, y)
    ensures AllOk(a + m + b) && AllOk(a + b)
    ensures Stack(a + m + b, below, x, y) == Stack(a + b, below, x, y)
    ensures Opaque(a + m + b, x, y) <==> Opaque(a + b, x, y)
  {
    DroppedStack(a, m, b, below, x, y);
    DroppedOpaque(a, m, b, x, y);
  }

  lemma DroppedStack(a: seq<Surf>, m: seq<Surf>, b: seq<Surf>, below: Argb, x: int, y: int)
    requires AllOk(a) && AllOk(m) && AllOk(b) && |m| <= 1
    requires forall s :: s in m ==> !Shows(s, x, y)
    ensures AllOk(a + m + b) && AllOk(a + b)
    ensures Stack(a + m + b, below, x, y) == Stack(a + b, below, x, y)
  {
    StackConcat(a + m, b, below, x, y);
    StackConcat(a, m, below, x, y);
    StackConcat(a, b, below, x, y);
    if m != [] {
      assert m[0] in m && m[..0] == [];
    }
  }

  lemma DroppedOpaque(a: seq<Surf>, m: seq<Surf>, b: seq<Surf>, x: int, y: int)
    requires forall s :: s in m ==> !Shows(s, x, y)
    ensures Opaque(a + m + b, x, y) <==> Opaque(a + b, x, y)
  {
    if Opaque(a + b, x, y) {
      var i :| 0 <= i < |a + b| && Shows((a + b)[i], x, y) && (a + b)[i].alpha == 255;
      var j := if i < |a| then i else i + |m|;
      assert (a + m + b)[j] == (a + b)[i];
    }
    if Opaque(a + m + b, x, y) {
      var i :| 0 <= i < |a + m + b| && Shows((a + m + b)[i], x, y) && (a + m + b)[i].alpha == 255;
      assert i < |a| || |a| + |m| <= i;
      var j := if i < |a| then i else i - |m|;
      assert (a + b)[j] == (a + m + b)[i];
    }
  }

  // ---------------------------------------------------------------- pending damage

  predicate Joins(d: Rect, r: Rect) {
    var u := Union(r, d);
    u.w * u.h <= (r.w * r.h + d.w * d.h) * 3 / 2
  }

  /** The first pending rectangle that `r` joins, or their number. */
  function JoinIndex(ds: seq<Rect>, r: Rect, i: nat): (k: nat)
    requires i <= |ds|
    ensures i <= k <= |ds|
    decreases |ds| - i
  {
    if i == |ds| || Joins(ds[i], r) then i else JoinIndex(ds, r, i + 1)
  }

  function Damaged(c: Comp, r: Rect): Comp {
    var k := JoinIndex(c.damage, r, 0);
    if Empty(r) then c
    else if |c.damage| >= COMPOSITOR_MAX_DAMAGE then c.(full := true)
    else if k < |c.damage| then c.(damage := c.damage[k := Union(r, c.damage[k])])
    else c.(damage := c.damage + [r])
  }

  lemma DamagedGood(c: Comp, r: Rect)
    requires Good(c)
    ensures Good(Damaged(c, r)) && Damaged(c, r) == c.(damage := Damaged(c, r).damage, full := Damaged(c, r).full)
    ensures c.full ==> Damaged(c, r).full
  {}

  /** Pending damage only grows, and takes in the new rectangle. */
  lemma DamagedCovers(c: Comp, r: Rect, x: int, y: int)
    requires Good(c) && !Damaged(c, r).full
    ensures AnyHas(c.damage, x, y) || Has(r, x, y) ==> AnyHas(Damaged(c, r).damage, x, y)
  {
    var e := Damaged(c, r);
    var k := JoinIndex(c.damage, r, 0);
    if AnyHas(c.damage, x, y) {
      var i :| 0 <= i < |c.damage| && Has(c.damage[i], x, y);
      assert Has(e.damage[i], x, y);
    }
    if Has(r, x, y) {
      assert Has(e.damage[k], x, y);
    }
  }

  // ---------------------------------------------------------------- z order

  /** Insertion after everything that is not above. */
  function InsertByZ(ss: seq<Surf>, s: Surf): (r: seq<Surf>)
    ensures |r| == |ss| + 1
  {
    if ss == [] || ss[|ss| - 1].z <= s.z then ss + [s]
    else InsertByZ(ss[..|ss| - 1], s) + [ss[|ss| - 1]]
  }

  function SortByZ(ss: seq<Surf>): (r: seq<Surf>)
    ensures |r| == |ss|
  {
    if ss == [] then [] else InsertByZ(SortByZ(ss[..|ss| - 1]), ss[|ss| - 1])
  }

  /** Where an insertion puts the surface: before exactly those above it. */
  lemma {:induction false} InsertSplits(ss: seq<Surf>, s: Surf) returns (k: nat)
    requires Sorted(ss)
    ensures k <= |ss| && InsertByZ(ss, s) == ss[..k] + [s] + ss[k..]
    ensures forall i :: 0 <= i < |ss| ==> (i < k <==> ss[i].z <= s.z)
    decreases |ss|
  {
    if ss == [] || ss[|ss| - 1].z <= s.z {
      k := |ss|;
      assert ss[..k] == ss && ss[k..] == [];
    } else {
      var init, last := ss[..|ss| - 1], ss[|ss| - 1];
      assert Sorted(init);
      k := InsertSplits(init, s);
      assert init[..k] == ss[..k] && init[k..] + [last] == ss[k..];
      assert (ss[..k] + [s] + init[k..]) + [last] == ss[..k] + [s] + (init[k..] + [last]);
    }
  }

  lemma InsertSorts(ss: seq<Surf>, s: Surf)
    requires Sorted(ss)
    ensures Sorted(InsertByZ(ss, s)) && multiset(InsertByZ(ss, s)) == multiset(ss) + multiset{s}
  {
    var k := InsertSplits(ss, s);
    assert ss == ss[..k] + ss[k..];
    SplicedSorted(ss, s, k);
  }

  lemma SplicedSorted(ss: seq<Surf>, s: Surf, k: nat)
    requires Sorted(ss) && k <= |ss| && forall i :: 0 <= i < |ss| ==> (i < k <==> ss[i].z <= s.z)
    ensures Sorted(ss[..k] + [s] + ss[k..])
  {
    var r := ss[..k] + [s] + ss[k..];
    assert forall i :: 0 <= i < |r| ==> r[i] == if i < k then ss[i] else if i == k then s else ss[i - 1];
  }

  /** The result is in z order and holds the same surfaces. */
  lemma {:induction false} SortSorts(ss: seq<Surf>)
    ensures Sorted(SortByZ(ss)) && multiset(SortByZ(ss)) == multiset(ss)
    decreases |ss|
  {
    if ss != [] {
      var init, last := ss[..|ss| - 1], ss[|ss| - 1];
      SortSorts(init);
      InsertSorts(SortByZ(init), last);
      assert ss == init + [last];
    }
  }

  lemma {:induction false} SortedIsFixed(ss: seq<Surf>)
    requires Sorted(ss)
    ensures SortByZ(ss) == ss
    decreases |ss|
  {
    if ss != [] {
      var init, last := ss[..|ss| - 1], ss[|ss| - 1];
      SortedIsFixed(init);
      InsertLast(init, last);
      assert ss == init + [last];
    }
  }

  lemma InsertLast(ss: seq<Surf>, s: Surf)
    requires ss == [] || ss[|ss| - 1].z <= s.z
    ensures InsertByZ(ss, s) == ss + [s]
  {}

  // ---------------------------------------------------------------- repainting

  /** The back buffer after a region has been cleared and its surfaces drawn. */
  function Painted(back: Image, r: Rect, ss: seq<Surf>, w: nat, h: nat): (im: Image)
    requires Sized(back, w, h) && AllOk(ss)
    ensures Sized(im, w, h)
    ensures forall y, x {:trigger im[y][x]} :: 0 <= y < h && 0 <= x < w ==>
      im[y][x] == if Has(r, x, y) then Stack(ss, Blend(back[y][x], BACKGROUND), x, y) else back[y][x]
  {
    seq(h, y requires 0 <= y < h => seq(w, x requires 0 <= x < w =>
      if Has(r, x, y) then Stack(ss, Blend(back[y][x], BACKGROUND), x, y) else back[y][x]))
  }

  /** An image with a region of another copied over it. */
  function Copied(im: Image, r: Rect, from: Image, w: nat, h: nat): (res: Image)
    requires Sized(im, w, h) && Sized(from, w, h)
    ensures Sized(res, w, h)
    ensures forall y, x {:trigger res[y][x]} :: 0 <= y < h && 0 <= x < w ==>
      res[y][x] == if Has(r, x, y) then from[y][x] else im[y][x]
  {
    seq(h, y requires 0 <= y < h => seq(w, x requires 0 <= x < w =>
      if Has(r, x, y) then from[y][x] else im[y][x]))
  }

  function RegionDone(c: Comp, r: Rect): (e: Comp)
    requires Good(c)
    ensures Good(e) && e == c.(fb := e.fb, back := e.back)
  {
    var back := Painted(c.back, r, c.surfaces, c.w, c.h);
    c.(back := back, fb := Copied(c.fb, r, back, c.w, c.h))
  }

  function RegionsDone(c: Comp, rs: seq<Rect>): (e: Comp)
    requires Good(c)
    ensures Good(e) && e == c.(fb := e.fb, back := e.back)
    decreases |rs|
  {
    if rs == [] then c else RegionDone(RegionsDone(c, rs[..|rs| - 1]), rs[|rs| - 1])
  }

  function Composited(c: Comp): Comp
    requires Good(c)
  {
    if c.full then RegionDone(c, Rect(0, 0, c.w, c.h)).(full := false, damage := [])
    else RegionsDone(c, c.damage).(damage := [])
  }

  /** The framebuffer shows the scene here, if an opaque surface decides what the scene is. */
  ghost predicate RightAt(c: Comp, x: int, y: int)
    requires Good(c) && OnSurface(x, y, c.w, c.h)
  {
    Opaque(c.surfaces, x, y) ==> c.fb[y][x] == Stack(c.surfaces, BACKGROUND, x, y)
  }

  /** Unless a full redraw is pending, every pixel outside the pending damage is right. */
  ghost predicate Repainted(c: Comp)
    requires Good(c)
  {
    c.full || forall x, y :: OnSurface(x, y, c.w, c.h) && !AnyHas(c.damage, x, y) ==> RightAt(c, x, y)
  }

  lemma RegionIsRight(c: Comp, r: Rect, x: int, y: int)
    requires Good(c) && OnSurface(x, y, c.w, c.h)
    ensures Has(r, x, y) || RightAt(c, x, y) ==> RightAt(RegionDone(c, r), x, y)
  {
    var e := RegionDone(c, r);
    if Has(r, x, y) && Opaque(c.surfaces, x, y) {
      BelowIsHidden(c.surfaces, Blend(c.back[y][x], BACKGROUND), BACKGROUND, x, y);
      assert e.fb[y][x] == e.back[y][x];
    }
  }

  lemma {:induction false} RegionsAreRight(c: Comp, rs: seq<Rect>, x: int, y: int)
    requires Good(c) && OnSurface(x, y, c.w, c.h)
    ensures AnyHas(rs, x, y) || RightAt(c, x, y) ==> RightAt(RegionsDone(c, rs), x, y)
    decreases |rs|
  {
    if rs != [] {
      var init, last := rs[..|rs| - 1], rs[|rs| - 1];
      RegionsAreRight(c, init, x, y);
      AnyHasSnoc(init, last, x, y);
      assert rs == init + [last];
      RegionIsRight(RegionsDone(c, init), last, x, y);
    }
  }

  /** After compositing, every pixel under an opaque surface is right, whatever was pending. */
  lemma CompositedIsRight(c: Comp)
    requires Good(c) && Repainted(c)
    ensures var e := Composited(c);
            && Good(e) && !e.full && e.damage == []
            && forall x, y :: OnSurface(x, y, c.w, c.h) ==> RightAt(e, x, y)
  {
    var e := Composited(c);
    forall x, y | OnSurface(x, y, c.w, c.h)
      ensures RightAt(e, x, y)
    {
      if c.full {
        RegionIsRight(c, Rect(0, 0, c.w, c.h), x, y);
      } else {
        RegionsAreRight(c, c.damage, x, y);
      }
    }
  }

  // ---------------------------------------------------------------- one call

  function BaseZ(layer: Layer): int {
    match layer
    case Wallpaper => 0
    case Normal => 100
    case Overlay => 200
    case Notification => 300
    case Cursor => 400
  }

  function Blank(w: nat, h: nat): (im: Image)
    ensures Sized(im, w, h)
  {
    seq(h, _ => seq(w, _ => CLEAR))
  }

  /** The slot of the surface with this id, or the number of surfaces. */
  function IndexOf(ss: seq<Surf>, id: int): (k: nat)
    ensures k <= |ss| && (k < |ss| ==> ss[k].id == id)
    ensures forall i :: 0 <= i < k ==> ss[i].id != id
  {
    if ss == [] then 0
    else
      var k := IndexOf(ss[..|ss| - 1], id);
      if k < |ss| - 1 || ss[|ss| - 1].id == id then k else |ss|
  }

  function Clip255(a: int): int {
    if a < 0 then 0 else if a > 255 then 255 else a
  }

  function NewSurf(c: Comp, x: int, y: int, w: nat, h: nat, layer: Layer): Surf {
    Surf(c.nextId, x, y, w, h, BaseZ(layer), true, 255, layer, Blank(w, h))
  }

  predicate CanCreate(c: Comp, w: int, h: int) {
    |c.surfaces| < COMPOSITOR_MAX_SURFACES && w > 0 && h > 0
  }

  function Created(c: Comp, x: int, y: int, w: int, h: int, layer: Layer): Comp {
    if !CanCreate(c, w, h) then c
    else c.(surfaces := SortByZ(c.surfaces + [NewSurf(c, x, y, w, h, layer)]),
            nextId := c.nextId + 1, full := true)
  }

  function Destroyed(c: Comp, i: nat): Comp
    requires i < |c.surfaces|
  {
    Damaged(c, Frame(c.surfaces[i])).(surfaces := c.surfaces[..i] + c.surfaces[i + 1..])
  }

  /** Surface `i` becomes `s`, which takes up the same place or is invisible. */
  function Altered(c: Comp, i: nat, s: Surf): Comp
    requires i < |c.surfaces|
  {
    Damaged(c, Frame(c.surfaces[i])).(surfaces := c.surfaces[i := s])
  }

  /** Surface `i` becomes `s`, which may lie somewhere else. */
  function Shifted(c: Comp, i: nat, s: Surf): Comp
    requires i < |c.surfaces|
  {
    Damaged(Altered(c, i, s), Frame(s))
  }

  datatype Op =
    | Create(x: int, y: int, w: int, h: int, layer: Layer)
    | Destroy(id: int)
    | Move(id: int, x: int, y: int)
    | Resize(id: int, w: int, h: int)
    | SetAlpha(id: int, alpha: int)
    | Show(id: int)
    | Hide(id: int)
    | Draw(id: int, buf: Image)
    | DamageArea(r: Rect)
    | Composite

  /** A call on the surface in slot `i`. */
  function SurfStep(c: Comp, op: Op, i: nat): Comp
    requires i < |c.surfaces|
  {
    var s := c.surfaces[i];
    match op
    case Destroy(_) => Destroyed(c, i)
    case Move(_, x, y) => Shifted(c, i, s.(x := x, y := y))
    case Resize(_, w, h) => if w <= 0 || h <= 0 then c else Shifted(c, i, s.(w := w, h := h, buf := Blank(w, h)))
    case SetAlpha(_, a) => Altered(c, i, s.(alpha := Clip255(a)))
    case Show(_) => if s.visible then c else Altered(c, i, s.(visible := true))
    case Hide(_) => if s.visible then Altered(c, i, s.(visible := false)) else c
    case Draw(_, buf) => if Sized(buf, s.w, s.h) then Altered(c, i, s.(buf := buf)) else c
    case _ => c
  }

  function Step(c: Comp, op: Op): Comp
    requires Good(c)
  {
    match op
    case Create(x, y, w, h, layer) => Created(c, x, y, w, h, layer)
    case DamageArea(r) => Damaged(c, r)
    case Composite => Composited(c)
    case _ =>
      var i := IndexOf(c.surfaces, op.id);
      if i < |c.surfaces| then SurfStep(c, op, i) else c
  }

  // ---------------------------------------------------------------- every call keeps it

  /** The scene is the same here before and after. */
  ghost predicate SameScene(a: seq<Surf>, b: seq<Surf>, x: int, y: int)
    requires AllOk(a) && AllOk(b)
  {
    Stack(a, BACKGROUND, x, y) == Stack(b, BACKGROUND, x, y) && (Opaque(a, x, y) <==> Opaque(b, x, y))
  }

  /** A call that leaves the framebuffer alone and damages every pixel whose scene it changes. */
  lemma StaysRepainted(c: Comp, e: Comp)
    requires Good(c) && Repainted(c) && Good(e)
    requires e.fb == c.fb && e.w == c.w && e.h == c.h && (c.full ==> e.full)
    requires forall x, y :: OnSurface(x, y, c.w, c.h) && !e.full && !AnyHas(e.damage, x, y) ==>
      !AnyHas(c.damage, x, y) && SameScene(c.surfaces, e.surfaces, x, y)
    ensures Repainted(e)
  {
    if !e.full {
      forall x, y | OnSurface(x, y, e.w, e.h) && !AnyHas(e.damage, x, y)
        ensures RightAt(e, x, y)
      {
        assert RightAt(c, x, y);
      }
    }
  }

  predicate SameSlot(s: Surf, t: Surf) {
    t.id == s.id && t.z == s.z && SurfOk(t)
  }

  lemma ReplaceGood(c: Comp, i: nat, s: Surf)
    requires Good(c) && i < |c.surfaces| && SameSlot(c.surfaces[i], s)
    ensures Good(c.(surfaces := c.surfaces[i := s]))
  {}

  lemma ReplaceUnseen(ss: seq<Surf>, i: nat, s: Surf, x: int, y: int)
    requires AllOk(ss) && i < |ss| && SurfOk(s) && !Shows(ss[i], x, y) && !Shows(s, x, y)
    ensures AllOk(ss[i := s]) && SameScene(ss, ss[i := s], x, y)
  {
    var a, b := ss[..i], ss[i + 1..];
    MiddleUnseen(a, [ss[i]], [s], b, BACKGROUND, x, y);
    assert ss == a + [ss[i]] + b && ss[i := s] == a + [s] + b;
  }

  lemma AlteredStays(c: Comp, i: nat, s: Surf)
    requires Good(c) && Repainted(c) && i < |c.surfaces| && SameSlot(c.surfaces[i], s)
    requires Frame(s) == Frame(c.surfaces[i])
    ensures Good(Altered(c, i, s)) && Repainted(Altered(c, i, s))
  {
    var r := Frame(c.surfaces[i]);
    DamagedGood(c, r);
    ReplaceGood(Damaged(c, r), i, s);
    var e := Altered(c, i, s);
    forall x, y | OnSurface(x, y, c.w, c.h) && !e.full && !AnyHas(e.damage, x, y)
      ensures !AnyHas(c.damage, x, y) && SameScene(c.surfaces, e.surfaces, x, y)
    {
      DamagedCovers(c, r, x, y);
      ReplaceUnseen(c.surfaces, i, s, x, y);
    }
    StaysRepainted(c, e);
  }

  lemma ShiftedStays(c: Comp, i: nat, s: Surf)
    requires Good(c) && Repainted(c) && i < |c.surfaces| && SameSlot(c.surfaces[i], s)
    ensures Good(Shifted(c, i, s)) && Repainted(Shifted(c, i, s))
  {
    var r := Frame(c.surfaces[i]);
    DamagedGood(c, r);
    ReplaceGood(Damaged(c, r), i, s);
    var m := Altered(c, i, s);
    DamagedGood(m, Frame(s));
    var e := Shifted(c, i, s);
    forall x, y | OnSurface(x, y, c.w, c.h) && !e.full && !AnyHas(e.damage, x, y)
      ensures !AnyHas(c.damage, x, y) && SameScene(c.surfaces, e.surfaces, x, y)
    {
      DamagedCovers(c, r, x, y);
      DamagedCovers(m, Frame(s), x, y);
      ReplaceUnseen(c.surfaces, i, s, x, y);
    }
    StaysRepainted(c, e);
  }

  lemma DestroyedStays(c: Comp, i: nat)
    requires Good(c) && Repainted(c) && i < |c.surfaces|
    ensures Good(Destroyed(c, i)) && Repainted(Destroyed(c, i))
  {
    var e := Destroyed(c, i);
    DestroyedGood(c, i);
    forall x, y | OnSurface(x, y, c.w, c.h) && !e.full && !AnyHas(e.damage, x, y)
      ensures !AnyHas(c.damage, x, y) && SameScene(c.surfaces, e.surfaces, x, y)
    {
      DestroyedSame(c, i, x, y);
    }
    StaysRepainted(c, e);
  }

  lemma DestroyedGood(c: Comp, i: nat)
    requires Good(c) && i < |c.surfaces|
    ensures var e := Destroyed(c, i);
            Good(e) && e.fb == c.fb && e.w == c.w && e.h == c.h && (c.full ==> e.full)
  {
    DamagedGood(c, Frame(c.surfaces[i]));
  }

  lemma DestroyedSame(c: Comp, i: nat, x: int, y: int)
    requires Good(c) && i < |c.surfaces|
    requires var e := Destroyed(c, i); !e.full && !AnyHas(e.damage, x, y) && AllOk(e.surfaces)
    ensures !AnyHas(c.damage, x, y) && SameScene(c.surfaces, Destroyed(c, i).surfaces, x, y)
  {
    DamagedCovers(c, Frame(c.surfaces[i]), x, y);
    var a, b := c.surfaces[..i], c.surfaces[i + 1..];
    assert c.surfaces == a + [c.surfaces[i]] + b;
    Dropped(a, [c.surfaces[i]], b, BACKGROUND, x, y);
  }

  lemma DamagedStays(c: Comp, r: Rect)
    requires Good(c) && Repainted(c)
    ensures Good(Damaged(c, r)) && Repainted(Damaged(c, r))
  {
    DamagedGood(c, r);
    var e := Damaged(c, r);
    forall x, y | OnSurface(x, y, c.w, c.h) && !e.full && !AnyHas(e.damage, x, y)
      ensures !AnyHas(c.damage, x, y) && SameScene(c.surfaces, e.surfaces, x, y)
    {
      DamagedCovers(c, r, x, y);
    }
    StaysRepainted(c, e);
  }

  lemma InsertedOk(ss: seq<Surf>, s: Surf)
    requires AllOk(ss) && Sorted(ss) && SurfOk(s) && Ids(ss, s.id)
    ensures var r := InsertByZ(ss, s);
            |r| == |ss| + 1 && AllOk(r) && Sorted(r) && Ids(r, s.id + 1)
  {
    InsertSorts(ss, s);
    var k := InsertSplits(ss, s);
    InsertedAllOk(ss, s, k);
    InsertedIds(ss, s, k);
  }

  lemma InsertedAllOk(ss: seq<Surf>, s: Surf, k: nat)
    requires k <= |ss| && AllOk(ss) && SurfOk(s)
    ensures AllOk(ss[..k] + [s] + ss[k..])
  {}

  lemma InsertedIds(ss: seq<Surf>, s: Surf, k: nat)
    requires k <= |ss| && Ids(ss, s.id)
    ensures Ids(ss[..k] + [s] + ss[k..], s.id + 1)
  {
    var r := ss[..k] + [s] + ss[k..];
    assert forall i :: 0 <= i < |r| ==> r[i] == if i < k then ss[i] else if i == k then s else ss[i - 1];
  }

  lemma CreatedGood(c: Comp, x: int, y: int, w: int, h: int, layer: Layer)
    requires Good(c)
    ensures Good(Created(c, x, y, w, h, layer))
  {
    if CanCreate(c, w, h) {
      var s := NewSurf(c, x, y, w, h, layer);
      SortedIsFixed(c.surfaces);
      assert (c.surfaces + [s])[..|c.surfaces|] == c.surfaces;
      InsertedOk(c.surfaces, s);
    }
  }

  /** The id create returns is read from the slot it filled, after sorting: it is the new
      surface's id exactly when no surface lies above the new one's layer. */
  lemma CreatedIdExactly(c: Comp, x: int, y: int, w: int, h: int, layer: Layer)
    requires Good(c) && CanCreate(c, w, h)
    ensures var e := Created(c, x, y, w, h, layer);
            && |e.surfaces| == |c.surfaces| + 1
            && (e.surfaces[|c.surfaces|].id == c.nextId
                <==> forall i :: 0 <= i < |c.surfaces| ==> c.surfaces[i].z <= BaseZ(layer))
  {
    var s := NewSurf(c, x, y, w, h, layer);
    SortedIsFixed(c.surfaces);
    assert (c.surfaces + [s])[..|c.surfaces|] == c.surfaces;
    var k := InsertSplits(c.surfaces, s);
    assert k < |c.surfaces| ==> c.surfaces[k].z > s.z;
  }

  lemma SurfStepStays(c: Comp, op: Op, i: nat)
    requires Good(c) && Repainted(c) && i < |c.surfaces|
    ensures Good(SurfStep(c, op, i)) && Repainted(SurfStep(c, op, i))
  {
    var s := c.surfaces[i];
    match op
    case Destroy(_) => DestroyedStays(c, i);
    case Move(_, x, y) => ShiftedStays(c, i, s.(x := x, y := y));
    case Resize(_, w, h) =>
      if w > 0 && h > 0 {
        ShiftedStays(c, i, s.(w := w, h := h, buf := Blank(w, h)));
      }
    case SetAlpha(_, a) => AlteredStays(c, i, s.(alpha := Clip255(a)));
    case Show(_) => AlteredStays(c, i, s.(visible := true));
    case Hide(_) => AlteredStays(c, i, s.(visible := false));
    case Draw(_, buf) =>
      if Sized(buf, s.w, s.h) {
        AlteredStays(c, i, s.(buf := buf));
      }
    case _ =>
  }

  /** Every call keeps the compositor repainted outside its pending damage. */
  lemma StepStays(c: Comp, op: Op)
    requires Good(c) && Repainted(c)
    ensures Good(Step(c, op)) && Repainted(Step(c, op))
  {
    match op
    case Create(x, y, w, h, layer) => CreatedGood(c, x, y, w, h, layer);
    case DamageArea(r) => DamagedStays(c, r);
    case Composite => CompositedIsRight(c);
    case _ =>
      var i := IndexOf(c.surfaces, op.id);
      if i < |c.surfaces| {
        SurfStepStays(c, op, i);
      }
  }

  lemma StepKeepsSize(c: Comp, op: Op)
    requires Good(c)
    ensures Step(c, op).w == c.w && Step(c, op).h == c.h
  {
    match op
    case Create(_, _, _, _, _) =>
    case DamageArea(r) => DamagedGood(c, r);
    case Composite =>
    case _ =>
      var i := IndexOf(c.surfaces, op.id);
      if i < |c.surfaces| {
        SurfStepKeepsSize(c, op, i);
      }
  }

  lemma DamagedKeepsSize(c: Comp, r: Rect)
    ensures Damaged(c, r).w == c.w && Damaged(c, r).h == c.h
  {}

  lemma SurfStepKeepsSize(c: Comp, op: Op, i: nat)
    requires i < |c.surfaces|
    ensures SurfStep(c, op, i).w == c.w && SurfStep(c, op, i).h == c.h
  {
    var r := Frame(c.surfaces[i]);
    DamagedKeepsSize(c, r);
    match op
    case Move(_, x, y) =>
      var s := c.surfaces[i].(x := x, y := y);
      DamagedKeepsSize(Altered(c, i, s), Frame(s));
    case Resize(_, w, h) =>
      if w > 0 && h > 0 {
        var s := c.surfaces[i].(w := w, h := h, buf := Blank(w, h));
        DamagedKeepsSize(Altered(c, i, s), Frame(s));
      }
    case _ =>
  }

  // ---------------------------------------------------------------- whole runs

  function New(w: nat, h: nat, fb: Image): Comp {
    Comp(w, h, fb, Blank(w, h), [], 1, [], true)
  }

  function Run(c: Comp, ops: seq<Op>): (e: Comp)
    requires Good(c) && Repainted(c)
    ensures Good(e) && Repainted(e) && e.w == c.w && e.h == c.h
    decreases |ops|
  {
    if ops == [] then c else StepStays(c, ops[0]); StepKeepsSize(c, ops[0]); Run(Step(c, ops[0]), ops[1..])
  }

  lemma NewIsRepainted(w: nat, h: nat, fb: Image)
    requires w > 0 && h > 0 && Sized(fb, w, h)
    ensures Good(New(w, h, fb)) && Repainted(New(w, h, fb))
  {}

  /** From any framebuffer contents and over every sequence of calls: a composite leaves every
      pixel under an opaque surface showing the scene, no matter how little it repainted. */
  lemma IncrementalIsComplete(w: nat, h: nat, fb: Image, ops: seq<Op>, x: int, y: int)
    requires w > 0 && h > 0 && Sized(fb, w, h) && OnSurface(x, y, w, h)
    ensures Good(New(w, h, fb)) && Repainted(New(w, h, fb))
    ensures var e := Step(Run(New(w, h, fb), ops), Composite);
            Good(e) && e.w == w && e.h == h && RightAt(e, x, y)
  {
    NewIsRepainted(w, h, fb);
    CompositedIsRight(Run(New(w, h, fb), ops));
  }
}
