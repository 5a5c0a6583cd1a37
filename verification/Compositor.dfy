/** The compositor object: pixel loops over the back buffer and the framebuffer, an insertion sort
    and a damage list, changed in place and proved to do what Scene says. */
module Compositor {
  import opened Colour
  import opened Damage
  import opened Pixmap
  import opened Scene

  // ---------------------------------------------------------------- translucent surfaces

  predicate Fits(a: array2<Argb>, w: int, h: int) {
    a.Length0 == h && a.Length1 == w
  }

  /** What a translucent surface blends in at one of its pixels. */
  function Tint(s: Surf, x: int, y: int): Argb
    requires SurfOk(s) && Has(Frame(s), x, y)
  {
    Faded(s.buf[y - s.y][x - s.x], s.alpha)
  }

  predicate Covers(s: Surf, r: Rect, dst: array2<Argb>) {
    && SurfOk(s) && Within(r, Frame(s)) && r.w >= 0 && r.h >= 0
    && 0 <= r.x && 0 <= r.y && r.x + r.w <= dst.Length1 && r.y + r.h <= dst.Length0
  }

  /** Draws the part of a translucent surface inside a rectangle over what is there. */
  method BlendRect(dst: array2<Argb>, s: Surf, r: Rect)
    requires Covers(s, r, dst)
    modifies dst
    ensures forall y, x :: 0 <= y < dst.Length0 && 0 <= x < dst.Length1 ==>
      dst[y, x] == if Has(r, x, y) then Blend(old(dst[y, x]), Tint(s, x, y)) else old(dst[y, x])
  {
    for py := 0 to r.h
      invariant forall y, x :: 0 <= y < dst.Length0 && 0 <= x < dst.Length1 ==>
        dst[y, x] == if Has(r, x, y) && y < r.y + py then Blend(old(dst[y, x]), Tint(s, x, y)) else old(dst[y, x])
    {
      BlendRow(dst, s, r, r.y + py);
    }
  }

  method BlendRow(dst: array2<Argb>, s: Surf, r: Rect, row: int)
    requires Covers(s, r, dst) && r.y <= row < r.y + r.h
    modifies dst
    ensures forall y, x :: 0 <= y < dst.Length0 && 0 <= x < dst.Length1 ==>
      dst[y, x] == if y == row && Has(r, x, y) then Blend(old(dst[y, x]), Tint(s, x, y)) else old(dst[y, x])
  {
    for px := 0 to r.w
      invariant forall y, x :: 0 <= y < dst.Length0 && 0 <= x < dst.Length1 ==>
        dst[y, x] == if y == row && Has(r, x, y) && x < r.x + px then Blend(old(dst[y, x]), Tint(s, x, y))
                     else old(dst[y, x])
    {
      BlendPixel(dst, s, r.x + px, row);
    }
  }

  method BlendPixel(dst: array2<Argb>, s: Surf, px: int, py: int)
    requires 0 <= px < dst.Length1 && 0 <= py < dst.Length0 && SurfOk(s) && Has(Frame(s), px, py)
    modifies dst
    ensures forall y, x :: 0 <= y < dst.Length0 && 0 <= x < dst.Length1 ==>
      dst[y, x] == if y == py && x == px then Blend(old(dst[y, x]), Tint(s, x, y)) else old(dst[y, x])
  {
    dst[py, px] := Blend(dst[py, px], Tint(s, px, py));
  }

  // ---------------------------------------------------------------- the compositor object

  /** A list with one more entry in place `k`, followed by others. */
  function Gapped(ss: seq<Surf>, k: nat, hole: Surf, rest: seq<Surf>): seq<Surf>
    requires k <= |ss|
  {
    ss[..k] + [hole] + ss[k..] + rest
  }

  lemma GapMoves(ss: seq<Surf>, k: nat, hole: Surf, rest: seq<Surf>)
    requires 0 < k <= |ss|
    ensures var cur := Gapped(ss, k, hole, rest);
            cur[k - 1] == ss[k - 1] && cur[k := cur[k - 1]] == Gapped(ss, k - 1, ss[k - 1], rest)
  {
    assert ss[..k] == ss[..k - 1] + [ss[k - 1]] && ss[k - 1..] == [ss[k - 1]] + ss[k..];
  }

  lemma GapFilled(ss: seq<Surf>, k: nat, hole: Surf, s: Surf, rest: seq<Surf>)
    requires k <= |ss| && (k > 0 ==> Gapped(ss, k, hole, rest)[k - 1].z <= s.z)
    requires InsertByZ(ss, s) == InsertByZ(ss[..k], s) + ss[k..]
    ensures Gapped(ss, k, hole, rest)[k := s] == InsertByZ(ss, s) + rest
  {
    assert InsertByZ(ss[..k], s) == ss[..k] + [s];
    assert Gapped(ss, k, hole, rest)[k := s] == ss[..k] + [s] + ss[k..] + rest;
  }

  lemma InsertPasses(ss: seq<Surf>, j: nat, s: Surf)
    requires j < |ss| && ss[j].z > s.z
    ensures InsertByZ(ss[..j + 1], s) + ss[j + 1..] == InsertByZ(ss[..j], s) + ss[j..]
  {
    assert ss[..j + 1][..j] == ss[..j] && ss[j..] == [ss[j]] + ss[j + 1..];
  }

  /** The next surface to be sorted in, and what stands before and after it. */
  lemma NextUnsorted(sorted: seq<Surf>, was: seq<Surf>, i: nat)
    requires |sorted| == i < |was|
    ensures var now := sorted + was[i..];
            now[..i] == sorted && now[i] == was[i] && now[i + 1..] == was[i + 1..]
  {}

  class Compositor {
    const fb: array2<Argb>
    const back: array2<Argb>
    var surfaces: seq<Surf>
    var nextId: int
    var damage: seq<Rect>
    var fullRedraw: bool

    ghost function State(): Comp
      reads this, fb, back
    {
      Comp(fb.Length1, fb.Length0, Snapshot(fb), Snapshot(back), surfaces, nextId, damage, fullRedraw)
    }

    ghost predicate Valid()
      reads this, fb, back
    {
      fb != back && Fits(back, fb.Length1, fb.Length0) && Good(State())
    }

    /** Takes over a framebuffer, whatever it shows. */
    constructor (framebuffer: array2<Argb>)
      requires framebuffer.Length0 > 0 && framebuffer.Length1 > 0
      ensures Valid() && fb == framebuffer && fresh(back)
      ensures State() == New(fb.Length1, fb.Length0, Snapshot(fb))
    {
      fb := framebuffer;
      back := new Argb[framebuffer.Length0, framebuffer.Length1]((_, _) => CLEAR);
      surfaces, nextId, damage, fullRedraw := [], 1, [], true;
      new;
      SameImage(Snapshot(back), Blank(fb.Length1, fb.Length0), fb.Length1, fb.Length0);
    }

    method FindSurface(id: int) returns (k: nat)
      ensures k == IndexOf(surfaces, id)
    {
      k := 0;
      while k < |surfaces|
        invariant k <= |surfaces| && forall i :: 0 <= i < k ==> surfaces[i].id != id
      {
        if surfaces[k].id == id {
          return;
        }
        k := k + 1;
      }
    }

    // -------------------------------------------------------------- z order

    /** Shifts the slots before `i` that lie above `tmp` up by one, leaving a gap at `k`. */
    method OpenGap(i: nat, tmp: Surf) returns (k: nat, ghost hole: Surf)
      requires i < |surfaces|
      modifies this`surfaces
      ensures k <= i && |surfaces| == |old(surfaces)|
      ensures surfaces == Gapped(old(surfaces)[..i], k, hole, old(surfaces)[i + 1..])
      ensures k > 0 ==> surfaces[k - 1].z <= tmp.z
      ensures var sorted := old(surfaces)[..i];
              InsertByZ(sorted, tmp) == InsertByZ(sorted[..k], tmp) + sorted[k..]
    {
      ghost var sorted, rest := surfaces[..i], surfaces[i + 1..];
      hole := surfaces[i];
      var j: int := i - 1;
      assert surfaces == Gapped(sorted, j + 1, hole, rest) && sorted[..i] == sorted;
      while j >= 0 && surfaces[j].z > tmp.z
        invariant -1 <= j < i && surfaces == Gapped(sorted, j + 1, hole, rest)
        invariant InsertByZ(sorted, tmp) == InsertByZ(sorted[..j + 1], tmp) + sorted[j + 1..]
      {
        GapMoves(sorted, j + 1, hole, rest);
        InsertPasses(sorted, j, tmp);
        hole := surfaces[j];
        surfaces := surfaces[j + 1 := surfaces[j]];
        j := j - 1;
      }
      k := j + 1;
    }

    /** Moves the surface in slot `i` down past those above it; the slots before are sorted. */
    method SiftDown(i: nat)
      requires i < |surfaces|
      modifies this`surfaces
      ensures surfaces == InsertByZ(old(surfaces)[..i], old(surfaces)[i]) + old(surfaces)[i + 1..]
    {
      var tmp := surfaces[i];
      var k, hole := OpenGap(i, tmp);
      GapFilled(old(surfaces)[..i], k, hole, tmp, old(surfaces)[i + 1..]);
      surfaces := surfaces[k := tmp];
    }

    method SortSurfaces()
      modifies this`surfaces
      ensures surfaces == SortByZ(old(surfaces))
    {
      ghost var was := surfaces;
      if |surfaces| == 0 {
        return;
      }
      assert was[..1][..0] == [] && SortByZ(was[..1]) == [was[0]];
      assert was == [was[0]] + was[1..];
      for i := 1 to |surfaces|
        invariant |surfaces| == |was| && surfaces == SortByZ(was[..i]) + was[i..]
        invariant |SortByZ(was[..i])| == i
      {
        NextUnsorted(SortByZ(was[..i]), was, i);
        SiftDown(i);
        assert was[..i + 1][..i] == was[..i];
      }
      assert was[..|was|] == was;
    }

    // -------------------------------------------------------------- damage

    method DamageRect(r: Rect)
      requires Valid()
      modifies this`damage, this`fullRedraw
      ensures Valid() && State() == Damaged(old(State()), r)
    {
      DamagedGood(State(), r);
      if r.w <= 0 || r.h <= 0 {
        return;
      }
      if |damage| >= COMPOSITOR_MAX_DAMAGE {
        fullRedraw := true;
        return;
      }
      var i := 0;
      while i < |damage|
        invariant 0 <= i <= |damage| && JoinIndex(damage, r, 0) == JoinIndex(damage, r, i)
      {
        if Joins(damage[i], r) {
          damage := damage[i := Union(r, damage[i])];
          return;
        }
        i := i + 1;
      }
      damage := damage + [r];
    }

    // -------------------------------------------------------------- compositing

    /** Draws one surface over the back buffer inside a region. */
    method DrawSurface(s: Surf, r: Rect)
      requires SurfOk(s) && Inside(r, back.Length1, back.Length0)
      modifies back
      ensures forall y, x :: 0 <= y < back.Length0 && 0 <= x < back.Length1 ==>
        back[y, x] == if Has(r, x, y) then Over(s, old(back[y, x]), x, y) else old(back[y, x])
    {
      if !s.visible {
        return;
      }
      var ox, oy := if r.x > s.x then r.x else s.x, if r.y > s.y then r.y else s.y;
      var ox2 := if r.x + r.w < s.x + s.w then r.x + r.w else s.x + s.w;
      var oy2 := if r.y + r.h < s.y + s.h then r.y + r.h else s.y + s.h;
      var ow, oh := ox2 - ox, oy2 - oy;
      if ow <= 0 || oh <= 0 {
        return;
      }
      if s.alpha == 255 {
        Blit(back, s.buf, s.w, s.h, ox, oy, ox - s.x, oy - s.y, ow, oh);
      } else {
        BlendRect(back, s, Rect(ox, oy, ow, oh));
      }
    }

    /** Clears a region of the back buffer and draws every surface into it, lowest first. */
    method PaintBack(r: Rect)
      requires AllOk(surfaces) && Inside(r, back.Length1, back.Length0)
      modifies back
      ensures Snapshot(back) == Painted(old(Snapshot(back)), r, surfaces, back.Length1, back.Length0)
    {
      FillRect(back, r, BACKGROUND);
      assert surfaces[..0] == [];
      for i := 0 to |surfaces|
        invariant forall y, x :: 0 <= y < back.Length0 && 0 <= x < back.Length1 ==>
          back[y, x] == if Has(r, x, y) then Stack(surfaces[..i], Blend(old(back[y, x]), BACKGROUND), x, y)
                        else old(back[y, x])
      {
        assert surfaces[..i + 1][..i] == surfaces[..i];
        DrawSurface(surfaces[i], r);
      }
      assert surfaces[..|surfaces|] == surfaces;
      SameImage(Snapshot(back), Painted(old(Snapshot(back)), r, surfaces, back.Length1, back.Length0),
                back.Length1, back.Length0);
    }

    /** Copies a region of the back buffer to the framebuffer. */
    method Present(r: Rect)
      requires fb != back && Fits(back, fb.Length1, fb.Length0) && Inside(r, fb.Length1, fb.Length0)
      modifies fb
      ensures Snapshot(fb) == Copied(old(Snapshot(fb)), r, Snapshot(back), fb.Length1, fb.Length0)
    {
      Blit(fb, Snapshot(back), back.Length1, back.Length0, r.x, r.y, r.x, r.y, r.w, r.h);
      SameImage(Snapshot(fb), Copied(old(Snapshot(fb)), r, Snapshot(back), fb.Length1, fb.Length0),
                fb.Length1, fb.Length0);
    }

    method CompositeRegion(r: Rect)
      requires Valid()
      modifies fb, back
      ensures Valid() && State() == RegionDone(old(State()), r)
    {
      var c := ClipRegion(r);
      SameRegion(State(), r, c);
      if c.w <= 0 || c.h <= 0 {
        NoRegion(State(), c);
        return;
      }
      PaintBack(c);
      Present(c);
    }

    /** The part of a region on the framebuffer, or something empty. */
    method ClipRegion(r: Rect) returns (c: Rect)
      ensures forall x, y {:trigger Has(c, x, y)} ::
        OnSurface(x, y, fb.Length1, fb.Length0) ==> (Has(r, x, y) <==> Has(c, x, y))
      ensures !Empty(c) ==> Inside(c, fb.Length1, fb.Length0)
    {
      c := r;
      if c.w <= 0 || c.h <= 0 {
        return;
      }
      if c.x < 0 {
        c := c.(w := c.w + c.x, x := 0);
      }
      if c.y < 0 {
        c := c.(h := c.h + c.y, y := 0);
      }
      if c.x + c.w > fb.Length1 {
        c := c.(w := fb.Length1 - c.x);
      }
      if c.y + c.h > fb.Length0 {
        c := c.(h := fb.Length0 - c.y);
      }
    }

    /** Repaints everything after a full redraw was asked for, and only the damage otherwise. */
    method Composite()
      requires Valid()
      modifies fb, back, this`damage, this`fullRedraw
      ensures Valid() && State() == Composited(old(State()))
    {
      if fullRedraw {
        CompositeRegion(Rect(0, 0, fb.Length1, fb.Length0));
        fullRedraw, damage := false, [];
        return;
      }
      CompositeDamage();
      damage := [];
    }

    method CompositeDamage()
      requires Valid()
      modifies fb, back
      ensures Valid() && State() == RegionsDone(old(State()), damage)
    {
      assert damage[..0] == [];
      for i := 0 to |damage|
        invariant Valid() && State() == RegionsDone(old(State()), damage[..i])
      {
        assert damage[..i + 1][..i] == damage[..i];
        CompositeRegion(damage[i]);
      }
      assert damage[..|damage|] == damage;
    }

    // -------------------------------------------------------------- calls

    /** Well formed, and right everywhere outside the pending damage. */
    ghost predicate Consistent()
      reads this, fb, back
    {
      Valid() && Repainted(State())
    }

    /** The id returned is the one in the slot that was filled, after sorting. */
    method Create(x: int, y: int, w: int, h: int, layer: Layer) returns (id: int)
      requires Consistent()
      modifies this
      ensures Consistent() && State() == Scene.Step(old(State()), Scene.Create(x, y, w, h, layer))
      ensures id == if CanCreate(old(State()), w, h) then surfaces[|old(surfaces)|].id else -1
    {
      StepStays(State(), Scene.Create(x, y, w, h, layer));
      if |surfaces| >= COMPOSITOR_MAX_SURFACES || w <= 0 || h <= 0 {
        return -1;
      }
      var slot := |surfaces|;
      surfaces := surfaces + [Surf(nextId, x, y, w, h, BaseZ(layer), true, 255, layer, Blank(w, h))];
      nextId := nextId + 1;
      SortSurfaces();
      fullRedraw := true;
      id := surfaces[slot].id;
    }

    method Destroy(id: int)
      requires Consistent()
      modifies this
      ensures Consistent() && State() == Scene.Step(old(State()), Scene.Destroy(id))
    {
      StepStays(State(), Scene.Destroy(id));
      var i := FindSurface(id);
      if i == |surfaces| {
        return;
      }
      DamageRect(Frame(surfaces[i]));
      surfaces := surfaces[..i] + surfaces[i + 1..];
    }

    method Move(id: int, x: int, y: int)
      requires Consistent()
      modifies this
      ensures Consistent() && State() == Scene.Step(old(State()), Scene.Move(id, x, y))
    {
      StepStays(State(), Scene.Move(id, x, y));
      var i := FindSurface(id);
      if i == |surfaces| {
        return;
      }
      Shift(i, surfaces[i].(x := x, y := y));
    }

    /** A resized surface starts over with a blank buffer. */
    method Resize(id: int, w: int, h: int)
      requires Consistent()
      modifies this
      ensures Consistent() && State() == Scene.Step(old(State()), Scene.Resize(id, w, h))
    {
      StepStays(State(), Scene.Resize(id, w, h));
      if w <= 0 || h <= 0 {
        return;
      }
      var i := FindSurface(id);
      if i == |surfaces| {
        return;
      }
      Shift(i, surfaces[i].(w := w, h := h, buf := Blank(w, h)));
    }

    /** Damages where a surface was, changes it, and damages where it is. */
    method Shift(i: nat, s: Surf)
      requires Valid() && i < |surfaces| && SameSlot(surfaces[i], s)
      modifies this
      ensures Valid() && State() == Shifted(old(State()), i, s)
    {
      DamageRect(Frame(surfaces[i]));
      ReplaceGood(State(), i, s);
      surfaces := surfaces[i := s];
      DamageRect(Frame(s));
    }

    /** Changes a surface that stays where it is, and damages it. */
    method Alter(i: nat, s: Surf)
      requires Valid() && i < |surfaces| && SameSlot(surfaces[i], s) && Frame(s) == Frame(surfaces[i])
      modifies this
      ensures Valid() && State() == Altered(old(State()), i, s)
    {
      ReplaceGood(State(), i, s);
      surfaces := surfaces[i := s];
      DamageRect(Frame(s));
    }

    method SetAlpha(id: int, alpha: int)
      requires Consistent()
      modifies this
      ensures Consistent() && State() == Scene.Step(old(State()), Scene.SetAlpha(id, alpha))
    {
      StepStays(State(), Scene.SetAlpha(id, alpha));
      var i := FindSurface(id);
      if i == |surfaces| {
        return;
      }
      Alter(i, surfaces[i].(alpha := if alpha < 0 then 0 else if alpha > 255 then 255 else alpha));
    }

    method Show(id: int)
      requires Consistent()
      modifies this
      ensures Consistent() && State() == Scene.Step(old(State()), Scene.Show(id))
    {
      StepStays(State(), Scene.Show(id));
      var i := FindSurface(id);
      if i < |surfaces| && !surfaces[i].visible {
        Alter(i, surfaces[i].(visible := true));
      }
    }

    method Hide(id: int)
      requires Consistent()
      modifies this
      ensures Consistent() && State() == Scene.Step(old(State()), Scene.Hide(id))
    {
      StepStays(State(), Scene.Hide(id));
      var i := FindSurface(id);
      if i < |surfaces| && surfaces[i].visible {
        Alter(i, surfaces[i].(visible := false));
      }
    }

    /** A client fills its surface's buffer and reports it damaged. */
    method DrawAndDamage(id: int, buf: Image)
      requires Consistent()
      modifies this
      ensures Consistent() && State() == Scene.Step(old(State()), Scene.Draw(id, buf))
    {
      StepStays(State(), Scene.Draw(id, buf));
      var i := FindSurface(id);
      if i < |surfaces| && Sized(buf, surfaces[i].w, surfaces[i].h) {
        Alter(i, surfaces[i].(buf := buf));
      }
    }

    method Perform(op: Scene.Op)
      requires Consistent()
      modifies this, fb, back
      ensures Consistent() && State() == Scene.Step(old(State()), op)
    {
      StepStays(State(), op);
      match op {
        case Create(x, y, w, h, layer) => var _ := Create(x, y, w, h, layer);
        case Destroy(id) => Destroy(id);
        case Move(id, x, y) => Move(id, x, y);
        case Resize(id, w, h) => Resize(id, w, h);
        case SetAlpha(id, alpha) => SetAlpha(id, alpha);
        case Show(id) => Show(id);
        case Hide(id) => Hide(id);
        case Draw(id, buf) => DrawAndDamage(id, buf);
        case DamageArea(r) => DamageRect(r);
        case Composite => Composite();
      }
    }
  }

  /** A framebuffer taken over with any contents, put through any calls and then composited, shows
      the scene wherever an opaque surface lies. */
  method Session(framebuffer: array2<Argb>, ops: seq<Scene.Op>) returns (c: Compositor)
    requires framebuffer.Length0 > 0 && framebuffer.Length1 > 0
    modifies framebuffer
    ensures c.Consistent() && c.fb == framebuffer && c.damage == [] && !c.fullRedraw
    ensures var start := New(framebuffer.Length1, framebuffer.Length0, old(Snapshot(framebuffer)));
            Good(start) && Repainted(start) && c.State() == Scene.Step(Scene.Run(start, ops), Scene.Composite)
    ensures forall x, y ::
      OnSurface(x, y, framebuffer.Length1, framebuffer.Length0) && Opaque(c.surfaces, x, y) ==>
        framebuffer[y, x] == Stack(c.surfaces, BACKGROUND, x, y)
  {
    ghost var start := New(framebuffer.Length1, framebuffer.Length0, Snapshot(framebuffer));
    NewIsRepainted(framebuffer.Length1, framebuffer.Length0, Snapshot(framebuffer));
    c := new Compositor(framebuffer);
    for i := 0 to |ops|
      invariant c.Consistent() && c.fb == framebuffer && fresh(c) && fresh(c.back)
      invariant Scene.Run(c.State(), ops[i..]) == Scene.Run(start, ops)
    {
      RunFirst(c.State(), ops, i);
      c.Perform(ops[i]);
    }
    assert ops[|ops|..] == [];
    CompositedIsRight(c.State());
    c.Composite();
    ShowsScene(c);
  }

  lemma ShowsScene(c: Compositor)
    requires c.Consistent() && c.damage == [] && !c.fullRedraw
    ensures forall x, y ::
      OnSurface(x, y, c.fb.Length1, c.fb.Length0) && Opaque(c.surfaces, x, y) ==>
        c.fb[y, x] == Stack(c.surfaces, BACKGROUND, x, y)
  {
    forall x, y | OnSurface(x, y, c.fb.Length1, c.fb.Length0) && Opaque(c.surfaces, x, y)
      ensures c.fb[y, x] == Stack(c.surfaces, BACKGROUND, x, y)
    {
      assert RightAt(c.State(), x, y);
      assert c.State().fb[y][x] == c.fb[y, x];
    }
  }

  lemma RunFirst(c: Comp, ops: seq<Scene.Op>, i: nat)
    requires Good(c) && Repainted(c) && i < |ops|
    ensures Good(Scene.Step(c, ops[i])) && Repainted(Scene.Step(c, ops[i]))
    ensures Scene.Run(c, ops[i..]) == Scene.Run(Scene.Step(c, ops[i]), ops[i + 1..])
  {
    StepStays(c, ops[i]);
    assert ops[i..][1..] == ops[i + 1..];
  }

  /** Only the pixels on the framebuffer matter to a region. */
  lemma SameRegion(c: Comp, r: Rect, q: Rect)
    requires Good(c)
    requires forall x, y {:trigger Has(q, x, y)} :: OnSurface(x, y, c.w, c.h) ==> (Has(r, x, y) <==> Has(q, x, y))
    ensures RegionDone(c, r) == RegionDone(c, q)
  {
    var a, b := Painted(c.back, r, c.surfaces, c.w, c.h), Painted(c.back, q, c.surfaces, c.w, c.h);
    SameImage(a, b, c.w, c.h);
    SameImage(Copied(c.fb, r, a, c.w, c.h), Copied(c.fb, q, b, c.w, c.h), c.w, c.h);
  }

  lemma NoRegion(c: Comp, r: Rect)
    requires Good(c) && Empty(r)
    ensures RegionDone(c, r) == c
  {
    var a := Painted(c.back, r, c.surfaces, c.w, c.h);
    SameImage(a, c.back, c.w, c.h);
    SameImage(Copied(c.fb, r, a, c.w, c.h), c.fb, c.w, c.h);
  }
}
