/** Pixel buffers and the drawing loops of graphics/draw/draw.c that the compositor uses.
    A buffer is a two-dimensional array; its contents as a value are an `Image`. */
module Pixmap {
  import opened Colour
  import opened Damage

  type Image = seq<seq<Argb>>

  predicate Sized(im: Image, w: int, h: int) {
    |im| == h && forall y :: 0 <= y < |im| ==> |im[y]| == w
  }

  /** The contents of a pixel buffer, row by row. */
  function Snapshot(a: array2<Argb>): (im: Image)
    reads a
    ensures Sized(im, a.Length1, a.Length0)
    ensures forall y, x {:trigger im[y][x]} :: 0 <= y < a.Length0 && 0 <= x < a.Length1 ==> im[y][x] == a[y, x]
  {
    seq(a.Length0, y requires 0 <= y < a.Length0 reads a =>
      seq(a.Length1, x requires 0 <= x < a.Length1 reads a => a[y, x]))
  }

  lemma SameImage(a: Image, b: Image, w: nat, h: nat)
    requires Sized(a, w, h) && Sized(b, w, h)
    requires forall y, x {:trigger a[y][x]} :: 0 <= y < h && 0 <= x < w ==> a[y][x] == b[y][x]
    ensures a == b
  {
    forall y | 0 <= y < h
      ensures a[y] == b[y]
    {
      assert forall x :: 0 <= x < w ==> a[y][x] == b[y][x];
    }
  }

  /** draw_fill_rect: blends a colour into the part of a rectangle that lies on the surface. */
  method FillRect(s: array2<Argb>, r: Rect, colour: Argb)
    modifies s
    ensures forall y, x :: 0 <= y < s.Length0 && 0 <= x < s.Length1 ==>
      s[y, x] == if Has(r, x, y) then Blend(old(s[y, x]), colour) else old(s[y, x])
  {
    if r.w <= 0 || r.h <= 0 {
      return;
    }
    var x0, y0 := if r.x < 0 then 0 else r.x, if r.y < 0 then 0 else r.y;
    var x1 := if r.x + r.w > s.Length1 then s.Length1 else r.x + r.w;
    var y1 := if r.y + r.h > s.Length0 then s.Length0 else r.y + r.h;
    if x0 >= x1 || y0 >= y1 {
      return;
    }
    for y := y0 to y1
      invariant forall j, x :: 0 <= j < s.Length0 && 0 <= x < s.Length1 ==>
        s[j, x] == if y0 <= j < y && x0 <= x < x1 then Blend(old(s[j, x]), colour) else old(s[j, x])
    {
      FillRow(s, y, x0, x1, colour);
    }
  }

  method FillRow(s: array2<Argb>, y: nat, x0: nat, x1: nat, colour: Argb)
    requires y < s.Length0 && x0 <= x1 <= s.Length1
    modifies s
    ensures forall j, x :: 0 <= j < s.Length0 && 0 <= x < s.Length1 ==>
      s[j, x] == if j == y && x0 <= x < x1 then Blend(old(s[j, x]), colour) else old(s[j, x])
  {
    for i := x0 to x1
      invariant forall j, x :: 0 <= j < s.Length0 && 0 <= x < s.Length1 ==>
        s[j, x] == if j == y && x0 <= x < i then Blend(old(s[j, x]), colour) else old(s[j, x])
    {
      if colour.a == 255 {
        s[y, i] := colour;
      } else {
        s[y, i] := Blend(s[y, i], colour);
      }
    }
  }

  /** A span of `n` starting at `s` in the source is to reach `x` when copied to `d`. */
  predicate Spans(d: int, s: int, n: int, srcN: int, x: int) {
    d <= x < d + n && 0 <= x - d + s < srcN
  }

  /** surface_blit: copies a rectangle, clipped to both surfaces in any combination. */
  method Blit(dst: array2<Argb>, src: Image, srcW: nat, srcH: nat, dx: int, dy: int, sx: int, sy: int, w: int, h: int)
    requires Sized(src, srcW, srcH)
    modifies dst
    ensures forall y, x :: 0 <= y < dst.Length0 && 0 <= x < dst.Length1 ==>
      dst[y, x] == if Spans(dx, sx, w, srcW, x) && Spans(dy, sy, h, srcH, y) then src[y - dy + sy][x - dx + sx]
                   else old(dst[y, x])
  {
    var dx', sx', w' := ClipSpan(dx, sx, w, dst.Length1, srcW);
    var dy', sy', h' := ClipSpan(dy, sy, h, dst.Length0, srcH);
    if w' <= 0 || h' <= 0 {
      return;
    }
    for row := 0 to h'
      invariant forall y, x :: 0 <= y < dst.Length0 && 0 <= x < dst.Length1 ==>
        dst[y, x] == if dx' <= x < dx' + w' && dy' <= y < dy' + row
                     then src[y - dy' + sy'][x - dx' + sx'] else old(dst[y, x])
    {
      CopyRow(dst, dy' + row, dx', src[sy' + row], sx', w');
    }
  }

  /** Clips one axis of a blit: exactly the span whose two ends lie on the two surfaces is left. */
  method ClipSpan(d: int, s: int, n: int, dstN: nat, srcN: nat) returns (d': int, s': int, n': int)
    ensures d' - s' == d - s && 0 <= d' && 0 <= s'
    ensures n' > 0 ==> d' + n' <= dstN && s' + n' <= srcN
    ensures forall x :: 0 <= x < dstN ==>
      (Spans(d, s, n, srcN, x) <==> d' <= x < d' + n')
  {
    d', s', n' := d, s, n;
    if d' < 0 {
      s', n', d' := s' - d', n' + d', 0;
    }
    if s' < 0 {
      d', n', s' := d' - s', n' + s', 0;
    }
    if d' + n' > dstN {
      n' := dstN - d';
    }
    if s' + n' > srcN {
      n' := srcN - s';
    }
  }

  method CopyRow(dst: array2<Argb>, y: nat, dx: nat, src: seq<Argb>, sx: nat, w: nat)
    requires y < dst.Length0 && dx + w <= dst.Length1 && sx + w <= |src|
    modifies dst
    ensures forall j, x :: 0 <= j < dst.Length0 && 0 <= x < dst.Length1 ==>
      dst[j, x] == if j == y && dx <= x < dx + w then src[x - dx + sx] else old(dst[j, x])
  {
    for i := 0 to w
      invariant forall j, x :: 0 <= j < dst.Length0 && 0 <= x < dst.Length1 ==>
        dst[j, x] == if j == y && dx <= x < dx + i then src[x - dx + sx] else old(dst[j, x])
    {
      dst[y, dx + i] := src[sx + i];
    }
  }
}
