/** ARGB pixels and blending (graphics/draw/color.h). */
module Colour {
  import opened Bytes

  /** The four channels of a packed 0xAARRGGBB pixel. */
  datatype Argb = Argb(a: byte, r: byte, g: byte, b: byte)

  const CLEAR := Argb(0, 0, 0, 0)

  lemma Scaled(a: int, b: int, k: int)
    requires a <= b && 0 <= k
    ensures a * k <= b * k
  {
    assert (b - a) * k >= 0;
  }

  lemma Split(a: int, k: int)
    ensures a * k + a * (255 - k) == a * 255
  {}

  lemma MixBounds(src: byte, dst: byte, sa: byte, lo: byte, hi: byte)
    requires lo <= src <= hi && lo <= dst <= hi
    ensures lo * 255 <= src * sa + dst * (255 - sa) <= hi * 255
  {
    Scaled(lo, src, sa);
    Scaled(src, hi, sa);
    Scaled(lo, dst, 255 - sa);
    Scaled(dst, hi, 255 - sa);
    Split(lo, sa);
    Split(hi, sa);
  }

  /** One channel of a blend: `src` weighted by `sa`, `dst` by the rest, rounded down. */
  function Mix(src: byte, dst: byte, sa: byte): (c: byte)
    ensures (if src < dst then src else dst) <= c <= (if src < dst then dst else src)
  {
    var lo, hi := if src < dst then src else dst, if src < dst then dst else src;
    MixBounds(src, dst, sa, lo, hi);
    (src * sa + dst * (255 - sa)) / 255
  }

  /** Alpha of a blend: never below that of the source, never above opaque. */
  function MixAlpha(sa: byte, da: byte): (a: byte)
    ensures sa <= a
  {
    Scaled(0, da, 255 - sa);
    Scaled(da, 255, 255 - sa);
    var rest := da * (255 - sa);
    assert 0 <= rest <= 255 * (255 - sa);
    assert rest / 255 <= 255 - sa;
    sa + rest / 255
  }

  function Blend(dst: Argb, src: Argb): Argb {
    if src.a == 0 then dst
    else if src.a == 255 then src
    else Argb(MixAlpha(src.a, dst.a), Mix(src.r, dst.r, src.a),
              Mix(src.g, dst.g, src.a), Mix(src.b, dst.b, src.a))
  }

  /** A pixel of a surface drawn with the given opacity. */
  function Faded(p: Argb, alpha: byte): Argb {
    Scaled(0, p.a, alpha);
    Scaled(p.a, 255, alpha);
    p.(a := p.a * alpha / 255)
  }
}
