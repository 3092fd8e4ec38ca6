/**
 * Multiply compositing (`blend_design_with_shirt`): the shirt region under
 * the design is multiplied channel-wise by the design's colour, then pasted
 * back through the design's alpha channel as a mask.
 * Line numbers in this module refer to `mockup_generator.py`.
 */
module Blend {
  import opened PyNumeric
  import opened Raster

  /**
   * Lines 127-131: `(s / 255) * (d / 255) * 255` cast to `uint8`, in exact
   * arithmetic the floor of `s * d / 255`. Multiplying never brightens.
   */
  function Multiply(s: Channel, d: Channel): (m: Channel)
    ensures m * 255 <= s * d < m * 255 + 255
    ensures m <= s && m <= d
  {
    ProductBounds(s, d);
    (s * d) / 255
  }

  lemma ProductBounds(s: Channel, d: Channel)
    ensures 0 <= s * d <= 255 * s && s * d <= 255 * d
    ensures 0 <= (s * d) / 255 <= s && (s * d) / 255 <= d
    ensures (s * d) / 255 * 255 <= s * d < (s * d) / 255 * 255 + 255
  {
    assert s * d <= 255 * s by { MulLeInt(s, d, 255); }
    assert s * d <= 255 * d by { MulLeInt(d, s, 255); }
    assert (s * d) / 255 * 255 + (s * d) % 255 == s * d;
  }

  /** Line 130: multiply is commutative, black absorbs and white is neutral. */
  lemma MultiplyLaws(s: Channel, d: Channel)
    ensures Multiply(s, d) == Multiply(d, s)
    ensures Multiply(s, 0) == 0 && Multiply(0, d) == 0
    ensures Multiply(s, 255) == s
  {
    assert s * d == d * s;
  }

  /**
   * The paste mask blend of one channel: `dst` weighted by `255 - a` and
   * `src` by `a`, rounded to the nearest level. Alpha 0 keeps `dst`, alpha
   * 255 takes `src`, anything between stays between the two.
   */
  function Mix(dst: Channel, src: Channel, a: Channel): (m: Channel)
    ensures a == 0 ==> m == dst
    ensures a == 255 ==> m == src
    ensures (dst <= m <= src) || (src <= m <= dst)
  {
    MixBounds(dst, src, a);
    (2 * (dst * (255 - a) + src * a) + 255) / 510
  }

  lemma MixBounds(dst: Channel, src: Channel, a: Channel)
    ensures var m := (2 * (dst * (255 - a) + src * a) + 255) / 510;
      (a == 0 ==> m == dst) && (a == 255 ==> m == src) &&
      ((dst <= m <= src) || (src <= m <= dst))
  {
    var v := dst * (255 - a) + src * a;
    var lo := if dst <= src then dst else src;
    var hi := if dst <= src then src else dst;
    Weighted(lo, hi, dst, src, a);
    DivRange(2 * v + 255, lo, hi);
    if a == 0 {
      assert v == dst * 255;
      DivRange(2 * v + 255, dst, dst);
    }
    if a == 255 {
      assert v == src * 255;
      DivRange(2 * v + 255, src, src);
    }
  }

  /** A weighted sum of two levels in `[lo, hi]`, with weights summing to 255. */
  lemma Weighted(lo: nat, hi: nat, p: nat, q: nat, a: nat)
    requires lo <= p <= hi && lo <= q <= hi && a <= 255
    ensures lo * 255 <= p * (255 - a) + q * a <= hi * 255
  {
    MulLeInt(255 - a, lo, p);
    MulLeInt(a, lo, q);
    MulLeInt(255 - a, p, hi);
    MulLeInt(a, q, hi);
    assert lo * (255 - a) + lo * a == lo * 255;
    assert hi * (255 - a) + hi * a == hi * 255;
  }

  lemma DivRange(n: int, lo: int, hi: int)
    requires 2 * lo * 255 + 255 <= n <= 2 * hi * 255 + 255
    ensures lo <= n / 510 <= hi
  {
    assert n / 510 * 510 + n % 510 == n;
  }

  /**
   * One shirt pixel under one design pixel: the multiplied colour (opaque,
   * as an RGB image pasted into RGBA) mixed into the shirt pixel through
   * the design pixel's alpha.
   */
  function BlendPixel(s: Pixel, d: Pixel): (p: Pixel)
    ensures d.a == 0 ==> p == s
    ensures d.a == 255 ==> p == Pixel(Multiply(s.r, d.r), Multiply(s.g, d.g), Multiply(s.b, d.b), 255)
    ensures p.r <= s.r && p.g <= s.g && p.b <= s.b
    ensures s.a <= p.a
  {
    Pixel(
      Mix(s.r, Multiply(s.r, d.r), d.a),
      Mix(s.g, Multiply(s.g, d.g), d.a),
      Mix(s.b, Multiply(s.b, d.b), d.a),
      Mix(s.a, 255, d.a))
  }

  /** Shirt pixel `(i, j)` lies under the `width`-wide design drawn at `(x, y)`. */
  predicate Covers(design: Image, width: nat, x: int, y: int, i: int, j: int)
  {
    y <= i < y + |design| && x <= j < x + width
  }

  /**
   * Lines 122-134: the composited shirt. It keeps the shirt's shape;
   * pixels outside the design's footprint (including any part of the
   * footprint hanging off the shirt) are untouched; under the footprint a
   * transparent design pixel leaves the shirt pixel as it was, and an
   * opaque one replaces it by the multiplied colour at full opacity.
   */
  function Composite(shirt: Image, design: Image, width: nat, x: int, y: int): (out: Image)
    requires IsRect(design, width)
    ensures |out| == |shirt|
    ensures forall i :: 0 <= i < |shirt| ==> |out[i]| == |shirt[i]|
    ensures forall i, j :: 0 <= i < |shirt| && 0 <= j < |shirt[i]| && !Covers(design, width, x, y, i, j) ==>
      out[i][j] == shirt[i][j]
    ensures forall i, j :: 0 <= i < |shirt| && 0 <= j < |shirt[i]| && Covers(design, width, x, y, i, j) ==>
      (design[i - y][j - x].a == 0 ==> out[i][j] == shirt[i][j])
    ensures forall i, j :: 0 <= i < |shirt| && 0 <= j < |shirt[i]| && Covers(design, width, x, y, i, j) ==>
      (design[i - y][j - x].a == 255 ==>
        var s := shirt[i][j];
        var d := design[i - y][j - x];
        out[i][j] == Pixel(Multiply(s.r, d.r), Multiply(s.g, d.g), Multiply(s.b, d.b), 255))
  {
    seq(|shirt|, i requires 0 <= i < |shirt| =>
      seq(|shirt[i]|, j requires 0 <= j < |shirt[i]| =>
        if Covers(design, width, x, y, i, j) then BlendPixel(shirt[i][j], design[i - y][j - x])
        else shirt[i][j]))
  }

  /** A design whose footprint misses every shirt pixel leaves the shirt exactly as it was. */
  lemma OffShirtIsInvisible(shirt: Image, design: Image, width: nat, x: int, y: int)
    requires IsRect(design, width)
    requires y + |design| <= 0 || x + width <= 0 || |shirt| <= y || forall i :: 0 <= i < |shirt| ==> |shirt[i]| <= x
    ensures Composite(shirt, design, width, x, y) == shirt
  {
    var out := Composite(shirt, design, width, x, y);
    forall i | 0 <= i < |shirt|
      ensures out[i] == shirt[i]
    {
      assert forall j :: 0 <= j < |shirt[i]| ==> !Covers(design, width, x, y, i, j);
    }
  }

  /** Multiplying an opaque red design over a black shirt pixel gives black. */
  lemma RedOverBlack()
    ensures BlendPixel(Pixel(0, 0, 0, 255), Pixel(255, 0, 0, 255)) == Pixel(0, 0, 0, 255)
  {
    MultiplyLaws(0, 255);
    MultiplyLaws(0, 0);
  }

  /** Over a white shirt pixel the same design keeps its own red. */
  lemma RedOverWhite()
    ensures BlendPixel(Pixel(255, 255, 255, 255), Pixel(255, 0, 0, 255)) == Pixel(255, 0, 0, 255)
  {
    MultiplyLaws(255, 255);
    MultiplyLaws(255, 0);
  }
}
