/**
 * The placement solver: from the detected garment box (if any), the shirt
 * and design sizes and the garment-class configuration, the size the design
 * is resized to and the top-left corner at which it is drawn.
 * Line numbers in this module refer to `mockup_generator.py`.
 */
module Placement {
  import opened Wrappers
  import opened PyNumeric

  type Pos = n: int | n > 0 witness 1

  /** Dimensions of a decoded image; a decoded PNG or JPEG is never empty. */
  datatype Size = Size(width: Pos, height: Pos)

  /** `cv2.boundingRect` of the largest contour: `(sx, sy, sw, sh)`. */
  datatype Box = Box(x: int, y: int, width: Pos, height: Pos)

  /** The five per-garment-class slider values. */
  datatype Config = Config(
    padding: real,     // padding ratio
    vOffsetPct: int,   // vertical offset, percent of the box height
    hOffsetPct: int,   // horizontal offset, percent of the box width
    skewXDeg: real,
    skewYDeg: real)

  /**
   * Where and how large the design is drawn. `transformed` records whether
   * the design went through resize and skew (only when a box was found).
   */
  datatype Placement = Placement(x: int, y: int, width: int, height: int, transformed: bool)

  function Min(a: real, b: real): real
  {
    if a <= b then a else b
  }

  /** The minimum of the two box-to-design ratios and 1, before padding. */
  function Ratio(box: Box, design: Size): (m: real)
    ensures 0.0 <= m <= 1.0
    ensures m * design.width as real <= box.width as real
    ensures m * design.height as real <= box.height as real
    ensures m == 1.0 || m * design.width as real == box.width as real
                     || m * design.height as real == box.height as real
  {
    var fw := box.width as real / design.width as real;
    var fh := box.height as real / design.height as real;
    RatioLimit(Min(Min(fw, fh), 1.0), fw, design.width as real, box.width as real);
    RatioLimit(Min(Min(fw, fh), 1.0), fh, design.height as real, box.height as real);
    Min(Min(fw, fh), 1.0)
  }

  /** A factor no larger than `f == b / d` scales `d` to at most `b`, and to `b` exactly when it is `f`. */
  lemma RatioLimit(m: real, f: real, d: real, b: real)
    requires 0.0 < d && f == b / d && m <= f
    ensures m * d <= b
    ensures m == f ==> m * d == b
  {
    assert f * d == b;
    MulLe(d, m, f);
  }

  /** `min(sw / dw, sh / dh, 1.0) * padding`: the uniform resize factor. */
  function Scale(box: Box, design: Size, padding: real): real
  {
    Ratio(box, design) * padding
  }

  /**
   * Line 158: for a non-negative padding the factor never exceeds the
   * padding, never makes the design wider or taller than `padding` times the
   * box, and is as large as those three limits allow.
   */
  lemma ScaleWithinLimits(box: Box, design: Size, padding: real)
    requires 0.0 <= padding
    ensures var s := Scale(box, design, padding);
      0.0 <= s <= padding &&
      s * design.width as real <= box.width as real * padding &&
      s * design.height as real <= box.height as real * padding &&
      (s == padding
       || s * design.width as real == box.width as real * padding
       || s * design.height as real == box.height as real * padding)
  {
    var m := Ratio(box, design);
    PaddedLimit(m, padding, 1.0, 1.0);
    PaddedLimit(m, padding, design.width as real, box.width as real);
    PaddedLimit(m, padding, design.height as real, box.height as real);
  }

  /** Padding a factor that keeps `d` within `b` keeps `d` within `b * p`. */
  lemma PaddedLimit(m: real, p: real, d: real, b: real)
    requires 0.0 <= p && m * d <= b
    ensures (m * p) * d <= b * p
    ensures m * d == b ==> (m * p) * d == b * p
    ensures d == 1.0 ==> m * p <= b * p
  {
    assert (m * p) * d == p * (m * d);
    MulLe(p, m * d, b);
  }

  /**
   * Lines 155-172 (repeated at 207-224). With a box, the design is scaled,
   * centred across the box width plus the horizontal offset, and hung from
   * the box top plus the vertical offset. Without one, it keeps its size and
   * is centred on the whole shirt, rounding towards the top-left.
   */
  function Solve(box: Option<Box>, shirt: Size, design: Size, cfg: Config): (p: Placement)
    ensures box.None? ==> !p.transformed && p.width == design.width && p.height == design.height
    ensures box.None? ==> 0 <= (shirt.width - design.width) - 2 * p.x <= 1
    ensures box.None? ==> 0 <= (shirt.height - design.height) - 2 * p.y <= 1
    ensures box.Some? ==> p.transformed && (p.width, p.height) == Scaled(box.value, design, cfg.padding)
    ensures box.Some? ==> p.y - box.value.y == Percent(box.value.height, cfg.vOffsetPct)
    ensures box.Some? ==>
      var left := p.x - Percent(box.value.width, cfg.hOffsetPct) - box.value.x;
      var right := box.value.x + box.value.width - (left + box.value.x + p.width);
      left <= right <= left + 1
  {
    match box
    case Some(b) =>
      var (w, h) := Scaled(b, design, cfg.padding);
      var x := b.x + (b.width - w) / 2 + Percent(b.width, cfg.hOffsetPct);
      var y := b.y + Percent(b.height, cfg.vOffsetPct);
      Placement(x, y, w, h, true)
    case None =>
      Placement((shirt.width - design.width) / 2, (shirt.height - design.height) / 2,
                design.width, design.height, false)
  }

  /**
   * `(int(dw * scale), int(dh * scale))`: the size the design is resized to,
   * each side the whole part of the design's side times the factor.
   */
  function Scaled(box: Box, design: Size, padding: real): (r: (int, int))
    ensures 0.0 <= padding ==> 0 <= r.0 && r.0 as real <= design.width as real * Scale(box, design, padding) < r.0 as real + 1.0
    ensures 0.0 <= padding ==> 0 <= r.1 && r.1 as real <= design.height as real * Scale(box, design, padding) < r.1 as real + 1.0
  {
    var scale := Scale(box, design, padding);
    if 0.0 <= padding then
      ScaleNonNegative(box, design, padding);
      (ScaledDim(design.width, scale), ScaledDim(design.height, scale))
    else
      (ScaledDim(design.width, scale), ScaledDim(design.height, scale))
  }

  lemma ScaleNonNegative(box: Box, design: Size, padding: real)
    requires 0.0 <= padding
    ensures 0.0 <= Scale(box, design, padding)
  {
    var m := Ratio(box, design);
    MulLe(padding, 0.0, m);
    assert m * padding == padding * m;
  }

  /** `int(d * scale)`: truncated toward zero, so rounded down for a non-negative factor and up for a negative one. */
  function ScaledDim(d: Pos, scale: real): (n: int)
    ensures 0.0 <= scale ==> 0 <= n && n as real <= d as real * scale < n as real + 1.0
    ensures scale < 0.0 ==> n <= 0 && n as real - 1.0 < d as real * scale <= n as real
  {
    Trunc(d as real * scale)
  }

  /** `int(d * m * padding)` stays within `d`, and within `b` when `m` scales `d` within `b`. */
  lemma DimBound(d: Pos, b: Pos, m: real, padding: real)
    requires 0.0 <= m <= 1.0 && m * d as real <= b as real && 0.0 < padding <= 1.0
    ensures 0 <= ScaledDim(d, m * padding) <= d
    ensures ScaledDim(d, m * padding) <= b
  {
    var r := d as real * (m * padding);
    ProductBound(r, m, d as real, b as real, padding);
    TruncBelow(r, d);
    TruncBelow(r, b);
  }

  /** `r == d * (m * p)` with `m, p` in `[0, 1]` stays within `d`, and within `b` when `m * d` does. */
  lemma ProductBound(r: real, m: real, d: real, b: real, p: real)
    requires 0.0 <= m <= 1.0 && 0.0 < d && m * d <= b && 0.0 < p <= 1.0
    requires r == d * (m * p)
    ensures 0.0 <= r <= d && r <= b
  {
    UnitScaled(m, p);
    UnitScaled(d, m * p);
    var md := m * d;
    assert 0.0 <= md by { UnitScaled(d, m); }
    UnitScaled(md, p);
    var mdp := md * p;
    assert mdp <= md <= b;
    assert d * (m * p) == mdp;
  }

  /** Scaling a non-negative value by a factor in `[0, 1]` keeps it in `[0, value]`. */
  lemma UnitScaled(v: real, f: real)
    requires 0.0 <= v && 0.0 <= f <= 1.0
    ensures 0.0 <= v * f <= v && 0.0 <= f * v <= v
  {
    MulLe(v, f, 1.0);
    MulLe(v, 0.0, f);
    assert v * 1.0 == v && v * 0.0 == 0.0 && v * f == f * v;
  }

  /**
   * Lines 158-160: with `0 < padding <= 1` the resized design never grows
   * beyond its own size nor beyond the box.
   */
  lemma ScaledSizeBounds(b: Box, design: Size, padding: real)
    requires 0.0 < padding <= 1.0
    ensures 0 <= Scaled(b, design, padding).0 <= design.width
    ensures Scaled(b, design, padding).0 <= b.width
    ensures 0 <= Scaled(b, design, padding).1 <= design.height
    ensures Scaled(b, design, padding).1 <= b.height
  {
    var m := Ratio(b, design);
    assert Scale(b, design, padding) == m * padding;
    DimBound(design.width, b.width, m, padding);
    DimBound(design.height, b.height, m, padding);
  }

  /** Lines 166-167: with no horizontal offset the design lies horizontally inside the box. */
  lemma CentredInBox(b: Box, shirt: Size, design: Size, cfg: Config)
    requires 0.0 < cfg.padding <= 1.0 && cfg.hOffsetPct == 0
    ensures var p := Solve(Some(b), shirt, design, cfg);
      b.x <= p.x && p.x + p.width <= b.x + b.width
  {
    ScaledSizeBounds(b, design, cfg.padding);
  }

  /**
   * Lines 165 and 168: the vertical offset is measured from the box top, so
   * offset 0 anchors the design at the top edge and offsets from 0 to 100
   * keep the top edge within the box height.
   */
  lemma TopAnchored(b: Box, shirt: Size, design: Size, cfg: Config)
    ensures var p := Solve(Some(b), shirt, design, cfg);
      (cfg.vOffsetPct == 0 ==> p.y == b.y) &&
      (0 <= cfg.vOffsetPct <= 100 ==> b.y <= p.y <= b.y + b.height)
  {
    if 0 <= cfg.vOffsetPct <= 100 {
      PercentWithin(b.height, cfg.vOffsetPct);
    }
  }

  /** Lines 169-172: without a box, a design no larger than the shirt lies fully on it. */
  lemma UnboxedFits(shirt: Size, design: Size, cfg: Config)
    ensures var p := Solve(None, shirt, design, cfg);
      (design.width <= shirt.width ==> 0 <= p.x && p.x + p.width <= shirt.width) &&
      (design.height <= shirt.height ==> 0 <= p.y && p.y + p.height <= shirt.height)
  {
  }

  /** A larger padding ratio never yields a smaller design. */
  lemma PaddingMonotone(b: Box, design: Size, p1: real, p2: real)
    requires 0.0 <= p1 <= p2
    ensures Scaled(b, design, p1).0 <= Scaled(b, design, p2).0
    ensures Scaled(b, design, p1).1 <= Scaled(b, design, p2).1
  {
    var s1 := Scale(b, design, p1);
    var s2 := Scale(b, design, p2);
    ScaleMono(b, design, p1, p2);
    TruncScaledMono(design.width, s1, s2);
    TruncScaledMono(design.height, s1, s2);
  }

  lemma ScaleMono(b: Box, design: Size, p1: real, p2: real)
    requires 0.0 <= p1 <= p2
    ensures 0.0 <= Scale(b, design, p1) <= Scale(b, design, p2)
  {
    var m := Min(Min(b.width as real / design.width as real, b.height as real / design.height as real), 1.0);
    assert 0.0 <= m;
    MulLe(m, p1, p2);
  }

  lemma TruncScaledMono(d: Pos, s1: real, s2: real)
    requires 0.0 <= s1 <= s2
    ensures ScaledDim(d, s1) <= ScaledDim(d, s2)
  {
    MulLe(d as real, s1, s2);
    TruncMono(d as real * s1, d as real * s2);
  }

  lemma TruncBelow(r: real, k: int)
    requires 0.0 <= r <= k as real
    ensures 0 <= Trunc(r) <= k
  {
  }

  lemma TruncMono(r1: real, r2: real)
    requires 0.0 <= r1 <= r2
    ensures Trunc(r1) <= Trunc(r2)
  {
  }
}
