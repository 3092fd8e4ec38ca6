/**
 * The wrinkle warp (`apply_displacement_map`): the shirt's grey levels under
 * the design's footprint become a per-pixel displacement of the design's
 * sampling grid. The footprint is cut with numpy slicing, and whenever the
 * cut does not have exactly the design's shape the design is kept unwarped.
 * Line numbers in this module refer to `mockup_generator.py`.
 */
module Wrinkle {
  import opened PySlice
  import opened PyNumeric
  import opened Raster

  /** A sampling grid for `cv2.remap`: design pixel `(i, j)` is read from `(mapX[i][j], mapY[i][j])`. */
  datatype Grid = Grid(mapX: seq<seq<real>>, mapY: seq<seq<real>>)

  /** Either the fail-safe (the design is returned as is) or a remap through a grid. */
  datatype Outcome = Unwarped | Remapped(grid: Grid)

  /**
   * `gray[y:y+h, x:x+w]` on a `rows` x `cols` grey image: each axis is sliced
   * independently with Python's wrap-and-clamp rules.
   */
  function Crop(gray: seq<seq<Channel>>, cols: nat, x: int, y: int, w: int, h: int): (c: seq<seq<Channel>>)
    requires IsRect(gray, cols)
    ensures |c| == Len(|gray|, y, y + h)
    ensures IsRect(c, Len(cols, x, x + w))
    ensures forall i, j :: 0 <= i < |c| && 0 <= j < |c[i]| ==>
      c[i][j] == gray[Bound(y, |gray|) + i][Bound(x, cols) + j]
  {
    var band := Slice(gray, y, y + h);
    seq(|band|, i requires 0 <= i < |band| => Slice(band[i], x, x + w))
  }

  /** Line 106: the crop has shape `(h, w)`, the only case in which the warp proceeds. */
  predicate CropFits(rows: nat, cols: nat, x: int, y: int, w: int, h: int)
  {
    Len(rows, y, y + h) == h && Len(cols, x, x + w) == w
  }

  /** `(g / 255 - 0.5) * intensity`: the offset a grey level adds on each axis. */
  function Displacement(g: Channel, intensity: int): real
  {
    (g as real / 255.0 - 0.5) * intensity as real
  }

  /**
   * Lines 109-114: the identity grid plus the displacement of the grey level
   * under each pixel, the same displacement on both axes.
   */
  function SamplingGrid(crop: seq<seq<Channel>>, intensity: int): (grid: Grid)
    ensures |grid.mapX| == |crop| && |grid.mapY| == |crop|
    ensures forall i :: 0 <= i < |crop| ==> |grid.mapX[i]| == |crop[i]| && |grid.mapY[i]| == |crop[i]|
    ensures forall i, j :: 0 <= i < |crop| && 0 <= j < |crop[i]| ==>
      grid.mapX[i][j] - j as real == grid.mapY[i][j] - i as real == Displacement(crop[i][j], intensity)
  {
    Grid(
      seq(|crop|, i requires 0 <= i < |crop| =>
        seq(|crop[i]|, j requires 0 <= j < |crop[i]| => j as real + Displacement(crop[i][j], intensity))),
      seq(|crop|, i requires 0 <= i < |crop| =>
        seq(|crop[i]|, j requires 0 <= j < |crop[i]| => i as real + Displacement(crop[i][j], intensity))))
  }

  /**
   * Lines 100-119: warp the `w` x `h` design drawn at `(x, y)` on a shirt
   * whose grey image is `gray` (`rows` x `cols`).
   */
  function Plan(gray: seq<seq<Channel>>, cols: nat, x: int, y: int, w: nat, h: nat, intensity: int): (o: Outcome)
    requires IsRect(gray, cols)
    ensures o.Unwarped? <==> !CropFits(|gray|, cols, x, y, w, h)
    ensures o.Remapped? ==> |o.grid.mapX| == h && |o.grid.mapY| == h && IsRect(o.grid.mapX, w) && IsRect(o.grid.mapY, w)
    ensures o.Remapped? ==> forall i, j :: 0 <= i < h && 0 <= j < w ==>
      o.grid.mapX[i][j] - j as real == Displacement(gray[Bound(y, |gray|) + i][Bound(x, cols) + j], intensity)
    ensures o.Remapped? ==> forall i, j :: 0 <= i < h && 0 <= j < w ==>
      o.grid.mapY[i][j] - i as real == Displacement(gray[Bound(y, |gray|) + i][Bound(x, cols) + j], intensity)
  {
    if !CropFits(|gray|, cols, x, y, w, h) then Unwarped
    else Remapped(SamplingGrid(Crop(gray, cols, x, y, w, h), intensity))
  }

  /** Lines 103-107: a footprint lying entirely on the shirt is always warped. */
  lemma InsideFits(rows: nat, cols: nat, x: int, y: int, w: nat, h: nat)
    requires 0 <= x && x + w <= cols && 0 <= y && y + h <= rows
    ensures CropFits(rows, cols, x, y, w, h)
  {
  }

  /**
   * Lines 103-107: a non-empty footprint starting on the shirt but running
   * past its bottom or right edge always falls back to the unwarped design.
   */
  lemma OverflowFallsBack(rows: nat, cols: nat, x: int, y: int, w: nat, h: nat)
    requires (0 <= y && 0 < h && y + h > rows) || (0 <= x && 0 < w && x + w > cols)
    ensures !CropFits(rows, cols, x, y, w, h)
  {
    if 0 <= y && 0 < h && y + h > rows {
      FullLengthIff(rows, y, h);
    } else {
      FullLengthIff(cols, x, w);
    }
  }

  /**
   * The exact acceptance condition for a non-empty design: on each axis the
   * footprint lies inside the shirt, or lies wholly at negative coordinates
   * no further out than the shirt's extent, where numpy's wrap-around reads
   * the opposite edge of the shirt instead.
   */
  lemma FitsIff(rows: nat, cols: nat, x: int, y: int, w: nat, h: nat)
    requires 0 < w && 0 < h
    ensures CropFits(rows, cols, x, y, w, h) <==>
      ((0 <= y && y + h <= rows) || (0 <= y + rows && y + h < 0)) &&
      ((0 <= x && x + w <= cols) || (0 <= x + cols && x + w < 0))
  {
    FullLengthIff(rows, y, h);
    FullLengthIff(cols, x, w);
  }

  /** A footprint wholly above the shirt passes the check and reads the shirt's bottom rows. */
  lemma WrappedFootprintReadsBottom(gray: seq<seq<Channel>>, cols: nat, x: int, y: int, w: nat, h: nat)
    requires IsRect(gray, cols)
    requires 0 <= x && x + w <= cols
    requires 0 < h && 0 <= y + |gray| && y + h < 0
    ensures CropFits(|gray|, cols, x, y, w, h)
    ensures forall i, j :: 0 <= i < h && 0 <= j < w ==>
      Crop(gray, cols, x, y, w, h)[i][j] == gray[|gray| + y + i][x + j]
  {
    FullLengthIff(|gray|, y, h);
  }

  /** Lines 109-114: intensity 0 leaves the sampling grid exactly the identity grid. */
  lemma ZeroIntensityIsIdentity(crop: seq<seq<Channel>>)
    ensures var grid := SamplingGrid(crop, 0);
      forall i, j :: 0 <= i < |crop| && 0 <= j < |crop[i]| ==>
        grid.mapX[i][j] == j as real && grid.mapY[i][j] == i as real
  {
  }

  /**
   * Line 109: the displacement never exceeds half the intensity, pushes
   * light pixels (128 and up) forward and dark ones (127 and below) back,
   * and for the two mid-grey levels is at most `intensity / 510` in size.
   */
  lemma DisplacementRange(g: Channel, intensity: int)
    requires 0 <= intensity
    ensures -(intensity as real) / 2.0 <= Displacement(g, intensity) <= intensity as real / 2.0
    ensures 128 <= g ==> 0.0 <= Displacement(g, intensity)
    ensures g <= 127 ==> Displacement(g, intensity) <= 0.0
    ensures 0 < intensity ==> Displacement(g, intensity) != 0.0
    ensures g == 127 || g == 128 ==>
      -(intensity as real) / 510.0 <= Displacement(g, intensity) <= intensity as real / 510.0
  {
    var f := g as real / 255.0 - 0.5;
    var k := intensity as real;
    assert Displacement(g, intensity) == f * k;
    assert -0.5 <= f <= 0.5;
    assert f != 0.0;
    MulLe(k, -0.5, f);
    MulLe(k, f, 0.5);
    assert -0.5 * k == -k / 2.0 && 0.5 * k == k / 2.0;
    assert -k / 2.0 <= f * k <= k / 2.0;
    if 128 <= g {
      MulLe(k, 0.0, f);
      MulLe(k, f, 0.5);
    }
    if g <= 127 {
      MulLe(k, -0.5, f);
      MulLe(k, f, 0.0);
    }
    if g == 127 || g == 128 {
      MulLe(k, -1.0 / 510.0, f);
      MulLe(k, f, 1.0 / 510.0);
      assert (-1.0 / 510.0) * k == -k / 510.0 && (1.0 / 510.0) * k == k / 510.0;
    }
    if 0 < intensity {
      assert f * k != 0.0;
    }
  }
}
