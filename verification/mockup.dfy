/**
 * How the warp's shape check and the paste fit together for one pair
 * (lines 226-230): the warp runs on the shirt footprint, and the
 * (possibly warped) design is then multiplied into the same footprint.
 * Line numbers in this module refer to `mockup_generator.py`.
 */
module Mockup {
  import opened Raster
  import opened Wrinkle
  import opened Blend

  /**
   * Lines 104-106 with 133: numpy's wrap-around lets a footprint lying
   * wholly above or left of the shirt pass the shape check and be warped
   * with grey levels from the opposite edge, but such a footprint covers no
   * shirt pixel, so the mockup equals the untouched shirt either way.
   */
  lemma WrappedWarpIsInvisible(shirt: Image, cols: nat, design: Image, width: nat, x: int, y: int)
    requires IsRect(shirt, cols) && IsRect(design, width)
    requires 0 < width && 0 < |design|
    requires CropFits(|shirt|, cols, x, y, width, |design|)
    requires !(0 <= x && x + width <= cols && 0 <= y && y + |design| <= |shirt|)
    ensures Composite(shirt, design, width, x, y) == shirt
  {
    FitsIff(|shirt|, cols, x, y, width, |design|);
    OffShirtIsInvisible(shirt, design, width, x, y);
  }
}
