# Shirt mockup generator — a Dafny model of its core

The mockup generator is a small Streamlit application. It takes design
images and shirt templates and produces, for every design of a selected
batch and every shirt, a PNG mockup. Each mockup is the design placed on
the shirt's detected garment area, warped along the shirt's wrinkles and
multiply-blended onto the shirt. All mockups are collected in one zip
archive.

This project models the computational core of that pipeline:

- **Garment class** (`GarmentClass`). A shirt whose file name contains
  "model" (case-insensitively) is a model shirt. Every other shirt is a
  plain shirt. The class selects which of two slider configurations is
  used: padding, vertical and horizontal offset, and skew.
- **Placement** (`Placement`, with `PyNumeric` for Python's truncating
  `int()`):
  - When a garment box was detected, the design is scaled by
    `min(sw/dw, sh/dh, 1) * padding`, truncated to whole pixels, centred
    across the box plus a horizontal percentage offset, and hung from the
    box top plus a vertical percentage offset.
  - Without a box, the design keeps its size and is centred on the shirt.
- **Wrinkle warp** (`Wrinkle`, with `PySlice` for numpy's slice rules):
  - The shirt's grey levels under the design's footprint are cut out with
    numpy slicing.
  - When the cut does not have exactly the design's shape, the design is
    left unwarped.
  - Otherwise each grey level becomes the same displacement
    `(g/255 - 0.5) * intensity` on both axes of the sampling grid handed to
    `cv2.remap`.
- **Blend** (`Blend`, over the pixel model in `Raster`):
  - The shirt under the footprint is multiplied channel by channel with
    the design.
  - The product is pasted back through the design's alpha.
  - Pixels outside the footprint are untouched.
- **Batch** (`Batch`, with `PyText` for `str.lower`, substring tests and
  `os.path.splitext`):
  - The 1-based design range is sliced out of the upload list.
  - Designs are crossed with shirts, design-major.
  - Each entry is named `<graphic>_<shirt file root>_tee.png`.
- `Mockup` connects warp and blend: a footprint that the numpy wrap-around
  lets through the shape check is one that lies wholly off the shirt, so
  the composite is unchanged.

Inputs the model takes as parameters instead of computing them:

- the detected garment box of each shirt;
- image sizes;
- the shirt's grey levels;
- the design-name map kept in the session.

Floating-point values are modelled as exact reals and integers.

## Model

| member | source | states |
|---|---|---|
| PySlice.Bound | mockup_generator.py:104 | A slice index is normalised the numpy way: a negative index counts from the end, and the result is clamped into `[0, n]`, case by case. |
| PySlice.Len | mockup_generator.py:104 | A slice's length never exceeds the sequence and fits after the normalised start. It is empty exactly when the normalised stop is not past the normalised start, and otherwise it is the distance between the two normalised bounds. |
| PySlice.Slice | mockup_generator.py:71 | A Python slice has the normalised length, and element `k` is the element at normalised start plus `k`. |
| PySlice.InRangeSlice | mockup_generator.py:71 | With in-range bounds, a Python slice is the ordinary subsequence. |
| PySlice.FullLengthIff | mockup_generator.py:104-106 | `s[y:y+h]` has its full length `h` exactly when the window lies inside the sequence, or lies wholly at negative indices no further out than the length. |
| PyText.LowerChar | mockup_generator.py:148 | ASCII upper-case letters map to their lower-case letters, and every other character is unchanged. |
| PyText.Lower | mockup_generator.py:148 | `lower()` keeps the length and lower-cases each character in place. |
| PyText.LowerIdempotent | mockup_generator.py:148 | Lower-casing twice is lower-casing once. |
| PyText.HasSubstringIff | mockup_generator.py:148 | The `in` test holds exactly when the pattern occurs at some position of the string. |
| PyText.LastIndexOf | mockup_generator.py:196 | The result is the last position holding the character, or -1 when there is none. |
| PyText.SplitExt | mockup_generator.py:196 | `splitext` splits the path into root and extension, which concatenate back to the path. An extension is split off exactly when the final path component has a dot preceded by a non-dot character of that component (so `..png` keeps no extension). The extension is then one dot followed by no dot or separator. |
| PyText.Root | mockup_generator.py:196 | The colour name is a prefix of the file name: the whole name when no extension is split off, and otherwise everything before the name's last dot. |
| PyText.RootDropsExtension | mockup_generator.py:196 | For a file name `stem.ext` whose stem does not start with a dot, the root is exactly the stem. |
| PyText.RootOfPlainName | mockup_generator.py:196 | `white.png` has root `white`. |
| PyText.RootKeepsInnerDots | mockup_generator.py:196 | Only the last extension is dropped: `model_black.tee.jpg` has root `model_black.tee`. |
| PyText.RootWithoutStem | mockup_generator.py:196 | A dot-file such as `.png`, and a name with no dot, are their own root. |
| PyText.RootOfDotDotName | mockup_generator.py:196 | Leading dots are not a stem: `..png` has no extension and is its own root. |
| PyNumeric.Trunc | mockup_generator.py:159-160 | `int()` of a real truncates toward zero: it gives the floor for non-negative values and the ceiling for negative ones. |
| PyNumeric.Percent | mockup_generator.py:165-166 | The pixel offset is the hundredth of `size * pct`, rounded toward zero: bracketed from below for non-negative products and from above for negative ones. |
| PyNumeric.TruncDiv | mockup_generator.py:165-166 | `int(a / b)` is the quotient rounded toward zero, bracketed on the correct side for each sign of `a`. |
| PyNumeric.PercentOdd | mockup_generator.py:165-166 | Negating the percentage negates the pixel offset exactly, which floor division would not do. |
| PyNumeric.PercentTruncatesTowardZero | mockup_generator.py:165-166 | For a -10% offset of 5 pixels, the source gives 0, whereas floor division would give -1. |
| PyNumeric.PercentWithin | mockup_generator.py:165-168 | A percentage between 0 and 100 of a non-negative size gives an offset between 0 and that size. |
| Placement.Ratio | mockup_generator.py:158 | The unpadded factor lies in `[0, 1]` and keeps the design within the box in both dimensions. It reaches one of its three limits. |
| Placement.ScaleWithinLimits | mockup_generator.py:158 | With a non-negative padding, the factor lies in `[0, padding]` and keeps the design within `padding` times the box in both dimensions. It is as large as these limits allow. |
| Placement.Solve | mockup_generator.py:155-172 | Without a box: the design keeps its size and is centred on the shirt, the odd pixel going right and down. With a box: the design is transformed and resized to `Scaled`, its top sits the vertical percentage below the box top, and, apart from the horizontal offset, it is centred in the box with the odd pixel on the right. |
| Placement.Scaled | mockup_generator.py:158-160 | For a non-negative padding, each resized side is the whole part of the design's side times the factor: non-negative, at most that product and less than one below it. |
| Placement.ScaledDim | mockup_generator.py:159-160 | `int(d * scale)` rounds down for a non-negative factor and up for a negative one. |
| Placement.ScaledSizeBounds | mockup_generator.py:158-160 | With padding in `(0, 1]`, the resized design is never larger than the original nor than the box. |
| Placement.CentredInBox | mockup_generator.py:166-167 | With no horizontal offset, the design lies horizontally within the box. |
| Placement.TopAnchored | mockup_generator.py:165-168 | Offset 0 puts the design top on the box top. Offsets from 0 to 100 keep the top within the box height. |
| Placement.UnboxedFits | mockup_generator.py:169-172 | Without a box, a design no larger than the shirt lies entirely on it. |
| Placement.PaddingMonotone | mockup_generator.py:158-160 | A larger padding ratio never yields a smaller resized design. |
| GarmentClass.Select | mockup_generator.py:148-153 | A shirt whose name contains "model" in any case gets the model configuration. Every other shirt gets the plain one. |
| GarmentClass.IsModelIff | mockup_generator.py:148 | A shirt is a model shirt exactly when "model" occurs somewhere in its lower-cased name. |
| GarmentClass.SelectIgnoresCase | mockup_generator.py:148 | Names that agree after lower-casing select the same configuration. |
| GarmentClass.NoLetterMIsPlain | mockup_generator.py:148 | A name without the letter m in either case is a plain shirt. |
| GarmentClass.ModelInAnyCase | mockup_generator.py:148 | Any spelling of "model" in any case, anywhere in a name, makes a model shirt. |
| GarmentClass.UpperCaseModelName | mockup_generator.py:200 | `Black_MODEL.png` is a model shirt. |
| GarmentClass.PlainName | mockup_generator.py:200 | `white_plain.png` is a plain shirt. |
| Wrinkle.Crop | mockup_generator.py:104 | The two-axis numpy crop has the normalised length on each axis and holds the grey levels at the normalised offsets. |
| Wrinkle.SamplingGrid | mockup_generator.py:109-114 | The grid has the crop's shape. Each entry is its own pixel coordinate moved by the displacement of the grey level under it, by the same amount on both axes. |
| Wrinkle.Plan | mockup_generator.py:100-119 | The design stays unwarped exactly when the crop does not have the design's shape. Otherwise the grid is `h` by `w` and each entry is displaced on both axes by the grey level under the footprint. |
| Wrinkle.InsideFits | mockup_generator.py:103-107 | A footprint lying entirely on the shirt is always warped. |
| Wrinkle.OverflowFallsBack | mockup_generator.py:103-107 | A footprint starting on the shirt but running past its bottom or right edge is never warped. |
| Wrinkle.FitsIff | mockup_generator.py:104-106 | The exact condition for warping: on each axis the footprint lies inside the shirt, or lies wholly at negative coordinates within one shirt extent. |
| Wrinkle.WrappedFootprintReadsBottom | mockup_generator.py:104-106 | A footprint wholly above the shirt passes the shape check and reads the shirt's bottom rows. |
| Wrinkle.ZeroIntensityIsIdentity | mockup_generator.py:109-114 | Intensity 0 gives the identity sampling grid. |
| Wrinkle.DisplacementRange | mockup_generator.py:109-110 | The displacement is at most half the intensity in size. Light grey levels push forward and dark ones push back, the shift is never zero for a positive intensity, and mid grey moves by at most `intensity/510`. |
| Blend.Multiply | mockup_generator.py:127-131 | The multiplied channel is the floor of `s*d/255` and never exceeds either input. |
| Blend.MultiplyLaws | mockup_generator.py:130 | Multiply is commutative, black absorbs, and white is the identity. |
| Blend.Mix | mockup_generator.py:133 | Alpha 0 keeps the shirt value, alpha 255 takes the pasted value, and every mix lies between the two. |
| Blend.BlendPixel | mockup_generator.py:130-133 | A transparent design pixel leaves the shirt pixel as it was, and an opaque one gives the per-channel multiply at full opacity. Blending never lightens a colour channel and never makes the shirt more transparent. |
| Blend.Composite | mockup_generator.py:122-134 | The shirt keeps its shape and every pixel outside the footprint. Under the footprint, a transparent design pixel changes nothing, and an opaque one gives the per-channel multiply at full opacity. |
| Blend.OffShirtIsInvisible | mockup_generator.py:124-133 | A footprint that misses the shirt entirely leaves the shirt unchanged. |
| Blend.RedOverBlack | mockup_generator.py:130 | An opaque red design over black stays black. |
| Blend.RedOverWhite | mockup_generator.py:130 | An opaque red design over white stays red. |
| Batch.GraphicName | mockup_generator.py:191 | The graphic name is the user's name for the design, or "graphic" when none was recorded. |
| Batch.SelectBatch | mockup_generator.py:66-71 | For `1 <= start <= end <= n`, the batch is designs `start` to `end` inclusive, which is `end - start + 1` designs. |
| Batch.OutputName | mockup_generator.py:232 | The archive name reads back as the graphic name, an underscore, the shirt file's root and the suffix `_tee.png`. |
| Batch.EntryFor | mockup_generator.py:195-232 | Each entry carries its design and shirt, the configuration its garment class selects, and the placement the solver gives for that shirt's box and size. It is transformed exactly when a box was found, warped exactly when the crop fits, and named after the graphic and the shirt's root. |
| Batch.PairStep | mockup_generator.py:207-236 | One pair either ends the run, exactly when its resize fails, or appends its own entry at the next design-major position. |
| Batch.DesignRow | mockup_generator.py:195-236 | One design ends the run exactly when one of its own shirts has a failing resize; otherwise it appends one entry per shirt, in order. |
| Batch.Generate | mockup_generator.py:184-236 | With no design uploaded the run fails, because the batch variable tested at line 185 was never assigned. Otherwise the warning is given exactly when the batch or the shirt list is empty, and the run fails exactly when some pair's resize fails. A completed run holds one entry per (design, shirt) pair, design-major: `(end - start + 1) * shirts` entries for an in-range batch. |
| Batch.EntryName | mockup_generator.py:196-232 | A shirt file `stem.ext` yields the entry name `<graphic>_<stem>_tee.png`. |
| Mockup.WrappedWarpIsInvisible | mockup_generator.py:104-133 | A footprint that passes the shape check without lying on the shirt, only through numpy's wrap-around, leaves the composite equal to the shirt. |

## Left out

- Garment detection (`get_shirt_bbox`, lines 74-83) is not modelled. It is OpenCV thresholding and contour search, so each shirt's box, or its absence, is an input.
- Skew (`apply_skew`, lines 86-97) is left out. It is a bicubic affine transform by `tan` of the angles, and it keeps the image size, so the placement is unaffected. The skew angles are carried in `Config` but never applied.
- `PIL.Image.resize` and `cv2.remap` resampling, and PNG and JPEG decoding and encoding, are left out. They are foreign image code. The model states the resize size and the sampling grid, not the resampled pixels.
- The zip archive, the download button, session state, the preview's `try`/`except`, and the Streamlit widgets are left out. Slider ranges and the chosen batch bounds are plain parameters.
- Design naming (lines 53-63) is an input. The user-edited names are the `names` map.
- The grey conversion `convert("L")` (line 102) is left out. The shirt's grey levels are an input.
- Floating point is modelled as exact reals. At an exact truncation or rounding boundary, `float32`/`float64` arithmetic can differ from the model by one pixel or one channel step.
- Blend.Multiply: the source computes `(s/255 * d/255 * 255)` in floating point and truncates it. The model takes the exact floor of `s*d/255`, which the float result can undershoot by one when `s*d` is a multiple of 255.
- Blend.Mix: intermediate alpha values use exact round-to-nearest in place of PIL's integer approximation of division by 255. Only the alpha 0 and alpha 255 outcomes are stated as the source's behaviour.
- PyText.Lower: only ASCII letters are case-folded. Python's `str.lower` also folds other Unicode letters.
- PyText.LowerChar: the same ASCII-only restriction, character by character.
- PyText.SplitExt: follows the POSIX rules, where only `/` separates path components. On Windows, `os.path.splitext` also splits at `\`. Uploaded file names carry no directory part, so the two agree for them.
- Exceptions other than a failed resize and the unassigned batch variable are not modelled. A decoding error inside the batch loop also aborts the whole run in the source. `Batch.Generate` models the resize to a side below one pixel (line 213), which PIL rejects, and the `NameError` at line 185 when no design was uploaded.
- Two pairs that produce the same output name are written to the archive twice. The model keeps both entries and does not model the zip's handling of duplicate names.
