# Film-look effect stack: the integer stages, in Dafny

`process_video.py` gives a video a "film look" one frame at a time. It builds two
overlays once per resolution, a scanline image and a vignette mask. Then, for
each H x W x 3 uint8 frame, it runs a fixed stack of stages. First it shifts
the red and blue channels sideways (chromatic aberration). Then it raises
contrast and brightness and adds film grain. It then sharpens the frame,
composites the scanlines over it and applies the vignette.

This project models the integer parts of that stack:

- `Scanlines` (scanlines.dfy): `make_scanline_image` up to its blur. This is an
  imperative method that fills an `array2` of RGBA pixels band by band in a
  `while` loop. It is proved to paint exactly the rows whose offset within the
  period `lineHeight + gap` is below `lineHeight`. A recursive reading of the
  loop's steps (`PaintedFrom`) is proved to pick out the same rows.
- `Aberration` (aberration.dfy): the shift amount `max(1, width // 640 * 2)`,
  `np.roll` on a row, and the stage itself. The stage rolls the red plane left,
  keeps green and rolls blue right, then stacks the planes. Rolling is proved to
  be a rotation, a permutation, invertible and additive.
- `Grading` (contrast.dfy): `128 + 1.06 * (c - 128) + 4`, clipped to [0, 255]
  and truncated to uint8. The gain is the exact rational 106/100. The stage is
  proved equal to flooring the clipped exact real formula. It is also proved
  monotone and contrast-increasing, and it sends 128 to 132.
- `Grain` (grain.dfy): the noise is a caller-supplied buffer of int16 samples.
  Each sample is added in int16, with numpy's wrap-around written out, and the
  result is clipped to [0, 255].
- `Effect` (effect.dfy): the three frame stages composed, as in `effect`.
- `Pixels` (pixels.dfy): pixels, frames (rows of pixels), planes, the 8-bit
  clip, and the modular-arithmetic lemmas the wrap-around needs.

Frames are values (`seq<seq<Rgb>>`), so every stage builds a new frame and the
input frame is never changed. In the source, the stages likewise work on the
int16 copy made at line 65 and on the fresh arrays that `np.roll`, `np.stack`
and `np.clip` return.

Three points of the code that a quick reading can get wrong, and how the
model treats them:

- The band alpha `int(255 * intensity)` (process_video.py:27) truncates rather
  than rounding. `Scanlines.AlphaLineTruncates` proves that intensity 0.5 gives
  127, not 128.
- The contrast formula (process_video.py:75) is evaluated in float64 and then
  truncated to uint8. The model uses the exact gain 106/100 with a floor.
- The grain (process_video.py:81) is added as two int16 arrays, which wraps on
  overflow. `Grain.Wrap16` models that wrap. An 8-bit sample plus int16 noise is
  never below −32768, so only a sum above 32767 wraps, and it then comes out 0
  (`Grain.GrainSampleIsClamp`).

## Model

| member | source | states |
|---|---|---|
| `Pixels.ClampByte` | process_video.py:76 | np.clip(x, 0, 255) (here and at line 81): the result is 8-bit, equals x when x is already 8-bit, is 0 below the range and 255 above it |
| `Pixels.PlaneOf` | process_video.py:69-71 | img[:, :, c] has the frame's shape |
| `Pixels.Stack` | process_video.py:72 | np.stack([r, g, b], axis=2) of three planes of one shape has that shape |
| `Pixels.PlanesOfStack` | process_video.py:69-72 | taking the stacked frame apart channel by channel gives back the red, green and blue planes |
| `Pixels.StackOfPlanes` | process_video.py:69-72 | stacking a frame's own three planes gives back the frame |
| `Scanlines.AlphaLine` | process_video.py:27 | the band alpha is int(255·intensity): it lies in [0, 255] and is the truncation of 255·intensity (a ≤ 255·intensity < a + 1) |
| `Scanlines.AlphaLineTruncates` | process_video.py:27 | the default intensity 0.08 gives alpha 20; intensity 0.5 gives 127, so the value is truncated, not rounded |
| `Scanlines.FillRows` | process_video.py:30 | draw.rectangle over all columns of rows top..bottom (inclusive, clipped to the image) sets those pixels to the fill colour and leaves every other pixel as it was |
| `Scanlines.MakeScanlineImage` | process_video.py:25-31 | the new h×w RGBA image has (0,0,0,alpha) in every column of each row r with r mod (lineHeight+gap) < lineHeight, and (0,0,0,0) everywhere else; the loop terminates for lineHeight ≥ 1 and the last band is clipped at row h−1 |
| `Scanlines.PaintedIffInBand` | process_video.py:28-31 | a row is painted by the loop's steps (start 0, paint y..min(h, y+lineHeight−1), advance by lineHeight+gap while y < h) if and only if its offset within the period is below lineHeight |
| `Scanlines.PaintedFromBand` | process_video.py:28-31 | from the start of the k-th period, the loop paints exactly the band rows at or below that start (the induction behind PaintedIffInBand) |
| `Scanlines.ScanlinePeriodic` | process_video.py:28-31 | the band pattern repeats every lineHeight + gap rows |
| `Aberration.Shift` | process_video.py:68 | the shift is at least 1; it is 1 for widths below 640 and 2·(width div 640) from 640 on |
| `Aberration.Roll` | process_video.py:69-71 | np.roll on one row keeps its length; which element goes where is stated by `RollAt` and `RollMoves` |
| `Aberration.RollPlane` | process_video.py:69-71 | np.roll(plane, k, axis=1) keeps the plane's shape; each row is rolled on its own (see `AberrateAt`) |
| `Aberration.Aberrate` | process_video.py:68-72 | the shifted frame has the input's shape; its pixels are stated by `AberrateAt` |
| `Aberration.RollAt` | process_video.py:69-71 | element i of np.roll(s, k) is element (i − k) mod len(s) of s |
| `Aberration.RollMoves` | process_video.py:69-71 | the element at index i of s lands at index (i + k) mod len(s) |
| `Aberration.RotateRotate` | process_video.py:69-71 | two rotations of a sequence compose into one rotation by the summed cut, wrapped once |
| `Aberration.RollRoll` | process_video.py:69-71 | rolling by a and then by b is rolling by a + b |
| `Aberration.RollZero` | process_video.py:69-71 | rolling by 0 changes nothing |
| `Aberration.RollInverse` | process_video.py:69-71 | rolling by k and then by −k restores the sequence |
| `Aberration.RollPermutes` | process_video.py:69-71 | a roll has the same multiset of elements as its input |
| `Aberration.RollConstant` | process_video.py:69-71 | a sequence of equal elements is unchanged by any roll |
| `Aberration.AberrateAt` | process_video.py:68-72 | out[y][x] = (in[y][(x+shift) mod W].R, in[y][x].G, in[y][(x−shift) mod W].B) |
| `Aberration.AberrateInRange` | process_video.py:69-72 | the channel shift keeps 8-bit frames 8-bit |
| `Aberration.AberrateUndone` | process_video.py:69-72 | rolling red back right and blue back left by the same shift restores the input frame |
| `Aberration.UndoneRow` | process_video.py:69-72 | the same restoration, one row at a time |
| `Aberration.AberratePermutesRows` | process_video.py:69-72 | every row of the red and of the blue plane is permuted, and every row of the green plane is unchanged |
| `Aberration.AberrateRowConstant` | process_video.py:69-72 | a frame that is constant along each row is unchanged |
| `Aberration.AberrateMovesStripes` | process_video.py:68-72 | a red sample at column c moves to column (c − shift) mod W, and a blue sample to (c + shift) mod W |
| `Grading.Contrast` | process_video.py:75-76 | every graded sample lies in [0, 255], and 128 maps to 132 |
| `Grading.ContrastIsTruncatedExact` | process_video.py:75-76 | the graded sample equals floor(clip(128 + 1.06·(c−128) + 4, 0, 255)) computed over exact reals |
| `Grading.ContrastMonotone` | process_video.py:75-76 | grading never makes a brighter sample darker than a dimmer one |
| `Grading.ContrastStretches` | process_video.py:75 | while neither result is clipped, two samples end up at least as far apart as they started (the gain is above 1) |
| `Grading.ContrastFrame` | process_video.py:75-76 | the graded frame has the input's shape and only 8-bit samples |
| `Grading.ContrastFrameMonotone` | process_video.py:75-76 | grading two frames of one shape keeps their pixel-wise order in every channel |
| `Grain.Wrap16` | process_video.py:81 | int16 addition wraps: the result is an int16, it equals the exact sum when that fits, and it differs from the sum by a multiple of 65536 |
| `Grain.GrainSample` | process_video.py:81 | each grained sample lies in [0, 255] |
| `Grain.GrainSampleIsClamp` | process_video.py:81 | for an 8-bit sample c and any int16 noise n, the result is clamp(c + n, 0, 255) if and only if c + n ≤ 32767; above that the int16 sum wraps below zero and the result is 0 (the sum can never wrap downwards, since c + n ≥ −32768) |
| `Grain.GrainSampleWraps` | process_video.py:81 | an instance of the wrap: 255 plus noise 32767 comes out 0, where clamp(c + n) would give 255 |
| `Grain.Grain` | process_video.py:80-81 | the grained frame has the input's shape and only 8-bit samples |
| `Grain.GrainZeroNoise` | process_video.py:80-81 | an all-zero noise buffer leaves an 8-bit frame unchanged |
| `Grain.GrainIsClampedSum` | process_video.py:80-81 | for an 8-bit frame and int16 noise, an output pixel is clamp(c + n, 0, 255) in every channel if and only if none of its three int16 sums exceeds 32767 |
| `Effect.Stages` | process_video.py:65-81 | shift, grading and grain together keep the frame's shape and give only 8-bit samples |
| `Effect.StagesAt` | process_video.py:65-81 | each output sample is the grained, graded sample from the shifted column: red from x+shift, blue from x−shift, green from x (mod W) |
| `Effect.FlatGrey` | process_video.py:65-81 | a flat (128,128,128) frame with zero noise comes out (132,132,132) everywhere |

## Left out

- The Gaussian blur of the scanline image (process_video.py:33) is left out. Its kernel and rounding are inside PIL. `Scanlines.MakeScanlineImage` describes the image before the blur.
- The vignette mask (process_video.py:36-49) and its application (process_video.py:94-96) are left out. They depend on `np.sqrt` and on float32 multiplication.
- The unsharp mask (process_video.py:84-85) is left out. It is a PIL filter whose kernel and rounding are not visible.
- The RGBA conversions and `alpha_composite` (process_video.py:88-91) are left out. They are PIL internals, and the alpha composite is the only in-place update in `effect`.
- The Gaussian noise draw and its float-to-int16 truncation (process_video.py:80) are left out. The noise is a caller-supplied int16 buffer instead.
- `process` and the command-line entry point (process_video.py:102-140) are left out. They are video decoding, resizing, encoding, printing and `sys.exit`, all I/O or foreign calls. The `clip.fx(lambda c: c)` at line 114 does nothing.
- `Grading.Contrast`: it does not claim bit-exact agreement with the float64 evaluation at line 75. The gain is the exact rational 106/100 with a floor. Its bounds, its monotonicity and its value at 128 hold either way.
- `Scanlines.MakeScanlineImage`: it requires lineHeight ≥ 1 and 0 ≤ intensity ≤ 1, and takes gap as a natural number. The one call site (process_video.py:60) passes intensity 0.08, line_height 1 and gap 2, and the docstring (process_video.py:21-23) gives intensity the range 0 to 1. When line_height + gap ≤ 0 (for example line_height 0 and gap 0, or line_height 1 and gap −1), the step at process_video.py:31 does not move y, so the loop at process_video.py:29 never ends for any h > 0. The model's restriction rules these inputs out, and its termination measure h − y relies on that. Two excluded cases do terminate in the source. With lineHeight = 0 and gap ≥ 1, every rectangle has its bottom one row above its top, and what PIL draws then depends on its version. With −lineHeight < gap < 0, the bands overlap, which the docstring's "rows between dark lines" does not mean. A slightly negative intensity (above −1/255) would give alpha 0, since int() truncates toward zero; the model does not cover it.
- `Scanlines.AlphaLine`: intensity is an exact real, while line 27 multiplies in float64 and rounds before int() truncates. The two can differ only when 255·intensity lies within rounding error of an integer. At the intensity the code uses, 0.08, float64 gives 20.400000000000002 and the model 20.4, and both truncate to 20.
- `Scanlines.MakeScanlineImage`: the loop variable's final value (y ≥ h) is not exported. It is the loop's exit condition, and the postcondition covers every row below h.
- The width used for the shift is a parameter (`width`), as in `frame_effect_factory`. That it matches the width of each frame is the caller's business. The model rolls each row modulo that row's own length, as `np.roll` does.
