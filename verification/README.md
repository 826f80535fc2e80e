# cropfish — a Dafny model of the corner geometry and the crop

cropfish finds a chessboard calibration pattern in a photograph, widens the
detected corner pair from the 6-square span of the inner corners to the
8-square extent of the board, and crops the photograph to that rectangle.
This project models the pure part of that pipeline in Dafny and proves its
properties:

- `Geometry` — points as pairs of `real` and `scale_corners`, the rescaling
  of two corners about their midpoint by 8/6.
- `PySemantics` — the two pieces of Python the crop relies on: `int()` on a
  float (truncation toward zero) and half-open slicing `s[lo:hi]`, which
  never raises (bounds past the end clamp, negative bounds count from the
  end).
- `Crop` — `crop_image`: the truncated, sorted window of two corners and the
  2-D slice `image[min_y:max_y, min_x:max_x]` of an image held as rows of
  pixels; plus the clipped crop described under "Findings".
- `Detect` — the binarisation `(gray < t) * 255` and the "first threshold
  that succeeds wins" loop of `find_corners` over the thresholds 160 and 192,
  with the chessboard detector as an uninterpreted function parameter.
- `Wrappers` — `Option`, standing for Python's `None` result.

Coordinates are `real`: exact arithmetic as an idealisation of the
source's floating-point arithmetic (float32, as OpenCV returns the
corners). An image is `seq<seq<T>>` indexed `[y][x]`; the pixel type `T`
is arbitrary, so a colour image is an image of colour triples
(numpy's slicing leaves the channel axis alone).

Crop bounds past the far edge of the image clamp to the image size. A
truncated bound of -1 or below counts from the far edge instead (see
"Findings"). The model follows the code.

## Model

| member | source | states |
|---|---|---|
| `Geometry.ScaleCorners` | cropfish/cropfish.py:16-20 | the scaled pair has the same midpoint; each corner's offset from that midpoint, and the separation of the pair, grow by exactly 8/6; coincident corners come back unchanged |
| `Geometry.ScaleCornersClosedForm` | cropfish/cropfish.py:16-19 | each scaled corner is the affine combination `(7 * own - other) / 6` of the inputs |
| `Geometry.ScaleCornersInverse` | cropfish/cropfish.py:16-20 | scaling the result back by 6/8 about its midpoint recovers both detected corners |
| `Geometry.ScaleCornersEnlargesBox` | cropfish/cropfish.py:16-19 | on each axis the scaled box contains the detected one (the smaller coordinate never grows, the larger never shrinks) |
| `Geometry.ScaleCornersSwap` | cropfish/cropfish.py:16-20 | swapping the two detected corners swaps the two scaled corners |
| `PySemantics.TruncToZero` | cropfish/cropfish.py:58-59 | `int()` of a float: the integer within one of `x` on the side of zero, of the same sign |
| `PySemantics.TruncToZeroUnique` | cropfish/cropfish.py:58-59 | that description determines the integer uniquely |
| `PySemantics.TruncToZeroMonotone` | cropfish/cropfish.py:58-59 | truncation is monotone, so `int(min) <= int(max)` |
| `PySemantics.TruncToZeroVersusFloor` | cropfish/cropfish.py:58-59 | truncation equals flooring except on negative non-integers, where it is one more |
| `PySemantics.NegativeIndexCountsFromEnd` | cropfish/cropfish.py:60 | a slice bound from `-n` to `-1` lands at `n + i`, not at 0 |
| `PySemantics.PySlice` | cropfish/cropfish.py:60 | `s[lo:hi]` is total, never longer than `s`, has as many items as the resolved and clamped bounds span (none when start >= stop), and its items are consecutive items of `s` from the clamped start |
| `PySemantics.PickIsClampedSlice` | cropfish/cropfish.py:60 | selecting the items whose index lies in `[lo, hi)` is the same as slicing between the bounds clamped into `[0, len(s)]` |
| `PySemantics.PySliceIsPick` | cropfish/cropfish.py:60 | `s[lo:hi]` is the items of `s` whose index lies between the bounds after negative bounds are counted from the end (the language reference's definition) |
| `PySemantics.PySliceInRange` | cropfish/cropfish.py:60 | with `0 <= lo <= hi <= len(s)` the slice is the ordinary subsequence `s[lo..hi]` |
| `PySemantics.PySliceIsWindow` | cropfish/cropfish.py:60 | whatever the bounds, a slice is a contiguous run of `s` |
| `Crop.CropBounds` | cropfish/cropfish.py:58-59 | the window's bounds are the truncated coordinates of the two corners, sorted per axis, so `min_x <= max_x` and `min_y <= max_y` |
| `Crop.CropWindow` | cropfish/cropfish.py:60 | a 2-D slice is at most as tall as the image and is consecutive rows of it, each cut to a contiguous run |
| `Crop.CropWindowNonNegative` | cropfish/cropfish.py:60 | for non-negative bounds on a `w`-wide image the slice has as many rows and columns as the window shares with the image, and cell `(i, j)` is pixel `(min_y + i, min_x + j)` |
| `Crop.CropWindowExact` | cropfish/cropfish.py:60 | for any bounds, negative ones included, on a `w`-wide image: the slice has as many rows and columns as Python's slice rules give each axis, and cell `(i, j)` is the pixel at the resolved and clamped starts plus `(i, j)`, so a start from `-h` to `-1` begins that many rows above the bottom edge |
| `Crop.CropImage` | cropfish/cropfish.py:58-61 | `crop_image` is total and returns a piece of the image: consecutive rows, each a contiguous sub-slice of an image row |
| `Crop.CropImageOrderIndependent` | cropfish/cropfish.py:58-60 | `crop_image(img, c1, c2) == crop_image(img, c2, c1)` |
| `Crop.CropImageInBounds` | cropfish/cropfish.py:58-60 | with the truncated window inside the image, the crop has `max_y - min_y` rows of `max_x - min_x` pixels and cell `(i, j)` is `img[min_y + i][min_x + j]` |
| `Crop.CropImageRectangular` | cropfish/cropfish.py:58-60 | a rectangular image crops to a rectangular image for any corners, each row as wide as the column slice |
| `Crop.CropImageDegenerate` | cropfish/cropfish.py:58-61 | corners that truncate to the same row give no rows, and to the same column only empty rows, rather than an error |
| `Crop.ClipAtZero` | cropfish/cropfish.py:58-60 | the clipped window has no negative bound and equals the original window when that one has none |
| `Crop.ClippedWindow` | cropfish/cropfish.py:58-60 | the window clipped at zero holds exactly the pixels of the image inside the original window |
| `Crop.CropImageClipped` | cropfish/cropfish.py:58-61 | the corrected crop: exactly the pixels of the image inside the truncated rectangle, however far the corners lie outside the image |
| `Crop.CropImageAgreesWhenNonNegative` | cropfish/cropfish.py:58-61 | when neither minimum bound is negative, the crop as written equals the corrected crop |
| `Crop.NegativeCornerWrapsRound` | cropfish/cropfish.py:58-60 | on a 4x4 image with corners at y = -1.5 and y = 2 the crop as written is empty, while the corrected crop holds image rows 0 and 1 |
| `Detect.Binarize` | cropfish/cropfish.py:37 | same shape as the grey image; every pixel is 0 or 255, and 255 exactly when the grey value is below the threshold |
| `Detect.BinarizeMonotone` | cropfish/cropfish.py:35-37 | a pixel that is foreground at a lower threshold is foreground at a higher one |
| `Detect.FirstDetection` | cropfish/cropfish.py:35-44 | the result is `None` exactly when the detector fails at every threshold; otherwise it is the detection at some threshold before which every threshold failed |
| `Detect.FindCorners` | cropfish/cropfish.py:35-44 | the detection at 160 if that succeeds, otherwise the detection at 192; `None` only when both fail |

## Left out

- `cv2.resize`, `cv2.cvtColor` and `cv2.findChessboardCorners` (cropfish/cropfish.py:33-34, 39) are foreign library calls. `FindCorners` takes the already resized grey image, and the detector is a function parameter.
- The `1/resize_factor` rescaling of the detected corners and the choice of `corners[0][0]` and `corners[-1][0]` (cropfish/cropfish.py:41-42) depend on the detector's output array. They are folded into the detector parameter, which returns the two corners directly.
- The command-line entry point `cropfish_cli` (cropfish/cropfish.py:63-82) is file I/O, argument parsing and printing. The progress messages of `find_corners` are printing too.
- Floating-point rounding. The corners are float32, as OpenCV returns them, and `8 / 6` is the float64 1.3333333333333333; here it is exactly 4/3 and all coordinate arithmetic is exact. `int()` of NaN or an infinity raises in Python; a `real` has neither.
- `Crop.CropWindowExact`, `Crop.CropWindowNonNegative`, `Crop.CropImageInBounds`, `Crop.CropImageRectangular`, `Crop.ClippedWindow` and `Crop.CropImageClipped` assume a rectangular image (every row `w` pixels wide), as a numpy array is. `CropImage` itself slices each row with the same column bounds, which on a rectangular image is numpy's column slice.

## Findings

| source | as written | input that shows it | evidently intended | confidence | as-written member | corrected member |
|---|---|---|---|---|---|---|
| cropfish/cropfish.py:58-60 | a truncated bound of -1 or below is used directly as a slice bound, and Python counts it from the far edge of the image | a 4x4 image with corners (0, -1.5) and (4, 2): `int(-1.5)` is -1, `image[-1:2]` is `image[3:2]`, so the crop is empty although rows 0 and 1 lie inside the rectangle; a board near the top or left edge, widened by 8/6, produces such corners | bounds clipped at zero, so the crop is the part of the image inside the rectangle | medium (not executed) | `Crop.NegativeCornerWrapsRound` | `Crop.CropImageClipped` |
