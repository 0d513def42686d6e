# Counting cells and particles in dPCR microwell images — verified model

The analysis script reads microscopy images of microwell arrays, detects the
wells, fits an ideal square lattice of wells onto each panel, measures every
well's mean fluorescence, calls each fitted well positive or negative against
a threshold, and turns the positive fraction into a Poisson concentration.
This project models three pieces of that pipeline and proves what they
compute:

- `Intensity` (intensity.dfy): `CircleIntensity`, the disk-mask mean brightness
  of one well. The image is an `array2<Byte>` indexed `image[x, y]`, with `x`
  checked against the first dimension. Centre and radius are integers, as at
  both call sites. The method scans the padded box with two nested `while`
  loops and accumulates `pixel / 255` and a pixel count. It is proved equal
  to the mean over `MaskPoints`, the kept pixels in scan order. Lemmas show
  that these are exactly the in-image pixels of the closed disk, each taken
  once, and that the mean lies in [0, 1]. They also show the result is `v/255`
  on a uniform image and 0 when no pixel is kept.
- `DetectedScan` (detected_scan.dfy): the same function applied to detected
  circles. These reach it as NumPy `uint16` scalars, and that changes its scan
  ranges (see Findings).
- `GridFit` (grid_fit.dfy): the inline grid fitter. It collects the detected x
  and y values and anchors the lattice at their minima. It then appends
  `ArraySize²` wells `[int(xmin + xdist*xcount), int(ymin + ydist*ycount), 6]`,
  with `xcount` as the outer loop. The method is proved equal to `Grid`, the
  loop-shaped specification. Lemmas give the index formula, the length, the
  radius, the anchor and a worked four-corner example.
- `Classify` (classify.dfy): the final count. Intensities below the threshold
  are positive and those at or above it are negative. Selector 2 swaps the
  two counts. The method then computes `pHat = Npos / (Npos + Nneg)` and
  `Npart`.
- `Outcome` (outcome.dfy): the `Result` type. It stands for the two places where
  the script raises: the detection step when nothing was detected (indexing
  `circles[0,:]` when the detector returns no array, or `min` of an empty
  list), and a float division by zero when there are no fitted intensities.

Notes on what the script does:

- The scan ranges are half-open `range(lo, hi)`, not a closed box. With the
  2-pixel pad this changes nothing for the disk (`MaskIsClippedDisk`).
- Fitted wells are truncated with `int()`. The anchor is therefore
  `(int(xmin), int(ymin))`, not `(xmin, ymin)` (`GridAnchor`).
- An empty detection is not handled by the script: line 210 or `min` at line
  218 raises. The model
  returns `Err(NoCirclesDetected)` for it, and `Err(NoPartitions)` for the
  division by zero.
- The pixel read is `image[x, y]` with `x` on the first array axis (lines 112
  and 115), and the model keeps that indexing. The detector reports `x` as a
  column, so under OpenCV's convention each well is measured at its transposed
  position, with the bounds check clipping consistently with that read.
- The polarity selector swaps the counts only when it equals 2. Any other
  value leaves them as counted.

## Model

| member | source | states |
|---|---|---|
| `Intensity.CircleIntensity` | Grid_Intensity_circles_v3.py:93-122 | returns the mean of `pixel/255` over the kept pixels of the scan (0 when none is kept, the count being forced to 1), and the result lies in [0, 1] |
| `Intensity.ScanPointsMembership` | Grid_Intensity_circles_v3.py:110-116 | a coordinate is read and kept exactly when it lies in the scan ranges, passes the bounds check `0 <= x <= shape[0]-1`, `0 <= y <= shape[1]-1`, and lies within distance `radius` of the centre |
| `Intensity.DiskInsideScanBox` | Grid_Intensity_circles_v3.py:110-111 | the box `[cx-r-2, cx+r+2) x [cy-r-2, cy+r+2)` contains every pixel of the closed disk |
| `Intensity.MaskIsClippedDisk` | Grid_Intensity_circles_v3.py:110-116 | the averaged pixels are exactly the in-image pixels of the closed disk, and none is taken twice |
| `Intensity.BoundaryPixelCounted` | Grid_Intensity_circles_v3.py:113-114 | the test is inclusive: every in-image pixel at distance exactly `radius` from the centre is averaged |
| `Intensity.SqrtTestIsIntegerTest` | Grid_Intensity_circles_v3.py:113-114 | for `s = sqrt(d2)`, `s <= r` holds iff `r >= 0 && d2 <= r*r`, so the integer test used by the model is the source's square-root test |
| `Intensity.BrightnessBounds` | Grid_Intensity_circles_v3.py:115-116 | the accumulated brightness of `n` 8-bit pixels lies in [0, n] |
| `Intensity.MeanInUnitInterval` | Grid_Intensity_circles_v3.py:115-120 | every intensity lies in [0, 1] |
| `Intensity.UniformBrightness` | Grid_Intensity_circles_v3.py:115-116 | over pixels all of grey level `v`, the accumulated brightness is `n * v/255` |
| `Intensity.UniformMean` | Grid_Intensity_circles_v3.py:115-120 | over a non-empty set of pixels all of grey level `v`, the mean is `v/255` |
| `Intensity.UniformImageMean` | Grid_Intensity_circles_v3.py:110-120 | on an image of constant grey level `v`, any circle that keeps at least one pixel has intensity `v/255`, wherever it lies |
| `Intensity.NoPixelGivesZero` | Grid_Intensity_circles_v3.py:117-120 | a circle whose disk holds no in-image pixel has intensity exactly 0 |
| `DetectedScan.WrapU16` | Grid_Intensity_circles_v3.py:246 | uint16 arithmetic is the identity on [0, 65536) and adds 65536 to a negative result down to -65536 |
| `DetectedScan.ScanBoxU16` | Grid_Intensity_circles_v3.py:110-111 | with uint16 centre and radius, the scan ranges are the ordinary padded ranges `[c-r-2, c+r+2)` when `c-r` does not wrap, and empty when the centre is smaller than the radius |
| `DetectedScan.DetectedIntensityAsWritten` | Grid_Intensity_circles_v3.py:246 | the intensity of a detected circle as the script computes it (uint16 arguments, lines 260-261 and 110-122) lies in [0, 1] |
| `DetectedScan.DetectedIntensity` | Grid_Intensity_circles_v3.py:110-122 | the corrected intensity of a detected circle lies in [0, 1], and is 1.0 on an all-white image whenever the centre is in the image |
| `DetectedScan.EdgeCircleReadsNothing` | Grid_Intensity_circles_v3.py:110-111 | as written, a uint16 circle whose centre is closer to the low x or y edge than its radius reads no pixel and gets intensity 0 |
| `DetectedScan.EdgeCircleCounterexample` | Grid_Intensity_circles_v3.py:110-120 | on an all-white image the detected circle (3, 20, 5) is reported as 0.0, while its clipped disk has mean 1.0 |
| `DetectedScan.AsWrittenAgreesAwayFromEdges` | Grid_Intensity_circles_v3.py:110-111 | when the centre is at least the radius away from both low edges, the wrapped ranges are the ordinary ones and both intensities agree |
| `GridFit.Trunc` | Grid_Intensity_circles_v3.py:228 | `int()` of a float truncates toward zero: `t <= v < t+1` for `v >= 0`, `t-1 < v <= t` for `v < 0` |
| `GridFit.TruncMonotone` | Grid_Intensity_circles_v3.py:228 | truncation is monotone |
| `GridFit.Min` | Grid_Intensity_circles_v3.py:218-219 | `min` of a non-empty list is an element of it and no element is smaller |
| `GridFit.FitGrid` | Grid_Intensity_circles_v3.py:204-229 | an empty detection fails; otherwise the result is the lattice anchored at the minimum detected x and the minimum detected y, `arraySize` columns of `arraySize` wells in append order |
| `GridFit.ColumnAt` | Grid_Intensity_circles_v3.py:225-228 | column `xcount` has `rows` wells and its `j`-th is `[int(xmin+xdist*xcount), int(ymin+ydist*j), 6]` |
| `GridFit.GridLength` | Grid_Intensity_circles_v3.py:224-225 | `cols` columns of `size` wells give `cols*size` wells |
| `GridFit.GridAt` | Grid_Intensity_circles_v3.py:224-228 | the well of column `i` and row `j` is at index `i*size + j` |
| `GridFit.GridIndexFormula` | Grid_Intensity_circles_v3.py:224-228 | an `n x n` lattice has exactly `n*n` wells; index `k` holds column `k/n`, row `k%n`, and has radius 6 |
| `GridFit.GridAnchor` | Grid_Intensity_circles_v3.py:213-228 | the first well is `(int(xmin), int(ymin), 6)`, and with non-negative spacing no well has a smaller x or y |
| `GridFit.DefaultGridExtent` | Grid_Intensity_circles_v3.py:35-38 | with the configured 30 x 30 array and spacing 24.5, a panel gets 900 wells and the last one is `(int(xmin+710.5), int(ymin+710.5), 6)` |
| `GridFit.FourCornersRefit` | Grid_Intensity_circles_v3.py:213-228 | the detected corners (10,10), (10,40), (40,10), (40,40) of a 2 x 2 array with spacing 30 are fitted back onto themselves, in column-major order |
| `Classify.CountsPartition` | Grid_Intensity_circles_v3.py:304-308 | every intensity is counted exactly once: `Npos + Nneg` is the number of intensities |
| `Classify.ThresholdValueIsNegative` | Grid_Intensity_circles_v3.py:305-308 | an intensity equal to the threshold adds a negative call and no positive one |
| `Classify.CountBelowMonotone` | Grid_Intensity_circles_v3.py:305-308 | raising the threshold never lowers the positive count and never raises the negative count |
| `Classify.PositiveFraction` | Grid_Intensity_circles_v3.py:317 | `pHat` lies in [0, 1]; it is 0 iff there is no positive, 1 iff there is no negative, and `pHat * Npart == Npos` |
| `Classify.SwapComplementsFraction` | Grid_Intensity_circles_v3.py:310-317 | after the swap, `pHat` becomes `1 - pHat` |
| `Classify.FractionMonotone` | Grid_Intensity_circles_v3.py:317 | one more positive, with the negatives unchanged, never lowers `pHat` |
| `Classify.Summarize` | Grid_Intensity_circles_v3.py:304-318 | fails, with `NoPartitions`, exactly when there is no intensity, and succeeds otherwise. Then `Npos` and `Nneg` are the below- and at-or-above-threshold counts, swapped exactly when the selector is 2. `Npart` is their sum and equals the number of intensities. `pHat` is `Npos / Npart`, lies in [0, 1] and satisfies `pHat * Npart == Npos` |

## Findings

| source | as written | input that shows it | evidently intended | confidence | as-written member | corrected member |
|---|---|---|---|---|---|---|
| Grid_Intensity_circles_v3.py:110-111 | Detected circles reach `CircleIntensity` as `uint16` scalars (lines 246, 260-261). `centerx-radius` is a uint16 subtraction, which wraps modulo 65536 when the centre is smaller than the radius. The scan range then starts near 65530 and is empty, so the intensity is 0. | detected circle (3, 20, 5) on an all-white image of at least 10 x 30 pixels: reported 0.0 | the mean over the in-image part of the disk, as the bounds check at line 112 intends: 1.0 | medium, not executed; it depends on NumPy 1 scalar promotion | `DetectedScan.EdgeCircleCounterexample` | `Intensity.CircleIntensity` |

`DetectedScan.EdgeCircleReadsNothing` states the general case. The corrected
behaviour is the integer scan of `Intensity.CircleIntensity`, and
`Intensity.MaskIsClippedDisk` proves that it averages exactly the clipped
disk. `DetectedScan.DetectedIntensity` applies it to a detected circle.

## Left out

- `ConcCallculation` (lines 52-87): the concentration and its confidence bounds are built on `math.sqrt` and `math.log` over floats, and it is undefined when `pHat` or a bound reaches 1. The model stops at `pHat` and `Npart`.
- Image loading, median blur, colour conversion and `cv2.HoughCircles` (lines 192-201) are foreign library calls. The detected circles are an input sequence.
- Drawing the circles and saving the images (lines 232-256) is rendering and I/O.
- All file writes and reads, the tab-delimited `str()` records and the `Histogram`/plotly code (lines 132-173, 209-215, 223-229, 259-274, 294-301) are left out. The `circles-fitted.txt` row uses the literal 24.5 and untruncated coordinates. Only the in-memory list of line 228 is modelled.
- The `input()` prompts and the printed summary (lines 286-287, 321-327) are interactive glue. The threshold and the selector are parameters.
- The per-panel driver loop (lines 181-274) is left out. It feeds each detected and fitted circle to `CircleIntensity` and appends the fitted intensities to `intensity_table-fitted.txt` (line 268).
- `Classify.Summarize`: its input is the fitted intensities of this run only. The script counts every line of `intensity_table-fitted.txt` (lines 294-304), a file it only appends to and never clears, unlike `circles.txt` and `intensity_table.txt` (lines 168-173). Wells from earlier runs are counted again, so `Npart` can exceed the number of panels times `ArraySize²`.
- The rounding `np.around` of the detected circles (line 232) is left out. `DetectedScan` takes the rounded uint16 triple as input.
- Floating-point arithmetic is modelled with reals. This covers the float32 detector output, `xmin + xdist*xcount`, `pixel/255` and `Npos/(Npos+Nneg)`. Rounding errors and NaN are not modelled. The counts `Npos`/`Nneg` are naturals rather than float accumulators, which is exact below 2^53.
- `Intensity.CircleIntensity`: takes integer centre and radius, as both call sites pass. The `round`/`int` of the scan bounds is therefore the identity and is not modelled for float arguments.
- `DetectedScan.EdgeCircleReadsNothing`: assumes NumPy 1 promotion. There, `uint16 - uint16` stays uint16, and `uint16 - 2` with a Python int becomes a signed int. Under NumPy 2 the wrap also occurs when the centre is less than radius + 2.
