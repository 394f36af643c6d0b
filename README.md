# Shooting target: verified model of the contour and threshold logic

This project models the statable logic of a small interactive tool. The tool finds a coloured circular target in a photograph. It builds a colour band around a sampled HSV colour and marks the pixels inside it. From the contours of that mask it picks the target contour, the one of largest area with ties going to the first. It also fits a circle to every background contour. Separately, it lists the visible entries of an image directory.

The model has five modules:

- `Wrappers`: `Option`, used where the source reads a reference it never set.
- `Vectors`: `Vector<T>`, a caller-owned `std::vector` that the source appends to with `push_back`.
- `Contours`: target selection (`getMaxContour`) and background circle collection (`getAllContours`). The library calls `contourArea` and `minEnclosingCircle` are function-typed parameters that the model knows nothing about.
- `Threshold`: the saturating `Vec3b` band around a reference colour and the inclusive `inRange` test, as pure functions on byte triples.
- `Directory`: the `lsDir` name filter. It is a method over a caller-owned vector, specified by the function `NonHidden`.

All source paths below are in `shooting.cpp`.

## Model

| member | source | states |
|---|---|---|
| `Contours.GetMaxContour` | shooting.cpp:73-89 | No contour is selected exactly when no area is strictly positive, including the empty list. Otherwise the selected index is the first maximum: its area is positive, beats every earlier area strictly and every later one weakly. The reported size is that contour's area (0 when nothing is selected), and the circle is that contour's enclosing circle with its centre converted to a `Point`. |
| `Contours.FirstMaxUnique` | shooting.cpp:74-82 | At most one index is a first maximum, so the selection is deterministic. |
| `Contours.FirstMaxIsLeastArgMax` | shooting.cpp:78-80 | Being the first maximum means the same as being the least index holding the largest area, with that area positive. Ties therefore go to the first contour met. |
| `Contours.FirstMaxExists` | shooting.cpp:74-82 | A first maximum exists if and only if some area is strictly positive. |
| `Contours.FirstMaxOfPrefix` | shooting.cpp:76-82 | Among the first n areas, if one is positive, the lemma builds the index of the first maximum of that prefix. |
| `Contours.RoundHalfEven` | shooting.cpp:87 | The `Point(Point2f)` conversion rounds each coordinate to within 1/2, and a tie goes to the even integer. |
| `Contours.ScanAsWritten` | shooting.cpp:74-82 | The loop as written, started with an uninitialised `which`, ends with either that value or the index of a contour that was actually scanned. |
| `Contours.AsWrittenAgreesWhenPositive` | shooting.cpp:74-82 | When some area is positive, the loop as written ends on the first maximum whatever `which` held initially. The corrected search therefore differs from the source only on the inputs where the source reads `which` unset. |
| `Contours.AsWrittenKeepsFirstMax` | shooting.cpp:76-82 | From any point of the scan where the running size and `which` are the prefix's first maximum and its area (or 0 and nothing kept), the loop as written ends on the first maximum of all areas. |
| `Contours.AsWrittenLeavesWhichUnset` | shooting.cpp:74-83 | In the loop as written, if no area from some position on is positive, the loop ends with `which` still holding its uninitialised value. |
| `Contours.NoContourCounterexample` | shooting.cpp:83-86 | With no contours, or with one contour of area 0, the loop as written leaves `which` unset, yet lines 83 and 86 use it. |
| `Contours.GetAllContours` | shooting.cpp:91-99 | `centers` and `radius` each grow by exactly one entry per contour, and their earlier contents stay as a prefix. Entry k of each new suffix is the centre or radius of contour k's enclosing circle. Vectors that were parallel before stay parallel. |
| `Vectors.Vector.PushBack` | shooting.cpp:96-97 | Appending adds the element at the back and leaves the earlier elements unchanged. |
| `Threshold.Saturate` | shooting.cpp:102-103 | `saturate_cast<uchar>` maps values at or below 0 to 0 and values at or above 255 to 255, and leaves byte values unchanged. |
| `Threshold.Sub` | shooting.cpp:102 | `Vec3b` subtraction is channel-wise. On byte inputs it saturates only at the bottom: a channel is a - b when a >= b, and 0 otherwise. |
| `Threshold.Add` | shooting.cpp:103 | `Vec3b` addition is channel-wise. On byte inputs it saturates only at the top: a channel is a + b when that is at most 255, and 255 otherwise. |
| `Threshold.Low` | shooting.cpp:102 | The lower corner of the band is at or below the reference colour on every channel: c - 50 when c >= 50, and 0 otherwise. |
| `Threshold.High` | shooting.cpp:103 | The upper corner of the band is at or above the reference colour on every channel: c + 50 when that is at most 255, and 255 otherwise. |
| `Threshold.BandBounds` | shooting.cpp:102-103 | On each channel, low = max(c - 50, 0) and high = min(c + 50, 255), so 0 <= low <= c <= high <= 255. |
| `Threshold.InRange` | shooting.cpp:105 | The mask has the image's shape. A pixel is 255 when every channel lies in [low, high] with both bounds included, and 0 otherwise. |
| `Threshold.ThresholdMask` | shooting.cpp:101-105 | The mask made before morphology has the shape of the HSV image. |
| `Threshold.InBandIffWithinDelta` | shooting.cpp:101-105 | A pixel is inside the saturated band if and only if every channel differs from the reference by at most 50. Clamping to the byte range never changes membership. |
| `Threshold.ReferenceInBand` | shooting.cpp:105 | The reference colour always lies inside its own band. |
| `Threshold.ThresholdMaskAt` | shooting.cpp:101-105 | A mask pixel is 255 exactly when every channel is within 50 of the reference. It is 0 exactly when some channel differs by more than 50. |
| `Directory.NonHidden` | shooting.cpp:154-157 | The kept names are never hidden (no leading '.'), and there are at most as many as there are entries. |
| `Directory.NonHiddenAppend` | shooting.cpp:154-157 | Filtering a concatenation of entry streams gives the concatenation of the filtered streams, so the filter keeps input order. |
| `Directory.NonHiddenMembership` | shooting.cpp:155-156 | A name is listed if and only if it is an entry and does not begin with '.'. |
| `Directory.NonHiddenIdempotent` | shooting.cpp:155-156 | Filtering an already filtered list changes nothing. |
| `Directory.NonHiddenKeepsAllVisible` | shooting.cpp:155-156 | When no entry is hidden, every entry is kept, in order. |
| `Directory.LsDir` | shooting.cpp:151-159 | `files` ends up as its old contents followed by exactly the non-hidden entries in stream order. Nothing is cleared and nothing else is added. |

## Left out

- Image loading and scaling (`loadAndScale`): library decoding, plus float arithmetic truncated to int that feeds `resize`.
- HSV conversion and equalisation (`RGB2HSVEqualize`), and the morphology in `rangeThreshold` (lines 107-110): library calls whose semantics are not visible. The threshold model stops at the mask before morphology.
- Colour sampling (`catchColor`, `onMouseCatchColor`), the display and key-wait windows, and the debug circle drawing: event-driven GUI input and output.
- `contourArea` and `minEnclosingCircle`: function parameters with no properties assumed. `findContours` is not modelled; the contour list is an input.
- Printing (line 83's diagnostic, the directory names in `main`): output only. `GetMaxContour` returns the printed index and size as its `Selection` result.
- `opendir`/`readdir`/`closedir`: the successive entry names are an input sequence. The source does not check for a null directory handle, and the model does not cover that path.
- `Contours.RoundHalfEven`: out-of-range float-to-int conversion is not modelled. For values outside the 32-bit int range, OpenCV's conversion gives a platform-specific result. Centres here are image positions, far inside that range.
- `Contours.GetMaxContour`: float/double precision of areas and radii is not modelled; they are exact reals.
- `test()` and `main`: only sequencing and printing.

## Findings

| source | as written | input that shows it | evidently intended | confidence | as-written member | corrected member |
|---|---|---|---|---|---|---|
| shooting.cpp:75-86 | The iterator `which` is assigned only when an area exceeds the running size 0, but it is printed and dereferenced afterwards regardless. | no contours at all, or one contour of area 0 | report an explicit "no contour found" result instead of reading an unset iterator | high, not executed | `Contours.NoContourCounterexample` | `Contours.GetMaxContour` |
