# Text detection demo: per-frame region handling

This project models the frame-processing core of the OpenVINO text detection
demo (`demos/text_detection_demo/main.cpp`). It covers what happens to one
frame after detection:

- The demo builds the region list. Without a detector it is a single
  zero-size placeholder region.
- It caps the number of regions: when the cap is set and exceeded, it sorts
  the regions in place by area, largest first, and truncates the list.
- For each region, it chooses the recognizer input:
  - If the region is rectified, the demo picks the anchor ("top-left") corner
    with `topLeftPoint`. It then builds the three corner pairs that
    `cropImage` hands to the affine map.
  - Otherwise it uses the fixed centre-crop window, or the whole frame.
- It checks the recognizer's output width against the alphabet. The
  alphabet is the user's symbol set plus the reserved pad symbol `#`.
- It gates each decoded string by confidence and counts the regions found.
- In report mode it writes one line per region: the clipped integer corner
  coordinates, then `,text` when a recognizer is configured.

The modules follow the source:

| module | file | content |
|---|---|---|
| `Geometry` | `geometry.dfy` | `clip`, the float-to-int cast, `topLeftPoint` (the loop, its reference definition and its properties), the `cropImage` correspondence, the centre-crop window |
| `Recognition` | `recognition.dfy` | alphabet construction, the output-width check, the confidence gate and the found count |
| `Regions` | `regions.dfy` | rotated rectangles and the in-place sort-and-truncate cap on an `array` |
| `Report` | `report.dfy` | decimal text of integers, comma joining and splitting, the report-line loop and its read-back property |
| `Frame` | `frame.dfy` | the per-frame loop (`ProcessFrame`), its functional description `FrameReport`, and the lemmas about a frame's outcome |
| `Wrappers` | `wrappers.dfy` | `Option` and `Result` |

Floats are modelled as exact reals. `static_cast<int>` is truncation toward
zero (`Geometry.Trunc`), and `FLT_MAX` is the exact value of the largest
`float`.

Some inputs are foreign code, so they enter as parameters of the frame
functions and methods:

- the detector output (`detected`);
- the corner computation of a rotated rectangle (`cornersOf`);
- the recognizer with its CTC decoder (`recognize`, which returns the output
  width, the decoded string and its confidence).

A run-aborting exception becomes the `Aborted` outcome. Two exceptions can
arise in the region loop:

- `std::runtime_error` when the recognizer's output width differs from the
  alphabet length (`Config(AlphabetMismatch(..))`);
- OpenCV's region-of-interest assertion when the centre-crop window does not
  lie inside the image (`WindowOutsideFrame`).

`Aborted` keeps the report lines already written for earlier regions of that
frame, and only those (`Frame.RunAbortKeepsEarlierLines`). One might expect an
aborted frame to withhold its partial output, but the demo ends each report
line with `std::endl`, which flushes it before a later region throws.

`topLeftPoint` is a single pass. It keeps the leftmost point and the leftmost
point with a different value ("almost leftmost"). Then it prefers the
almost-leftmost point when that point is strictly higher. The model gives a
two-pass reference definition (`FirstLeftmost`, `FirstLeftmostOther`,
`TopLeftIndex`) and proves the loop equal to it.

One might expect the anchor of a rectangle not to depend on which corner the
list starts from. The code does depend on it when two distinct corners, other
than a leftmost corner, tie for the leftmost x among the rest. For a square
rotated by 45 degrees, starting at the left corner selects the top corner,
and starting at the bottom corner selects the left corner
(`Geometry.DiamondAnchorDependsOnStart`). The model follows the code.
Start-independence is proved for every list without such a tie
(`Geometry.TopLeftRotationInvariant`). Every axis-aligned rectangle of
positive size, the shape of a horizontal text line, has no such tie and is
anchored at its top-left corner from every start, when its corners are listed
clockwise (`Geometry.AxisRectAnchorFromEveryStart`).

The centre-crop window lies inside the image exactly when it is not taller
than the image (`Geometry.CentreCropRect`). A frame more than about 40 times
wider than tall violates that, so cutting the window out throws and the run
ends. The window's `y` can then be negative (`Geometry.CentreCropAboveWideFrame`)
or zero (`Geometry.CentreCropBelowShortFrame`, a 400 x 9 frame).

The alphabet and the symbol set are modelled as sequences of characters, each
standing for one byte of the source's `std::string`, so `|alphabet|` is
`kAlphabet.length()`.

## Model

| member | source | states |
|---|---|---|
| Geometry.Clip | demos/text_detection_demo/main.cpp:60-62 | the result lies in [0, max] when max >= 0; a value already in range is returned unchanged; negatives give 0, values above max give max; a negative max is returned as is |
| Geometry.ClipIdempotent | demos/text_detection_demo/main.cpp:60-62 | clipping twice equals clipping once |
| Geometry.ClipIsNearest | demos/text_detection_demo/main.cpp:60-62 | for max >= 0, no point of [0, max] is closer to x than the clipped value |
| Geometry.Trunc | demos/text_detection_demo/main.cpp:172-175 | truncation toward zero: the floor for non-negative values, the ceiling for negative ones |
| Geometry.FirstLeftmost | demos/text_detection_demo/main.cpp:312-318 | index of the first point of minimal x; -1 exactly for the empty list |
| Geometry.FirstLeftmostOther | demos/text_detection_demo/main.cpp:313-322 | index of the first point of minimal x among the points whose value differs from m; -1 exactly when every point equals m |
| Geometry.TopLeftIndex | demos/text_detection_demo/main.cpp:325-328 | the anchor is the first leftmost point, unless the almost-leftmost exists and is strictly higher; -1 exactly for the empty list |
| Geometry.TopLeftPoint | demos/text_detection_demo/main.cpp:302-331 | the one-pass loop returns the index `TopLeftIndex` selects and that point, or -1 and the (FLT_MAX, FLT_MAX) marker for an empty list |
| Geometry.TopLeftIsLeftmostOrHigher | demos/text_detection_demo/main.cpp:312-328 | only copies of the leftmost point lie strictly left of the anchor, and an anchor other than the leftmost is strictly higher than it |
| Geometry.TopLeftDependsOnlyOnValues | demos/text_detection_demo/main.cpp:302-331 | two lists with the same point values select the same anchor point, unless two distinct corners other than a leftmost one tie for leftmost among the rest |
| Geometry.Rotate | demos/text_detection_demo/main.cpp:302-331 | helper describing the input, not code: the corner list read from another starting corner keeps its length and its point values |
| Geometry.TopLeftRotationInvariant | demos/text_detection_demo/main.cpp:302-331 | without such a tie, the anchor point does not depend on the starting corner |
| Geometry.DiamondAnchorDependsOnStart | demos/text_detection_demo/main.cpp:302-331 | for the 45-degree square the anchor is (1, 0) from one start and (0, 1) from another |
| Geometry.AxisRectUnambiguous | demos/text_detection_demo/main.cpp:302-331 | every axis-aligned rectangle of positive width and height, listed clockwise from its top-left corner, has no such tie |
| Geometry.AxisRectAnchorFromEveryStart | demos/text_detection_demo/main.cpp:302-331 | every such rectangle is anchored at its top-left corner from each of its four starting corners |
| Geometry.CropSourceIndices | demos/text_detection_demo/main.cpp:334-336 | the three source corners are the anchor, the next corner and the one after, in that cyclic order; they are distinct, in 0..3, and omit exactly the corner before the anchor |
| Geometry.CropDestinations | demos/text_detection_demo/main.cpp:340-341 | the destinations are (0, 0), (w-1, 0) and (w-1, h-1) of the target, in that order, all inside the target |
| Geometry.CropCorrespondence | demos/text_detection_demo/main.cpp:333-342 | three pairs, the anchor mapped to (0, 0), pair k joining source corner k to destination k |
| Geometry.OmittedCornerDetermined | demos/text_detection_demo/main.cpp:333-342 | for a parallelogram, the corner the crop ignores is fixed by the three it uses |
| Geometry.CentreCropRect | demos/text_detection_demo/main.cpp:172-178 | width is 5% of the frame width rounded down, height half of it rounded down; the window is centred (left and right margins differ by at most one, top and bottom likewise); it lies inside the image exactly when it is not taller than the image |
| Geometry.CentreCropAboveWideFrame | demos/text_detection_demo/main.cpp:172-178 | a 400x1 frame gives a window with negative y |
| Geometry.CentreCropBelowShortFrame | demos/text_detection_demo/main.cpp:172-178 | a 400x9 frame gives a window at y = 0, 10 rows tall, which does not lie inside the image |
| Recognition.MakeAlphabet | demos/text_detection_demo/main.cpp:80-84 | fails exactly when the symbol set holds `#`; otherwise the alphabet is the symbol set followed by `#`, and `#` occurs only at the end |
| Recognition.PadIsLast | demos/text_detection_demo/main.cpp:80-84 | a built alphabet ends in `#`, holds exactly one `#`, and dropping it gives back the symbol set |
| Recognition.CheckOutputWidth | demos/text_detection_demo/main.cpp:191-192 | succeeds exactly when the output width equals the alphabet length, else reports both numbers |
| Recognition.Gate | demos/text_detection_demo/main.cpp:202 | the string survives unchanged at or above the threshold, else becomes empty; it is non-empty exactly when the string is and the threshold is met |
| Recognition.CountFound | demos/text_detection_demo/main.cpp:202-203 | the count is the number of positions whose result survives the gate with a non-empty string; at most one per result, and all results count exactly when each survives |
| Recognition.CountFoundAntitone | demos/text_detection_demo/main.cpp:202-203 | a higher threshold never increases the count |
| Regions.SortByAreaDesc | demos/text_detection_demo/main.cpp:151-153 | the array ends ordered by non-increasing area and is a permutation of its old contents |
| Regions.CapRegions | demos/text_detection_demo/main.cpp:150-155 | when the cap applies, the array is sorted, a permutation, and cut to the cap; otherwise it is unchanged; in both cases the kept prefix is what `IsCapOf` describes |
| Regions.SortedPrefixIsCap | demos/text_detection_demo/main.cpp:150-155 | cutting a sorted permutation of the input to the cap keeps exactly cap regions drawn from the input, none smaller than any region dropped |
| Report.ParseIntOfDecimal | demos/text_detection_demo/main.cpp:208-209 | the decimal text written for an integer reads back as that integer |
| Report.SplitJoin | demos/text_detection_demo/main.cpp:207-216 | splitting comma-joined fields at the commas gives back the fields when none holds a comma |
| Report.ReportedCoordinates | demos/text_detection_demo/main.cpp:207-212 | two numbers per point |
| Report.ReportedCoordinatesAt | demos/text_detection_demo/main.cpp:208-209 | the numbers of point k are its clipped truncated x and y, at positions 2k and 2k+1 |
| Report.ReportedCoordinatesInFrame | demos/text_detection_demo/main.cpp:208-209 | every reported x lies in [0, cols-1] and every y in [0, rows-1] |
| Report.WriteReportLine | demos/text_detection_demo/main.cpp:206-219 | the loop writes the coordinates joined by commas, then `,text` when a text is given, as `ReportLine` describes |
| Report.ReportLineReadsBack | demos/text_detection_demo/main.cpp:206-219 | for a region with points and a text without commas, the line splits into one field per coordinate that parses back to it, then the text |
| Frame.FrameInput | demos/text_detection_demo/main.cpp:139-148 | with a detector the region list is the detector's regions; without one it is the single zero-size placeholder |
| Frame.PlanRegion | demos/text_detection_demo/main.cpp:164-184 | rectified exactly for a non-zero region with a detector, using the `TopLeftIndex` anchor and the three pairs of `CropCorrespondence`; else the `CentreCropRect` window (reported by its top-left corner) when enabled, else the whole frame with no points |
| Frame.PrepareRegion | demos/text_detection_demo/main.cpp:161-184 | the branch, run with the `TopLeftPoint` loop, yields the plan `PlanRegion` describes |
| Frame.RegionText | demos/text_detection_demo/main.cpp:186-204 | empty without a recognizer; with one, fails exactly on an output-width mismatch and otherwise is the decoded string passed through the confidence gate |
| Frame.HandleRegion | demos/text_detection_demo/main.cpp:178-219 | one loop turn yields the next outcome as `Step` describes: an abort when the centre-crop window leaves the image or the width mismatches, else the line, the gated string and the updated count |
| Frame.RunRegions | demos/text_detection_demo/main.cpp:157-220 | the region loop yields `FrameReport` of the capped regions |
| Frame.CapFrameRegions | demos/text_detection_demo/main.cpp:150-155 | the region list after the in-place cap is what `IsCapOf` describes |
| Frame.ProcessFrame | demos/text_detection_demo/main.cpp:139-220 | the capped regions satisfy `IsCapOf` for the frame's region list, and the outcome is `FrameReport` of them |
| Frame.RunStep | demos/text_detection_demo/main.cpp:159-220 | the outcome after i+1 regions is one `Step` after the outcome after i |
| Frame.StepCompleted | demos/text_detection_demo/main.cpp:186-219 | a turn that completes appends the region's gated string, its line in report mode, and one to the count for a non-empty string |
| Frame.AbortIsFinal | demos/text_detection_demo/main.cpp:178-192 | once aborted, later regions change nothing |
| Frame.RunCompletedTexts | demos/text_detection_demo/main.cpp:186-204 | a completed loop keeps exactly one string per region, the region's `RegionText` |
| Frame.LinesMatchSnoc | demos/text_detection_demo/main.cpp:206-219 | appending a region's line and string keeps lines and strings aligned with the regions |
| Frame.RunCompletedLines | demos/text_detection_demo/main.cpp:206-219 | in report mode a completed loop wrote exactly one line per region, that region's report line with its kept string; otherwise none |
| Frame.FoundStart | demos/text_detection_demo/main.cpp:157 | the found count starts at 0 with a recognizer and at the number of capped regions without one |
| Frame.RunCountsFound | demos/text_detection_demo/main.cpp:157-203 | the found count is its start plus, with a recognizer, the number of decoder outputs passing the gate non-empty |
| Frame.RunAbortsIffRegionFails | demos/text_detection_demo/main.cpp:178-192 | the loop aborts exactly when some region's centre-crop window leaves the image, or a recognizer is configured and some region's output width differs from the alphabet length |
| Frame.RunAbortKeepsEarlierLines | demos/text_detection_demo/main.cpp:178-218 | an aborted loop stopped at its first failing region: the regions before it all completed, the fault is that region's, and the lines are exactly those written for the regions before it |
| Frame.FrameFoundAntitone | demos/text_detection_demo/main.cpp:202-203 | a higher threshold never raises the found count and does not change whether the frame aborts |
| Frame.NoDetectorNeverRectifies | demos/text_detection_demo/main.cpp:146-148 | without a detector the capped list is the placeholder alone (or empty under a cap of 0), and no region is rectified |
| Frame.FrameCompleted | demos/text_detection_demo/main.cpp:157-220 | a completed frame keeps one gated string per region, counts all regions without a recognizer and the non-empty strings with one, and in report mode writes one line per region in order |
| Frame.FrameAbortsIffFault | demos/text_detection_demo/main.cpp:164-192 | a frame aborts exactly when some region gets the centre-crop window and that window is taller than the image, or a recognizer is configured and some region's output width differs from the alphabet length |

## Left out

- Frame capture, inference, drawing and timing are not modelled. This covers:
  - reading frames and running the detector and recognizer networks;
  - plugin and device setup;
  - command-line parsing;
  - `cv::line`, `cv::rectangle` and `setLabel` on the demo image;
  - window display;
  - timing and FPS output.

  They are I/O or foreign code, and they do not affect the report or the count.
- The following are foreign code and enter as parameters:
  - `postProcess` (detector post-processing);
  - `floatPointsFromRotatedRect`, as `cornersOf`;
  - `CTCGreedyDecoder` and the recognizer network, as `recognize`.

  The model assumes `cornersOf` yields four finite corners whose x lies below `FLT_MAX`.
- The affine map is not modelled: `cv::getAffineTransform` and `cv::warpAffine` in `cropImage` are not part of this model. The crop is represented by its three (source, destination) corner pairs.
- Geometry.TopLeftPoint: the source converts the chosen point to an integer `cv::Point` on return. The only caller ignores that value, so the model returns the float point unconverted.
- Geometry.TopLeftPoint: the model requires every x to be below `FLT_MAX` (`BelowMarker`). A point with x equal to `FLT_MAX` collides with the "unset" marker, and the source does not handle that case meaningfully.
- Regions.SortByAreaDesc: `std::sort` is modelled by a selection sort with the same promise, which is sorted by area and a permutation. Among equal areas the order is left open, as `std::sort` leaves it.
- Float rounding is not modelled. Areas, coordinates and the centre-crop products (`cols * 0.05`, `w * 0.5`) are computed exactly on reals, not in single or double precision. An `int` overflow in `static_cast<int>` of a huge coordinate is not modelled either.
- Geometry.CentreCropRect: the products are computed on exact reals rather than in double precision. For every `int` frame width the result is the same. The double nearest 0.05 lies just above it, so a width of 20k gives exactly k, and any other width gives a product at least 0.05 below the next integer. The halvings and the subtractions are exact in double precision.
- Output streams are modelled as line values: the report lines that `std::cout` writes in report mode become the `lines` of the outcome. The per-frame "To close the application" line that `std::cout` writes when the window is shown is not modelled. Neither is the exception message that `std::cerr` prints on an abort; only its cause is kept, as the `Fault`.
- The recognizer is not asked to handle an empty crop: a frame narrower than 20 pixels gives a centre-crop window of width 0, which the model passes to `recognize` like any other crop.
