# Lane distance measurement — a Dafny model

`lane_detection` measures how far a vehicle's wheel is from the lane line, frame by frame, in a
dashboard video. An operator clicks the wheel's reference point once. Each frame is then
reduced to a binary mask, and a histogram localiser finds the lane line in a narrow column strip
above the wheel. Both points are mapped to the ground plane through a homography. The script
writes the ground distance plus a fixed wheel offset to a CSV file, or `NaN` when no lane is found.
A separate calibration step chooses which chessboard images feed the camera solver. Small
helpers read a timestamp from a video's file name, convert a time of day to seconds, and locate
the one calibration or homography file.

The model has one module per source file, plus a shared `Common` module:

- `common.dfy` (`Common`): Option/Result, the exception kinds, pixel points, the configuration
  values with their defaults (`far`, 91.7 cm, 5 columns, 15 rows, 30 rows), and Python's
  half-to-even `round`.
- `detection.dfy` (`Detection`): `find_lane_line_by_histogram` of `src/detection.py`:
  - the strip and its histogram;
  - the run scan, as a loop proved equal to a recursive specification, and a lemma
    characterising its output;
  - the continuity and fallback choice, with Python's first-maximum `max`;
  - the point mode.
- `run_measurement.dfy` (`RunMeasurement`): the script's own copy of the localiser and the
  per-frame loop of `main()`, as a method proved against a specification of the whole run.
  Also the tolerant homography lookup, over a JSON value, and the summary counts.
- `measurement.dfy` (`Measurement`): the homogeneous mapping with its zero-weight error, and the
  Euclidean distance, stated as a relation because Dafny has no square root.
- `calibration.dfy` (`Calibration`): the chessboard object-point grid, and the image loop of
  `calibrate_camera` over abstract per-image outcomes.
- `utils.dfy` (`Utils`): the file-name timestamp (fixed-length pattern, leftmost match,
  Gregorian validation), seconds since midnight rounded to a tenth, and `find_file`'s one-match
  rule.

Counts and thresholds are integers. The 20% threshold is `5*h[i] >= max(h)`. Run centres are
doubled, so `(s+e)/2` compared with a row `r` becomes `s+e` compared with `2r`.

In `src/detection.py`, mode `far` returns the run's last row. Rows grow towards the wheel row, so
that is the edge nearer the wheel. The script's copy of the localiser returns the edge farther
from the wheel row. The chosen run always lies above the wheel row, so that edge is always the
run's first row: the script behaves like mode `near` whatever `LANE_POINT_MODE` says
(`RunMeasurement.ScriptAgreesWithNearMode`).

## Model

| member | source | states |
|---|---|---|
| `Common.RoundHalfEven` | src/detection.py:73 | `round(n/d)` is within half a divisor of `n/d`, and an exact half goes to the even neighbour |
| `Common.RoundHalfEvenUnique` | src/detection.py:73 | those two properties determine the rounded value |
| `Detection.CountWhiteIsCardinality` | src/detection.py:18 | the row count is the number of strip columns holding 255 |
| `Detection.HistogramCountsStripPixels` | src/detection.py:11-18 | the histogram has one entry per row above the wheel (clipped to the image); entry i counts the 255 pixels of row i between `max(0, x-COLUMN_WIDTH)` and `min(width, x+COLUMN_WIDTH)` |
| `Detection.SeqMax` | src/detection.py:19 | `histogram.max()` is an entry of the histogram and no entry exceeds it |
| `Detection.KeptRunsCharacterised` | src/detection.py:22-45 | the recorded runs are exactly the maximal blocks of rows with `5*h[i] >= max` that pass the length/total filter, with `len = e-s+1` and `total = sum h[s..e]`, disjoint and top to bottom |
| `Detection.RunsFromSound` | src/detection.py:29-45 | every run the scan closes, including the tail case, is a maximal strong block that passes the filter |
| `Detection.RunsFromComplete` | src/detection.py:29-45 | every maximal strong block that passes the filter is recorded by the scan |
| `Detection.ExtractRuns` | src/detection.py:27-45 | the scan loop builds exactly the specified run list |
| `Detection.Candidates` | src/detection.py:53 | the candidates are exactly the runs whose centre is within MAX_JUMP of the previous row, in their original order |
| `Detection.FirstArgMax` | src/detection.py:55 | `max(..., key=...)`: no key exceeds the chosen one, and every earlier key is strictly smaller (the first maximum is kept) |
| `Detection.ChooseRun` | src/detection.py:49-63 | the chosen run is one of the kept runs |
| `Detection.ContinuityChoice` | src/detection.py:51-55 | with a previous detection and a kept run near it, the choice is near, has the highest total among near runs, and is the topmost on ties |
| `Detection.FallbackChoice` | src/detection.py:57-63 | otherwise the choice maximises `(total, -|centre - len(h)/2|)` lexicographically, the topmost run on ties |
| `Detection.FirstMaxIsTopmost` | src/detection.py:55-63 | over disjoint runs listed top to bottom, the first maximum beats every run above it |
| `Detection.ChosenRunInStrip` | src/detection.py:10-47 | a chosen run is a kept maximal run of the strip's histogram, so `0 <= start <= end < wheel_y` |
| `Detection.SelectLaneRun` | src/detection.py:10-63 | the step-by-step strip, histogram, scan and choice give the specified run |
| `Detection.FindLaneLineByHistogram` | src/detection.py:5-77 | the method returns the specified lane point or error |
| `Detection.NotFoundPaths` | src/detection.py:11-20 | an empty strip or an all-zero histogram gives None, never an error |
| `Detection.ModeErrorOnlyWithRun` | src/detection.py:46-75 | ValueError is raised exactly when a run was chosen and the mode is none of far/near/centre |
| `Detection.LaneLineRow` | src/detection.py:65-77 | the point has the wheel's x; its row lies in `[0, min(wheel_y, height))` and is the run's end for `far`, its start for `near`, and the half-to-even rounded centre for `centre` |
| `Detection.LocaliserReadsOnlyStrip` | src/detection.py:11-18 | two masks that agree on the strip give the same answer |
| `Detection.KeptRunsExample` | src/detection.py:27-45 | example: histogram `[0,0,5,5,5,0,0,8,8,8,8,0]` with minimum width 3 keeps `(2,4,3,15)` and `(7,10,4,32)` |
| `Detection.ChooseRunExample` | src/detection.py:49-63 | example: the fallback picks the stronger run; continuity at row 3 picks the weaker run near it |
| `Detection.FallbackTieKeepsFirst` | src/detection.py:58-63 | example: a full tie keeps the first run |
| `Detection.PointModeRowExample` | src/detection.py:67-75 | example: run 5..9 gives 9 (far), 5 (near) and 7 (centre); 2.5 rounds to 2 and 3.5 to 4; an unknown mode gives no row |
| `RunMeasurement.FindLaneLineByHistogram` | scripts/run_measurement.py:14-71 | the script's localiser returns the specified point |
| `RunMeasurement.ScriptRowIsRunStart` | scripts/run_measurement.py:63-71 | the script finds a point exactly when a run is chosen; the point is `(wheel_x, start)`, because `d_top >= d_bottom` always holds, and its row lies in `[0, wheel_y)` |
| `RunMeasurement.ScriptAgreesWithNearMode` | scripts/run_measurement.py:14-61 | strip, histogram, scan and choice are those of `src/detection.py`, so the script answers like mode `near` for any configured mode |
| `RunMeasurement.LateralsMeasured` | scripts/run_measurement.py:179-217 | for any localiser, mapping and distance, row k is written by frame k, and a value in it is the distance between the mapped wheel point and the mapped lane point that the localiser finds in mask k (given the detection carried in), plus `WHEEL_OFFSET_CM` |
| `RunMeasurement.ScriptLaterals` | scripts/run_measurement.py:207-217 | in the script, every value written in frame k is `calculate_distance(pixel_to_real_world(wheel, H), pixel_to_real_world(pt_lane, H)) + WHEEL_OFFSET_CM`. The mapped wheel point is the same for every frame, and `pt_lane` is frame k's point, at the wheel's x above the wheel row |
| `RunMeasurement.MeasureFrame` | scripts/run_measurement.py:207-229 | one frame: no detection writes NaN and keeps `prev_lane_detection`; a detection replaces it, and the value is distance plus `WHEEL_OFFSET_CM`, or the mapping's exception |
| `RunMeasurement.MeasureFrames` | scripts/run_measurement.py:168-243 | the loop writes the specified rows and ends with the specified exception; `all_distances`, `nan_count` and `processed_frames` tally those rows, and `len(all_distances) + nan_count == processed_frames` |
| `RunMeasurement.Laterals` | scripts/run_measurement.py:216 | `all_distances` has at most one entry per row |
| `RunMeasurement.CountMissing` | scripts/run_measurement.py:228 | `nan_count` is at most the number of rows |
| `RunMeasurement.LateralsPlusMissing` | scripts/run_measurement.py:210-229 | every row is either a value or a NaN |
| `RunMeasurement.FailureIsFinal` | scripts/run_measurement.py:179-243 | once a frame raises, later frames change nothing |
| `RunMeasurement.RowsFollowFrames` | scripts/run_measurement.py:184-241 | one row per frame, numbered 1, 2, … in frame order; an exception leaves out the row of its frame |
| `RunMeasurement.PreviousDetection` | scripts/run_measurement.py:176-211 | with the script's localiser, `prev_lane_detection` is None exactly while every row so far is NaN; once set, it is at the wheel's x above the wheel row |
| `RunMeasurement.LateralAtLeastOffset` | scripts/run_measurement.py:212-215 | with `calculate_distance` as the distance, every value written is at least `WHEEL_OFFSET_CM` |
| `RunMeasurement.LateralsAboveOffset` | scripts/run_measurement.py:212-216 | the same for any non-negative distance |
| `RunMeasurement.UnmappableWheel` | scripts/run_measurement.py:210-213 | if the homography sends the wheel point to weight 0, no value is ever written, and any exception is ValueError |
| `RunMeasurement.NoLateralsIffAllMissing` | scripts/run_measurement.py:252-255 | no valid value exactly when every row is NaN |
| `RunMeasurement.Summarize` | scripts/run_measurement.py:252-270 | `frames_total` is `valid + nan`, or 1 when both are 0; statistics are shown iff `valid > 0`; SD iff `valid > 1` |
| `RunMeasurement.SummaryOfRun` | scripts/run_measurement.py:252-270 | after a loop without exception, `frames_total` is `max(1, frames read)`, and statistics are shown iff some frame had a detection |
| `RunMeasurement.ToMatrix` | scripts/run_measurement.py:121-123 | conversion succeeds iff the value is a 3×3 array of numbers; entries are kept; a dictionary gives TypeError, anything else RuntimeError |
| `RunMeasurement.MatrixToJson` | src/homography.py:19 | the matrix `save_homography` writes as nested number lists has the shape the reader at scripts/run_measurement.py:118-123 accepts |
| `RunMeasurement.MatrixRoundTrip` | scripts/run_measurement.py:121-123 | reading back a written matrix gives the same matrix |
| `RunMeasurement.LoadHomography` | scripts/run_measurement.py:118-123 | a non-dictionary document raises AttributeError; a success is 3×3 |
| `RunMeasurement.HomographyKeyFirst` | scripts/run_measurement.py:120 | `homography_matrix` is used when it holds a matrix, whatever `H` holds |
| `RunMeasurement.FallsThroughToH` | scripts/run_measurement.py:120 | a missing or falsy `homography_matrix` falls through to `H` |
| `RunMeasurement.WholeDocumentFallbackFails` | scripts/run_measurement.py:120-121 | with neither key truthy, the whole-document fallback raises TypeError |
| `RunMeasurement.LoadHomographyCorrected` | scripts/run_measurement.py:120 | corrected lookup: a document that is itself a matrix is used; dictionaries behave as before |
| `RunMeasurement.BareMatrixDocument` | scripts/run_measurement.py:120 | a file holding only a matrix raises AttributeError as written, and is read as that matrix by the corrected lookup |
| `Measurement.PixelToRealWorld` | src/measurement.py:4-9 | ValueError exactly when `w[2] == 0`; otherwise the result times `w[2]` gives `w[0]` and `w[1]` |
| `Measurement.IdentityMapsPointToItself` | src/measurement.py:4-9 | the identity matrix maps every point to itself |
| `Measurement.ScaleInvariant` | src/measurement.py:4-9 | scaling H by a non-zero constant changes neither the error nor the result |
| `Measurement.SquaredDistance` | src/measurement.py:12-13 | the squared distance is non-negative |
| `Measurement.DistanceUnique` | src/measurement.py:12-13 | the distance is determined: two non-negative roots of the squared distance agree |
| `Measurement.DistanceZeroIffSamePoint` | src/measurement.py:12-13 | the distance is 0 exactly for identical points |
| `Measurement.DistanceSymmetric` | src/measurement.py:12-13 | the distance does not depend on the order of the points |
| `Measurement.DistanceThreeFourFive` | src/measurement.py:12-13 | example: (0,0) and (3,4) are 5 apart |
| `Calibration.ObjectPoints` | src/calibration.py:5-11 | the grid has `cols*rows` points |
| `Calibration.ObjectPointAt` | src/calibration.py:8-10 | column i of board row j is point `j*cols + i`, at `(i*sq, j*sq, 0)` |
| `Calibration.ObjectPointBounds` | src/calibration.py:8-10 | every point has z = 0, x in `[0, (cols-1)*sq]` and y in `[0, (rows-1)*sq]` |
| `Calibration.ScanImages` | src/calibration.py:43-63 | `objpoints` and `imgpoints` both have length `used`; every `objpoints` entry is the grid; the corner sets come from detected images in file order; a failure is RuntimeError once a size is known |
| `Calibration.CalibrationResult` | src/calibration.py:28-78 | an empty list raises RuntimeError; every failure is RuntimeError; on success `1 <= used <= len(image_files)` |
| `Calibration.CalibrateCamera` | src/calibration.py:28-66 | the loop returns the specified result |
| `Calibration.FailureIsFinal` | src/calibration.py:51-54 | the size exception ends the loop |
| `Calibration.ShapeIsFirstReadable` | src/calibration.py:44-51 | `gray_shape` is the size of the first readable image: unreadable images never set it, and it is never changed |
| `Calibration.FailsIffSizeMismatch` | src/calibration.py:49-58 | the loop raises exactly when some readable image differs in size from the first readable one, found pattern or not, because the size check comes before detection |
| `Calibration.CountDetected` | src/calibration.py:56-63 | at most one detection per image |
| `Calibration.UsedCountsDetections` | src/calibration.py:56-63 | without an exception, `used` is the number of readable images whose pattern was found |
| `Calibration.CalibrationOutcome` | src/calibration.py:65-78 | on success the returned size is the first readable image's, `used` counts the detections, and no size mismatch occurred |
| `Calibration.UnreadableIgnored` | src/calibration.py:44-46 | an unreadable image inserted at any position changes no outcome: the same error, or the same size, count and object points, with each corner-set source at or after the insertion one position later |
| `Calibration.SizeCheckBeforeDetection` | src/calibration.py:49-58 | example: a second image of another size raises although its pattern is not found |
| `Utils.LeftmostMatch` | src/utils.py:7 | `re.search`: the result is a match, with no match before it; None means no match anywhere |
| `Utils.DaysInMonth` | src/utils.py:10 | month lengths of the Gregorian calendar: February has 29 days in a leap year and 28 otherwise; April, June, September and November have 30; the other months 31 |
| `Utils.YearLength` | src/utils.py:10 | the twelve month lengths add up to 366 days in a leap year and 365 otherwise |
| `Utils.Fields` | src/utils.py:8-10 | each field is the decimal value of its own digits of the match: year from offsets 0-3, month 5-6, day 8-9, hour 11-12, minute 14-15, second 17-18; microsecond 0 |
| `Utils.ExtractAestFromFilename` | src/utils.py:6-11 | None exactly when nothing matches; a result is a valid date-time with microsecond 0; otherwise ValueError |
| `Utils.LeftmostDecides` | src/utils.py:7-10 | the leftmost match alone decides the outcome |
| `Utils.SeparatorIrrelevant` | src/utils.py:7-9 | `_` or white space between date and time gives the same outcome |
| `Utils.ExtractWellFormedName` | src/utils.py:6-10 | example: `2024-03-05_07-08-09.mp4` gives 2024-03-05 07:08:09 |
| `Utils.ExtractFebruaryThirtieth` | src/utils.py:9-10 | example: February 30th raises ValueError |
| `Utils.ExtractLeftmostOnly` | src/utils.py:7-10 | example: month 13 in the first match raises, although a valid timestamp follows |
| `Utils.LeapDayExamples` | src/utils.py:10 | example: 29 February is valid in 2000 and 2024, invalid in 1900 and 2023 |
| `Utils.DecimalTenths` | src/utils.py:17-19 | the tenths are within half a tenth of the exact time of day, lie in `[0, 864000]`, and are exact on whole seconds |
| `Utils.UtcToDecimal` | src/utils.py:17-19 | the result lies in `[0, 86400]` and equals `h*3600 + m*60 + s` when the microsecond is 0 |
| `Utils.TimeOfDayOnly` | src/utils.py:17-19 | the date plays no part |
| `Utils.UtcToDecimalExamples` | src/utils.py:17-19 | example: 23:59:59.999999 gives 86400.0; the half-tenth cases show the model's exact half-to-even rounding (12:00:00.05 gives 43200.0), not the float64 result of the program |
| `Utils.FindFile` | src/utils.py:21-27 | zero matches raise FileNotFoundError, several raise RuntimeError, and one match is returned |

## Left out

- Video capture and writing, the wheel click, the camera undistortion, overlays, progress bars
  and printing are I/O. The loop receives one mask per frame read after the click.
- The mask pipeline (blur, adaptive threshold, contour filter with its 1e-5 aspect-ratio
  epsilon, morphology) is OpenCV code. Masks are inputs.
- Floating point: the histogram and homography are float32 and the distance float64. The model
  uses exact integers and reals. The 20% threshold becomes `5*h[i] >= max`, which can differ
  from float32 `h >= max*0.2` at the rounding boundary.
- `Measurement.IsDistance`: `math.sqrt` is a relation. Its result is the non-negative number
  whose square is the squared distance; Dafny has no real square root to compute it.
- `RunMeasurement.Session`: the frame loop takes the lane localiser, the pixel-to-ground mapping
  and the distance as parameters. `ScriptSession` fixes the localiser to the script's
  `find_lane_line_by_histogram` at the clicked point, and the mapping to `pixel_to_real_world`
  with the loaded matrix. `MeasureFrames` and `PreviousDetection` assume the localiser is the
  script's (`LocatesByHistogram`).
  `LateralAtLeastOffset` assumes the distance is `calculate_distance`. `ScriptLaterals` keeps the
  distance as a parameter.
- `RunMeasurement.MeasureFrames`: frame k after the click is numbered k+1, which is
  `CAP_PROP_POS_FRAMES - 1` for a container that reports positions exactly.
- `RunMeasurement.ToMatrix`: numpy also converts numeric strings and `null` (to NaN). It raises
  ValueError for a non-numeric string entry and for ragged lists, and TypeError for an object
  entry. The model refuses every non-number entry with RuntimeError, where numpy converts or
  raises ValueError or TypeError, and a whole document that is a dictionary with TypeError. JSON numbers are exact reals, not float32.
- The mean, median, min, max and standard deviation of the summary are float statistics. Only
  the counts and the conditions under which they are printed are modelled.
- `calibrate_camera`: `imread`, `findChessboardCorners`, `cornerSubPix` and `calibrateCamera`
  are OpenCV. Each image is an outcome (unreadable, or readable with a size and a found flag).
  Each refined corner set is represented by its image's index. The RMS error and the intrinsics
  are not modelled.
- `Calibration.ObjectPoints`: float32 grid coordinates are exact reals; negative board sizes are
  not representable (`nat`).
- `Utils.IsDigit`: Python's `\d` also matches non-ASCII decimal digits, which `strptime` would
  read; the model accepts only ASCII digits.
- `Utils.UtcToDecimal`: Python rounds the float64 value of `total_seconds()`. The model rounds the
  exact decimal value, so exact half-tenths go to the even tenth. The time zone does not enter
  (`replace` keeps it).
- `Utils.UtcToDecimalExamples`: its half-tenth cases give the model's exact rounding. For
  12:00:00.05 the program's float64 value lies just above the half, and `round` gives 43200.1
  where the model gives 43200.0.
- `convert_aest_to_utc` depends on the pytz time-zone database.
- `find_file`'s recursive glob is file-system I/O. The rule is modelled on the list of matches.
- Wheel coordinates are `nat`: the click is inside the image.
- `scripts/run_homography.py` is interactive point picking, and its own `pixel_to_real_world`
  has no zero-weight guard. `src/homography.py` wraps OpenCV's solvers and a file write.
  `scripts/run_calibration.py` handles arguments and persistence. `src/config.py` loads JSON;
  its values are the parameters of `Config`. None of these four files is part of this model.

## Findings

| source | as written | input that shows it | evidently intended | confidence | as-written member | corrected member |
|---|---|---|---|---|---|---|
| scripts/run_measurement.py:120 | `data.get("homography_matrix") or data.get("H") or data` calls `.get` on the document before the `or data` fallback is reached. A document that is not a dictionary raises AttributeError, and a dictionary cannot become a 3×3 array, so the fallback never yields a matrix. | a homography file holding only `[[1,0,0],[0,1,0],[0,0,1]]` | a document that is itself the matrix is used as the matrix, as the comment "be tolerant to key names" and the `or data` branch suggest | high; not executed | `RunMeasurement.LoadHomography` (with `RunMeasurement.BareMatrixDocument`, `RunMeasurement.WholeDocumentFallbackFails`) | `RunMeasurement.LoadHomographyCorrected` (with `RunMeasurement.BareMatrixDocument`) |
