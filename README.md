# Bird velocity analyzer: model of the tracking core

The analyzer steps through a video one requested frame at a time. For each
frame read it converts the frame to a blurred gray image, compares it with
the gray image it kept from the previous call, takes the largest moving
contour, and tracks the centre of that contour's bounding rectangle. When
both the previous and the current centre are known, it converts the pixel
displacement into a speed in km/h: the distance times a fixed scale factor
(0.001/1000 km per pixel), divided by the duration `1/fps` of one frame,
times 3600.

This project models that bookkeeping in Dafny:

- `Detection` (detection.dfy) covers the post-processing of the detector.
  A contour is a record of its area and its bounding rectangle. The model
  picks the first contour of largest area, as Python's `max` does, and takes
  the floor-division centre `(x + w // 2, y + h // 2)`. Python's `//` by 2
  and Dafny's `/` by 2 agree on every integer.
- `Velocity` (velocity.dfy) covers `calculate_velocity` over exact reals.
  The squared displacement is an exact integer. `np.sqrt` is passed in as
  a function.
- `Tracking` (tracking.dfy) is the pure state machine. It holds the fields,
  the outcome of one `process_frame` call, the seeding done by
  `load_video_dialog`, runs of several calls, and the lemmas about them.
- `Analyzer` (analyzer.dfy) is the class `BirdVelocityAnalyzer`. Its
  methods update the fields in place, in the source's order.
  `ProcessFrame` and `LoadVideoDialog` tie the new fields to the
  `Tracking` transition of the old fields. `FindBirdPosition` ties its
  result to `Detection.Locate`. `LoadVideo` states the capture field and
  its result directly.

Frames, gray frames and the OpenCV calls stay opaque. A frame has type
parameter `F` and a gray frame has type parameter `G`. The library calls are
the fields of `Tracking.Env`:

- `toGray`: `cvtColor` followed by the 21x21 Gaussian blur.
- `contours`: absdiff, threshold, dilate and `findContours`, with each
  contour's `contourArea` and `boundingRect`.
- `draw`: `cv2.rectangle` with its fixed colour and stroke. It gives the
  frame with the box drawn into it.
- `fps`: the capture's frame rate.
- `sqrt`: `np.sqrt`.

The result of the capture read is a parameter (`Option<F>`). Whether
`self.cap` is set becomes the boolean field `hasCapture`.

How the code behaves, as modelled:

- A failed `load_video` still stores the capture object, and such an
  object is always truthy. Later calls therefore fail at the read
  (`ReadFailed`), not at the "no video" test (`NoVideo`).
- The status line (bird_velocity.py:57) reads `velocity_text`. That
  variable is bound only when a velocity was computed in the same call.
  Every other call that reads a frame raises at that line, after the state
  has already rolled forward. This is outcome `StatusTextUnbound`.
- A frame rate of 0 raises in the division at line 93. By then the current
  position (line 42) and the gray frame (line 80) are updated, but the
  previous position is not. This is outcome `ZeroFrameRate`.
- A frame with no detection sets the current position to absent. The
  previous position is then set to absent (line 52). So a gap resets the
  baseline, and the next call never reports a velocity. The last detected
  position is not held across the gap (`Tracking.GapResetsBaseline`).
- The frame read and `current_frame` are one array. When a box is found,
  line 48 draws it into that array, and line 54 converts the drawn-on
  frame. So the gray frame stored for the next comparison contains the
  box, and the next detection compares against it
  (`Tracking.ReadStoresGray`, `Tracking.ConsecutiveReadsAreCompared`).
  The gray stored by `find_bird_position` at line 80 is of the frame
  before drawing. It survives only when the call raises on a zero frame
  rate.

## Model

| member | source | states |
|---|---|---|
| `Detection.MaxAreaIndex` | bird_velocity.py:83 | the chosen index is in range, no contour has a larger area, and every earlier contour is strictly smaller (first maximum wins on ties) |
| `Detection.MaxAreaIndexUnique` | bird_velocity.py:83 | an index is a first maximum exactly when it is the chosen one |
| `Detection.Centroid` | bird_velocity.py:84-85 | each coordinate of the centre is the floor of half the size past the corner: `2*(cx-x) <= w < 2*(cx-x)+2`, likewise for y |
| `Detection.CentroidInside` | bird_velocity.py:84-85 | for non-negative width and height the centre lies in `[x, x+w] x [y, y+h]` |
| `Detection.Locate` | bird_velocity.py:82-87 | position and box are both present or both absent, absent exactly when there are no contours; the box belongs to a first largest contour and the position is its centre |
| `Detection.LocateChoosesLargest` | bird_velocity.py:82-85 | on a non-empty list the reported box is that of the contour `max` picks, whose area bounds every other |
| `Detection.LocateStrictlyLarger` | bird_velocity.py:83-85 | of two contours of different area, the larger one's box is reported |
| `Detection.LocateTieKeepsFirst` | bird_velocity.py:83 | of two contours of equal area, the first one's box is reported |
| `Velocity.SquaredDistance` | bird_velocity.py:91-92 | the squared displacement is non-negative and zero exactly when the positions are equal |
| `Velocity.CalculateVelocity` | bird_velocity.py:89-97 | 0 when either position is absent; otherwise `sqrt(dx²+dy²) * scale * fps * 3600`, which is what dividing by `1/fps` gives; the frame rate must be non-zero only when both positions are present |
| `Velocity.VelocityIsEuclidean` | bird_velocity.py:91-95 | with a true square root and fps > 0 the speed is non-negative, its square is the squared distance times `(scale*fps*3600)²`, and it is 0 exactly when the bird did not move |
| `Velocity.ScaleFactorValue` | bird_velocity.py:19 | the scale factor `0.001 / 1000` is 0.000001 km (one millimetre) per pixel |
| `Velocity.ThreeFourFiveExample` | bird_velocity.py:19 | from (10,10) to (13,14) at 30 fps with scale 0.001/1000 the squared distance is 25 and the speed is 0.54 km/h |
| `Tracking.Initial` | bird_velocity.py:8-13 | a new analyzer has no capture, no previous gray frame and no positions |
| `Tracking.Transition` | bird_velocity.py:28-58 | one `process_frame` call: the capture field never changes and every read leaves a current frame and a previous gray frame (the lemmas below state the failure paths, the detection, the roll-forward and the velocity) |
| `Tracking.Run` | bird_velocity.py:99-101 | a sequence of calls, as the slider makes them: one outcome per call, the capture field is unchanged, without a capture nothing changes, and each call's outcome is `NoVideo` exactly when there is no capture |
| `Tracking.LoadDialog` | bird_velocity.py:121-134 | positions and current frame are untouched; the capture is set once a file is chosen; the previous gray frame becomes the processed first frame exactly when the video opened and the first read succeeded, and otherwise keeps its value |
| `Tracking.FailureLeavesStateUnchanged` | bird_velocity.py:29-37 | the call fails with `NoVideo` exactly when there is no capture and with `ReadFailed` exactly when the read fails; both leave all fields unchanged |
| `Tracking.ReadStoresGray` | bird_velocity.py:39-55 | every call that reads a frame leaves a current frame and stores that current frame's processed gray, on every branch; the current frame is the frame read with the detected box drawn in, unless no detection ran, none was found, or the call raised on a zero frame rate before drawing |
| `Tracking.NoGrayNoDetection` | bird_velocity.py:40-55 | without a previous gray frame no detection runs: the current position keeps its value, the previous position takes it, and no velocity is reported |
| `Tracking.DetectionAgainstPreviousGray` | bird_velocity.py:40-42 | with a previous gray frame the new current position is what detection gives on the stored and the new gray frame |
| `Tracking.RollForwardCopiesPosition` | bird_velocity.py:52 | after any call that rolled the state forward, the previous position equals the current one, absent when detection failed |
| `Tracking.VelocityNeedsBothPositions` | bird_velocity.py:43-45 | a velocity is reported exactly when a frame was read, detection ran and found a position, a previous position existed and the frame rate is non-zero; its value is the velocity between the old previous and the new current position |
| `Tracking.ZeroFrameRatePartialUpdate` | bird_velocity.py:42-44 | the zero-frame-rate error happens exactly when a velocity would be computed at fps 0; it leaves the previous position as it was, the frame read as the current frame with no box drawn, and the gray of that frame stored |
| `Tracking.GapResetsBaseline` | bird_velocity.py:42-52 | a call whose detection finds nothing leaves no previous position and reports no velocity, and the call after it reports no velocity whatever it reads |
| `Tracking.ConsecutiveReadsAreCompared` | bird_velocity.py:39-55 | for two successive calls that both read a frame, the second detects on the gray of the first call's current frame and the gray of the second frame; when the first call detected a box without raising, that is the first frame with the box drawn in |
| `Tracking.SeedThenDetect` | bird_velocity.py:133-134 | after seeding from the first frame, the next read is compared against that first frame |
| `Tracking.NoVelocityUntilFirstRead` | bird_velocity.py:28-58 | starting with no previous position, no velocity is reported by any call up to and including the first call that reads a frame |
| `Tracking.GrayPersists` | bird_velocity.py:53-55 | once a previous gray frame exists, or once a read succeeds on a capture, every later state has a previous gray frame, so every later read runs detection |
| `Analyzer.BirdVelocityAnalyzer.constructor` | bird_velocity.py:8-13 | the fields of a new analyzer are the initial state |
| `Analyzer.BirdVelocityAnalyzer.LoadVideo` | bird_velocity.py:21-26 | the capture is stored whether or not it opened; the result is whether it opened |
| `Analyzer.BirdVelocityAnalyzer.LoadVideoDialog` | bird_velocity.py:121-134 | the new fields are the seeding transition of the old ones |
| `Analyzer.BirdVelocityAnalyzer.FindBirdPosition` | bird_velocity.py:70-87 | the result is the detection on the stored and the new gray frame, and the stored gray frame is replaced by the new one |
| `Analyzer.BirdVelocityAnalyzer.ProcessFrame` | bird_velocity.py:28-58 | the new fields and the outcome are the one-call transition of the old fields |
| `Analyzer.TrackTwoFrames` | bird_velocity.py:28-58 | after loading and seeding, the first detecting call reports no velocity and draws its box into the first frame; the second compares against the gray of that drawn-on frame and reports the velocity between the two detected positions |

## Left out

- Video I/O: opening, seeking with `cap.set`, reading, and the frame count (bird_velocity.py:22-37, 128-130). The read result and the frame rate are parameters. `frame_no` only selects the frame to read, so it does not appear.
- OpenCV image operations (`cvtColor`, `GaussianBlur`, `absdiff`, `threshold`, `dilate`, `findContours`, `contourArea`, `boundingRect`). Their behaviour lives in a library that is not part of this model. They are opaque functions in `Env`, so "identical frames give no contour" is not modelled.
- Floating point: `np.sqrt` and float division become exact reals, and the square root is a parameter. Rounding is not modelled.
- GUI: the Tk window, `display_frame`, the slider, `on_slider_update`, the file dialog, `create_gui` and the module-level usage. The text of the status line and the console messages are also left out. Only whether the status line raises is kept, as an outcome.
- What the rectangle looks like (line 48): drawing is the opaque `draw`, so which pixels it changes is not modelled.
- The `bounding_box` field (line 14). Nothing ever assigns it after construction.
- A missing `info_label` (processing before `create_gui`) would raise at line 57. The model assumes the GUI exists.
- Non-sequential requests from the slider: as in the source, the velocity always assumes one frame interval between calls.
- Velocity.CalculateVelocity: requires a non-zero frame rate when both positions are present. Inside `ProcessFrame` a zero frame rate is modelled as the `ZeroFrameRate` outcome instead.
