# Rubik's cube face capture, modelled in Dafny

`cube.py` is a small Tk window that walks a user through showing the six
faces of a Rubik's cube to a webcam. Each camera frame is overlaid with an
n by n grid. The centre of every grid cell is averaged and classified as
one of six sticker colours by fixed HSV boxes. As soon as every cell of a
frame has a colour, the frame is captured and the user is asked for the
next face. The sixth capture stops the camera and produces placeholder
solution steps for the cube size.

This project models that core in three modules:

- `Classifier` (`classifier.dfy`) — the HSV threshold table and the
  first-match classification of one averaged sample. Two red boxes cover
  both ends of the hue axis, and table order breaks ties where boxes
  overlap. The decision region of every label is also written out in
  closed form, and classification is proved to agree with it in both
  directions.
- `Sampler` (`sampler.dfy`) — the grid geometry of `detect_colors_in_grid`:
  - cells of side `size // n`;
  - the central inset from a quarter to three quarters of each cell, cut
    back to the frame the way a numpy slice is;
  - the empty-inset case;
  - the row-major result list.

  The nested loops are a method, proved equal to a functional definition
  of the grid. A zero cube size makes `size // n` raise, modelled as
  `Raised`.
- `App` (`app.dfy`) — the session counters of `CubeSolverApp`: choosing
  the size, `reset`, `start_camera`, one `update_frame` tick (grid
  placement, fallback on failure, the all-filled capture gate, advancing
  the face, the sixth-face stop) and `process_cube`.

The sampled inset is meant as the central half of each cell. The code's
`box//4` and `3*box//4` give exactly half (rounded down) except when the
cell side is 4k + 3, where the inset is one pixel wider. The model follows
the code (`Sampler.InsetHalfCell`). A cube size of 0 cannot come from the
size dialog, but `update_frame` would capture every frame with it
(`App.ZeroSizeCapturesEveryFrame`).

A frame is abstract: a height, a width and a function giving the 8-bit
per-channel mean of any rectangle of its HSV image. What that mean is for a
given picture is outside the model.

## Model

| member | source | states |
|---|---|---|
| `Classifier.FirstMatch` | cube.py:34-45 | The result is the position of a box that contains the sample, with no earlier box containing it. It is `None` exactly when no box contains the sample. |
| `Classifier.Classify` | cube.py:13-46 | A reported colour is always one of white, yellow, red, orange, green, blue. The result is unknown exactly when the sample lies in none of the seven boxes. |
| `Classifier.ClassifyIsFirstMatch` | cube.py:34-45 | A reported colour is the label of a box that contains the sample, and no box earlier in the table does. |
| `Classifier.TableLabels` | cube.py:37-44 | Both red boxes report "red"; every other box reports its own key. |
| `Classifier.FirstMatchCascade` | cube.py:34-45 | The table is tried in its written order, white through blue, and the first containing box wins. |
| `Classifier.ClassifyCascade` | cube.py:13-45 | The same cascade, stated as the label each box yields. |
| `Classifier.ClassifyInRegion` | cube.py:13-45 | A reported colour's closed-form decision region contains the sample. |
| `Classifier.RegionClassifies` | cube.py:13-45 | Any sample inside a label's decision region is reported as that label. |
| `Classifier.ClassifyByRegion` | cube.py:13-45 | Classification and the closed-form regions agree in both directions. A sample is unknown exactly when it lies in no region. |
| `Classifier.RegionsDisjoint` | cube.py:13-21 | No sample lies in two decision regions, so the overlaps in the table are fully resolved by its order. |
| `Classifier.Hue10IsRed` | cube.py:16-18 | Hue 10 with high saturation and value lies in both the red1 and orange boxes, and is reported red. |
| `Classifier.Hue20IsYellow` | cube.py:15-18 | Hue 20 with high saturation lies in both the yellow and orange boxes, and is reported yellow. |
| `Classifier.RedAtBothEnds` | cube.py:16-17 | Saturated samples with hue at most 10, or hue from 160 to 180, are reported red. |
| `Classifier.BlackIsUnknown` | cube.py:33-46 | A black sample (value 0) matches no box and stays unknown. |
| `Sampler.Slice` | cube.py:27 | A slice on one axis stays within the axis. Its length is `hi - lo` (or 0) whenever `hi` is within the axis. |
| `Sampler.Grid` | cube.py:23-47 | The result list has one entry per cell, n * n in all. |
| `Sampler.GridAt` | cube.py:23-46 | Cells are listed row by row: entry `row * n + col` is the result of cell (row, col). |
| `Sampler.GridHas` | cube.py:23-46 | Every cell's result appears in the list. |
| `Sampler.Detect` | cube.py:7-8 | Detection fails exactly when the cube size is 0. Otherwise it yields n * n results. |
| `Sampler.SampleCell` | cube.py:25-46 | For a cell of an in-frame grid: a cell side below 2 pixels gives `None`. Otherwise the result is the classification of the mean over rows `y + box//4` to `y + 3*box//4` and columns `x + box//4` to `x + 3*box//4`, where (x, y) is the cell corner `start + k * box`. |
| `Sampler.DetectRow` | cube.py:24-46 | The inner loop yields exactly the n results of one row, in column order. |
| `Sampler.DetectColorsInGrid` | cube.py:7-47 | The nested loops raise exactly when n is 0. Otherwise they return the n * n per-cell results in row-major order. |
| `Sampler.CellWithinRegion` | cube.py:8-26 | Every cell of the grid ends within the region. |
| `Sampler.SampleAreaIsCentralInset` | cube.py:25-27 | Inside the frame no slice bound is cut back. The inset runs from a quarter to three quarters of its cell on both axes and lies within the cell. |
| `Sampler.InsetHalfCell` | cube.py:27 | Along one axis, an inset that is not cut back is half its cell rounded down, or one pixel more when the cell side is 4k + 3. |
| `Sampler.CellColorOfInset` | cube.py:25-46 | For a cell of an in-frame grid, the cell's result is `None` when the cell side is below 2 pixels, and otherwise the classification of the mean over the cell's central inset, from a quarter to three quarters of the cell on both axes. |
| `Sampler.EmptyInsetIffSmallBox` | cube.py:27-30 | Inside the frame, a cell's inset is empty exactly when the cell side is below 2 pixels. |
| `Sampler.InsetsDisjoint` | cube.py:25-27 | The insets of two different cells share no pixel. |
| `Sampler.UniformFrame` | cube.py:23-46 | A frame that averages to one colour everywhere, with cells of side at least 2, gives that colour's classification for every cell. |
| `Sampler.TinyRegionIsUnknown` | cube.py:27-30 | When cells are thinner than 2 pixels, every cell is unknown. |
| `Sampler.GridLineInCell` | cube.py:128-130 | Interior grid line `i`, drawn at `size * i / n`, lies within the first `i` pixels of cell `i`. |
| `Sampler.GridLineMissesInsets` | cube.py:127-136 | The grid lines are drawn before sampling. Once a cell is at least `4 * (n - 1)` pixels wide, no interior line crosses any cell's inset. |
| `App.NewSession` | cube.py:84-88 | A session starts exactly when the size dialog answers 2, 3 or 4. It starts with nothing captured, face 0, camera off and no steps. |
| `App.Reset` | cube.py:93-98 | After a reset the session is as freshly started with the same cube size. |
| `App.ProcessCube` | cube.py:169-195 | The steps become the placeholder list for the cube size, which is never empty. Nothing else changes. |
| `App.StepsFor` | cube.py:171-194 | Sizes 2, 3 and 4 give 2, 3 and 5 steps. Any other size gives the single "Unsupported cube size." step. |
| `App.StartCamera` | cube.py:107-111 | The camera loop is switched on. A face is prompted exactly when fewer than six faces are captured, and it is the current face's name. |
| `App.CaptureRegion` | cube.py:119-124 | The grid square is the shorter side less 40 pixels on each side. It lies inside the frame and is centred, leaning left or up by at most one pixel. |
| `App.FilledCount` | cube.py:139-143 | The count shown is the number of cells that are not `None`: it plus the number of `None` entries is the list length. It equals the number of cells exactly when every cell has a colour. |
| `App.Fallback` | cube.py:137-138 | On a detection failure the tick sees n * n unknown cells. |
| `App.FallbackNeverFills` | cube.py:137-139 | For a cube size above 0, the fallback list is never filled and its count is 0. With size 0 it is empty and passes the gate (`App.ZeroSizeCapturesEveryFrame`). |
| `App.FrameColors` | cube.py:135-138 | The tick always has n * n cell results, whether detection succeeded or failed. |
| `App.FilledIffEveryCell` | cube.py:136-139 | A frame passes the capture gate exactly when every one of its n * n cells has a colour. |
| `App.UpdateFrame` | cube.py:114-159 | A tick changes nothing unless the camera is on, a frame arrived and all its cells are filled. A capturing tick appends the frame and advances the face by one. The camera stays on exactly while fewer than six faces are captured. The steps are set on the sixth capture only. |
| `App.NewSessionValid` | cube.py:84-88 | A started session satisfies the session invariant: supported size, one captured frame per passed face, steps only after six faces. |
| `App.ResetPreservesValid` | cube.py:93-98 | Reset keeps the session invariant. |
| `App.StartCameraPreservesValid` | cube.py:107-111 | Starting the camera keeps the session invariant. |
| `App.UpdateFramePreservesValid` | cube.py:147-156 | Every tick keeps the session invariant. |
| `App.FilledTickCaptures` | cube.py:135-156 | With the camera on, a tick delivering a frame whose cells all have a colour performs the capture. |
| `App.CaptureAllAdvances` | cube.py:147-156 | With the camera on, k captures in a row append the frames in order and advance the face by k. The camera stops and the steps are set exactly when the sixth face is reached. |
| `App.RunFilledFrames` | cube.py:114-159 | With the camera on, ticks delivering filled frames capture each of them in turn. |
| `App.FilledFramesAdvance` | cube.py:147-159 | With the camera on, k frames in a row with every cell filled advance the session by k faces, appending the frames in order. After the sixth face the camera is off and the steps are set. |
| `App.SixFacesSolve` | cube.py:147-156 | From a fresh start, six filled frames capture exactly those frames and stop the camera at face 6 with non-empty steps for the size. |
| `App.UniformFrameFires` | cube.py:119-147 | A frame showing one recognised colour everywhere, with cells at least 2 pixels wide, is captured. |
| `App.ZeroSizeCapturesEveryFrame` | cube.py:135-147 | With cube size 0 the detection call fails and the fallback list is empty, so every delivered frame is captured. |
| `App.SmallFrameNeverFires` | cube.py:119-147 | A frame whose grid cells would be thinner than 2 pixels is never captured. |

## Left out

- The window, buttons, dialogs, status labels, `putText`, `scramble`, `show_steps` and `quit`: presentation only. The modelled state holds everything they read.
- The `after(30)` and `after(1200)` timers: ticks are a sequence (`App.Run`), and the delay before the next tick is not modelled.
- `VideoCapture`, `read`, `release`, the horizontal flip and the BGR to HSV conversion: camera I/O and image processing. A tick receives an already-converted frame, or none when the read fails.
- `cv2.mean` and the 8-bit cast of the mean: abstracted as the frame's `mean` function. The model does not say how a picture averages, in particular that hue is averaged linearly although it is circular.
- Frames smaller than 80 pixels on a side: the grid size would be negative and numpy's negative-index slicing would apply. `App.UpdateFrame` requires both sides to be at least 80 pixels.
- Numpy slicing with negative bounds: every slice bound in the modelled geometry is non-negative.
- The green frame rectangle, its border thickness and the colours drawn on the frame: only the placement of the grid lines is modelled (`Sampler.GridLineOffset`), not their pixel values.
- `Sampler.GridLineOffset`: the source computes `int(size * i / n)` in floating point. The model uses exact integer division, which agrees except where float rounding of the quotient would cross an integer.
- Captured frames are kept as abstract `Frame` values; `frame.copy()` is not modelled.
- Exceptions other than the zero cube size in the detection call: they come from image code outside the model.
- `start_camera` past the sixth face raises in the face lookup after the camera flag is already set. The model returns the state with the camera on and no prompt, and does not model the exception itself.
