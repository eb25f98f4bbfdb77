/**
  The capture session of the cube solver window (cube.py, CubeSolverApp),
  with the window, dialogs, drawing and timers stripped away.

  The session holds the cube size chosen at start-up, the frames captured
  so far, the index of the face being asked for, whether the camera loop is
  running, and the placeholder solution steps. Each camera tick samples the
  frame; a tick on which every cell has a colour captures the frame and
  advances to the next face, and the sixth capture stops the camera and
  picks the steps for the cube size.
 */
module App {
  import opened Classifier
  import opened Sampler

  /** The faces in the order they are asked for. */
  const FaceNames: seq<string> := ["U", "R", "F", "D", "L", "B"]

  /** Pixels left between the frame edge and the grid square on the shorter side. */
  const Margin: nat := 40

  datatype AppState = AppState(
    cubeSize: nat,
    captured: seq<Frame>,
    currentFace: nat,
    cameraOn: bool,
    steps: seq<string>)

  /** The state right after the cube size has been chosen. */
  function Fresh(cubeSize: nat): AppState {
    AppState(cubeSize, [], 0, false, [])
  }

  /**
    Start-up: the size dialog returns 2, 3 or 4, or nothing when cancelled.
    Any answer other than 2, 3 or 4 closes the window (`None` here).
   */
  function NewSession(answer: Option<int>): (r: Option<AppState>)
    ensures r.Some? <==> answer.Some? && answer.value in {2, 3, 4}
    ensures r.Some? ==> r.value.cubeSize == answer.value && r.value.currentFace == 0
    ensures r.Some? ==> |r.value.captured| == 0 && !r.value.cameraOn && r.value.steps == []
  {
    if answer.Some? && answer.value in {2, 3, 4} then Some(Fresh(answer.value)) else None
  }

  /** Forget every captured face and the steps, and stop the camera loop. */
  function Reset(s: AppState): (r: AppState)
    ensures r == Fresh(s.cubeSize)
  {
    s.(currentFace := 0, captured := [], cameraOn := false, steps := [])
  }

  /** The placeholder solution for each supported cube size. */
  function StepsFor(cubeSize: nat): (r: seq<string>)
    ensures |r| == if cubeSize == 2 then 2 else if cubeSize == 3 then 3 else if cubeSize == 4 then 5 else 1
    ensures cubeSize !in {2, 3, 4} ==> r == ["Unsupported cube size."]
  {
    if cubeSize == 2 then
      ["R U R' U R U2 R'", "(Sample 2x2 moves)"]
    else if cubeSize == 3 then
      ["F R U R' U' F'", "R U R' U R U2 R'", "(Sample 3x3 moves)"]
    else if cubeSize == 4 then
      ["Reduction: solve centers", "Pair edges", "Solve like 3x3", "Handle 4x4 parity", "(Sample 4x4 steps)"]
    else
      ["Unsupported cube size."]
  }

  /** Choose the steps for the cube size; nothing else changes. */
  function ProcessCube(s: AppState): (r: AppState)
    ensures r.steps == StepsFor(s.cubeSize) && r.steps != []
    ensures r.(steps := s.steps) == s
  {
    s.(steps := StepsFor(s.cubeSize))
  }

  /** The outcome of pressing "Start Camera": the new state and the face prompted for. */
  datatype Started = Started(state: AppState, prompt: Option<string>)

  /**
    Turn the camera loop on and prompt for the current face. After all six
    faces the face lookup fails (an index error) once the loop has already
    been switched on: `prompt` is then `None`.
   */
  function StartCamera(s: AppState): (r: Started)
    ensures r.state == s.(cameraOn := true)
    ensures r.prompt.Some? <==> s.currentFace < |FaceNames|
    ensures r.prompt.Some? ==> r.prompt.value == FaceNames[s.currentFace]
  {
    Started(s.(cameraOn := true), if s.currentFace < |FaceNames| then Some(FaceNames[s.currentFace]) else None)
  }

  /** The frame is at least twice the margin on each side, so the grid square exists. */
  predicate Usable(f: Frame) {
    f.height >= 2 * Margin && f.width >= 2 * Margin
  }

  /**
    The grid square of a frame: the shorter side less a margin on each
    side, centred in the frame.
   */
  function CaptureRegion(f: Frame): (g: Region)
    requires Usable(f)
    ensures g.size + 2 * Margin == Min(f.height, f.width)
    ensures InFrame(g, f)
    ensures g.startX <= f.width - (g.startX + g.size) <= g.startX + 1
    ensures g.startY <= f.height - (g.startY + g.size) <= g.startY + 1
  {
    var size := Min(f.height, f.width) - 2 * Margin;
    Region((f.width - size) / 2, (f.height - size) / 2, size)
  }

  /** Every cell has a colour. */
  predicate Filled(d: seq<Option<string>>) {
    forall i :: 0 <= i < |d| ==> d[i].Some?
  }

  /** The number of cells that have a colour, as shown on the frame. */
  function FilledCount(d: seq<Option<string>>): (k: nat)
    ensures k <= |d|
    ensures k + multiset(d)[None] == |d|
    ensures k == |d| <==> Filled(d)
  {
    if |d| == 0 then 0
    else
      var rest := FilledCount(d[1..]);
      assert Filled(d) <==> d[0].Some? && Filled(d[1..]) by {
        if Filled(d[1..]) && d[0].Some? {
          forall i | 0 <= i < |d| ensures d[i].Some? {
            if i > 0 { assert d[i] == d[1..][i - 1]; }
          }
        }
      }
      assert d == [d[0]] + d[1..];
      (if d[0].Some? then 1 else 0) + rest
  }

  /** What the tick uses when detection fails: one unknown per cell. */
  function Fallback(n: nat): (d: seq<Option<string>>)
    ensures |d| == n * n
    ensures forall i :: 0 <= i < |d| ==> d[i].None?
  {
    seq(n * n, _ => None)
  }

  /** The per-cell results of one frame, or the fallback if detection fails. */
  function FrameColors(f: Frame, n: nat): (d: seq<Option<string>>)
    requires Usable(f)
    ensures |d| == n * n
  {
    match Detect(f, CaptureRegion(f), n)
    case Raised => Fallback(n)
    case Detected(colors) => colors
  }

  /** Record a filled frame and move to the next face; after the sixth, stop and solve. */
  function Capture(s: AppState, f: Frame): AppState {
    var t := s.(captured := s.captured + [f], currentFace := s.currentFace + 1);
    if t.currentFace < |FaceNames| then t else ProcessCube(t.(cameraOn := false))
  }

  /** The frame admitted by a tick, if the tick captures it. */
  predicate Fires(s: AppState, read: Option<Frame>)
    requires read.Some? ==> Usable(read.value)
  {
    s.cameraOn && read.Some? && Filled(FrameColors(read.value, s.cubeSize))
  }

  /**
    One camera tick. `read` is the frame the camera delivered, if any.
    Only a tick with the camera on and a frame whose cells all have a
    colour changes the state.
   */
  function UpdateFrame(s: AppState, read: Option<Frame>): (r: AppState)
    requires read.Some? ==> Usable(read.value)
    ensures !Fires(s, read) ==> r == s
    ensures Fires(s, read) ==> r.cubeSize == s.cubeSize && r.captured == s.captured + [read.value]
    ensures Fires(s, read) ==> r.currentFace == s.currentFace + 1
    ensures Fires(s, read) ==> (r.cameraOn <==> r.currentFace < 6)
    ensures Fires(s, read) ==> r.steps == if r.currentFace < 6 then s.steps else StepsFor(s.cubeSize)
  {
    if !s.cameraOn then s
    else match read
      case None => s
      case Some(f) =>
        if Filled(FrameColors(f, s.cubeSize)) then Capture(s, f) else s
  }

  /** The invariant of every reachable state. */
  predicate Valid(s: AppState) {
    && s.cubeSize in {2, 3, 4}
    && |s.captured| == s.currentFace
    && (s.steps != [] ==> s.currentFace >= 6 && s.steps == StepsFor(s.cubeSize))
  }

  lemma NewSessionValid(answer: Option<int>)
    ensures NewSession(answer).Some? ==> Valid(NewSession(answer).value)
  {
  }

  lemma ResetPreservesValid(s: AppState)
    requires Valid(s)
    ensures Valid(Reset(s))
  {
  }

  lemma StartCameraPreservesValid(s: AppState)
    requires Valid(s)
    ensures Valid(StartCamera(s).state)
  {
  }

  lemma UpdateFramePreservesValid(s: AppState, read: Option<Frame>)
    requires Valid(s)
    requires read.Some? ==> Usable(read.value)
    ensures Valid(UpdateFrame(s, read))
  {
  }

  /** For n > 0 the fallback list of n * n unknowns is never filled, and its count is 0. */
  lemma FallbackNeverFills(n: nat)
    requires n > 0
    ensures !Filled(Fallback(n)) && FilledCount(Fallback(n)) == 0
  {
    assert Fallback(n)[0].None?;
    var d := Fallback(n);
    assert forall k :: 0 <= k <= |d| ==> FilledCount(d[k..]) == 0 by {
      forall k | 0 <= k <= |d| ensures FilledCount(d[k..]) == 0 {
        FallbackTail(d, k);
      }
    }
    assert d[0..] == d;
  }

  lemma {:induction false} FallbackTail(d: seq<Option<string>>, k: nat)
    requires forall i :: 0 <= i < |d| ==> d[i].None?
    requires k <= |d|
    ensures FilledCount(d[k..]) == 0
    decreases |d| - k
  {
    if k < |d| {
      FallbackTail(d, k + 1);
      assert d[k..][1..] == d[k + 1..];
    }
  }

  /** A frame fills the grid exactly when every one of its n * n cells has a colour. */
  lemma FilledIffEveryCell(f: Frame, n: nat)
    requires Usable(f) && n > 0
    ensures Filled(FrameColors(f, n)) <==>
      forall row: nat, col: nat :: row < n && col < n ==> CellColor(f, CaptureRegion(f), n, row, col).Some?
  {
    var g := CaptureRegion(f);
    var d := FrameColors(f, n);
    assert d == Grid(f, g, n);
    if Filled(d) {
      forall row: nat, col: nat | row < n && col < n
        ensures CellColor(f, g, n, row, col).Some?
      {
        GridHas(f, g, n, row, col);
      }
    } else if forall row: nat, col: nat :: row < n && col < n ==> CellColor(f, g, n, row, col).Some? {
      GridEvery(f, g, n, (c: Option<string>) => c.Some?);
    }
  }

  /** The ticks of a camera session, one per delivered (or missed) frame. */
  function Run(s: AppState, ticks: seq<Option<Frame>>): AppState
    requires forall i :: 0 <= i < |ticks| && ticks[i].Some? ==> Usable(ticks[i].value)
    decreases |ticks|
  {
    if |ticks| == 0 then s else Run(UpdateFrame(s, ticks[0]), ticks[1..])
  }

  /** Each frame delivered by the camera. */
  function Delivered(frames: seq<Frame>): (r: seq<Option<Frame>>)
    ensures |r| == |frames|
    ensures forall i :: 0 <= i < |r| ==> r[i] == Some(frames[i])
  {
    seq(|frames|, i requires 0 <= i < |frames| => Some(frames[i]))
  }

  /** Capturing each of `frames` in turn. */
  function CaptureAll(s: AppState, frames: seq<Frame>): AppState
    decreases |frames|
  {
    if |frames| == 0 then s else CaptureAll(Capture(s, frames[0]), frames[1..])
  }

  /**
    While the camera is on, `k` captures advance the session by `k` faces;
    the sixth face stops the camera and sets the steps.
   */
  lemma {:induction false} CaptureAllAdvances(s: AppState, frames: seq<Frame>)
    requires s.cameraOn && s.currentFace < 6 && s.currentFace + |frames| <= 6
    ensures var r := CaptureAll(s, frames);
      && r.cubeSize == s.cubeSize
      && r.captured == s.captured + frames
      && r.currentFace == s.currentFace + |frames|
      && (r.cameraOn <==> s.currentFace + |frames| < 6)
      && r.steps == if s.currentFace + |frames| < 6 then s.steps else StepsFor(s.cubeSize)
    decreases |frames|
  {
    if |frames| == 0 {
      assert frames == [];
    } else {
      var t := Capture(s, frames[0]);
      if |frames| > 1 {
        CaptureAllAdvances(t, frames[1..]);
        assert s.captured + frames == t.captured + frames[1..];
      } else {
        assert frames == [frames[0]];
      }
    }
  }

  /** While the camera is on, a run of frames with every cell coloured captures each of them. */
  lemma {:induction false} RunFilledFrames(s: AppState, frames: seq<Frame>)
    requires s.cameraOn && s.currentFace < 6 && s.currentFace + |frames| <= 6
    requires forall i :: 0 <= i < |frames| ==> Usable(frames[i]) && Filled(FrameColors(frames[i], s.cubeSize))
    ensures Run(s, Delivered(frames)) == CaptureAll(s, frames)
    decreases |frames|
  {
    if |frames| > 0 {
      var t := Capture(s, frames[0]);
      RunDelivered(s, frames);
      FilledTickCaptures(s, frames[0]);
      if |frames| > 1 {
        assert t.cameraOn && t.cubeSize == s.cubeSize;
        RunFilledFrames(t, frames[1..]);
      }
    }
  }

  /**
    While the camera is on, `k` frames whose cells are all coloured advance
    the session by `k` faces; the sixth face stops the camera and sets the
    steps.
   */
  lemma FilledFramesAdvance(s: AppState, frames: seq<Frame>)
    requires s.cameraOn && s.currentFace < 6 && s.currentFace + |frames| <= 6
    requires forall i :: 0 <= i < |frames| ==> Usable(frames[i]) && Filled(FrameColors(frames[i], s.cubeSize))
    ensures Run(s, Delivered(frames)).cubeSize == s.cubeSize
    ensures Run(s, Delivered(frames)).captured == s.captured + frames
    ensures Run(s, Delivered(frames)).currentFace == s.currentFace + |frames|
    ensures Run(s, Delivered(frames)).cameraOn <==> s.currentFace + |frames| < 6
    ensures Run(s, Delivered(frames)).steps == if s.currentFace + |frames| < 6 then s.steps else StepsFor(s.cubeSize)
  {
    RunFilledFrames(s, frames);
    CaptureAllAdvances(s, frames);
  }

  /** A delivered frame with every cell coloured is captured while the camera is on. */
  lemma FilledTickCaptures(s: AppState, f: Frame)
    requires s.cameraOn && Usable(f) && Filled(FrameColors(f, s.cubeSize))
    ensures UpdateFrame(s, Some(f)) == Capture(s, f)
  {
  }

  /** Delivering frames one by one: the first tick, then the rest. */
  lemma RunDelivered(s: AppState, frames: seq<Frame>)
    requires |frames| > 0 && forall i :: 0 <= i < |frames| ==> Usable(frames[i])
    ensures Run(s, Delivered(frames)) == Run(UpdateFrame(s, Some(frames[0])), Delivered(frames[1..]))
  {
    assert Delivered(frames)[1..] == Delivered(frames[1..]);
  }

  /** From a fresh start, six filled frames capture the cube and produce the steps. */
  lemma SixFacesSolve(n: nat, frames: seq<Frame>)
    requires |frames| == 6
    requires forall i :: 0 <= i < 6 ==> Usable(frames[i]) && Filled(FrameColors(frames[i], n))
    ensures var r := Run(StartCamera(Fresh(n)).state, Delivered(frames));
      && r.captured == frames && r.currentFace == 6 && !r.cameraOn
      && r.steps == StepsFor(n) && |r.steps| > 0
  {
    FilledFramesAdvance(StartCamera(Fresh(n)).state, frames);
  }

  /**
    A frame showing one recognised colour everywhere, large enough for
    cells of at least 2 pixels, is captured.
   */
  lemma UniformFrameFires(s: AppState, f: Frame, p: Hsv)
    requires s.cameraOn && s.cubeSize > 0 && Usable(f)
    requires Min(f.height, f.width) - 2 * Margin >= 2 * s.cubeSize
    requires forall a: Rect :: f.mean(a) == p
    requires Classify(p).Some?
    ensures Fires(s, Some(f))
  {
    var g := CaptureRegion(f);
    var n := s.cubeSize;
    DivLower(g.size, n, 2);
    UniformFrame(f, g, n, p);
    var d := FrameColors(f, n);
    assert d == Grid(f, g, n);
    assert forall i :: 0 <= i < |d| ==> d[i] == Classify(p);
  }

  /**
    With a cube size of 0 the detection call fails and the fallback list is
    empty, so every delivered frame passes the all-filled gate.
   */
  lemma ZeroSizeCapturesEveryFrame(s: AppState, f: Frame)
    requires s.cameraOn && s.cubeSize == 0 && Usable(f)
    ensures FrameColors(f, s.cubeSize) == [] && Fires(s, Some(f))
  {
  }

  /** A frame whose grid cells would be thinner than 2 pixels is never captured. */
  lemma SmallFrameNeverFires(s: AppState, f: Frame)
    requires s.cubeSize > 0 && Usable(f)
    requires Min(f.height, f.width) - 2 * Margin < 2 * s.cubeSize
    ensures !Fires(s, Some(f))
  {
    var g := CaptureRegion(f);
    var n := s.cubeSize;
    assert BoxSize(g, n) < 2;
    TinyRegionIsUnknown(f, g, n);
    assert 0 < n * n;
    assert FrameColors(f, n)[0].None?;
  }
}
