/** `scripts/run_measurement.py`: the script's own copy of the histogram
    localiser, the per-frame measurement loop of `main()`, the tolerant
    homography lookup and the summary counts.

    The video, the camera undistortion and the mask pipeline are outside the
    model: the loop receives one binary mask per frame read after the
    reference-point click. */
module RunMeasurement {
  import opened Common
  import opened Detection
  import opened Measurement

  // ---------------------------------------------------------------------
  // The script's copy of the localiser

  /** Lines 63-69: of the band's two edges, the one farther from the wheel
      row (`band_top` on a tie). */
  function FartherEdgeRow(wheelY: int, r: Run): int
  {
    if Abs(wheelY - r.start) >= Abs(wheelY - r.end) then r.start else r.end
  }

  /** The script's `find_lane_line_by_histogram`: the shared strip,
      histogram, run extraction and choice, then the farther edge at the
      wheel's x. */
  function ScriptLaneLine(m: Mask, wheelX: nat, wheelY: nat, prev: Option<Point>, cfg: Config): Option<Point>
    requires WellFormed(m)
  {
    match ChosenRun(m, wheelX, wheelY, prev, cfg)
    case None => None
    case Some(r) => Some(Point(wheelX, FartherEdgeRow(wheelY, r)))
  }

  method FindLaneLineByHistogram(m: Mask, wheelX: nat, wheelY: nat, prev: Option<Point>, cfg: Config)
    returns (pt: Option<Point>)
    requires WellFormed(m)
    ensures pt == ScriptLaneLine(m, wheelX, wheelY, prev, cfg)
  {
    var best := SelectLaneRun(m, wheelX, wheelY, prev, cfg);
    if best.None? {
      return None;
    }
    var bandTop, bandBottom := best.value.start, best.value.end;
    var dTop := Abs(wheelY - bandTop);
    var dBottom := Abs(wheelY - bandBottom);
    var laneY := if dTop >= dBottom then bandTop else bandBottom;
    pt := Some(Point(wheelX, laneY));
  }

  /** The chosen band lies above the wheel row, so its top is always the
      farther edge: the script returns the band's first row whatever
      `LANE_POINT_MODE` says. */
  lemma ScriptRowIsRunStart(m: Mask, wheelX: nat, wheelY: nat, prev: Option<Point>, cfg: Config)
    requires WellFormed(m)
    ensures var pt := ScriptLaneLine(m, wheelX, wheelY, prev, cfg);
      && (pt.Some? <==> ChosenRun(m, wheelX, wheelY, prev, cfg).Some?)
      && (pt.Some? ==>
            && pt.value == Point(wheelX, ChosenRun(m, wheelX, wheelY, prev, cfg).value.start)
            && 0 <= pt.value.y < wheelY)
  {
    ChosenRunInStrip(m, wheelX, wheelY, prev, cfg);
  }

  /** The script's copy answers as `src/detection.py` does in mode `near`,
      for every configured mode. */
  lemma ScriptAgreesWithNearMode(m: Mask, wheelX: nat, wheelY: nat, prev: Option<Point>, cfg: Config)
    requires WellFormed(m)
    ensures LaneLine(m, wheelX, wheelY, prev, cfg.(lanePointMode := "near"))
              == Ok(ScriptLaneLine(m, wheelX, wheelY, prev, cfg))
  {
    ChosenRunInStrip(m, wheelX, wheelY, prev, cfg);
    assert ChosenRun(m, wheelX, wheelY, prev, cfg.(lanePointMode := "near"))
        == ChosenRun(m, wheelX, wheelY, prev, cfg);
  }

  // ---------------------------------------------------------------------
  // The frame loop

  /** What the loop fixes before its first frame: the clicked wheel point,
      the configuration, the lane localiser (a mask and the previous
      detection to a lane point), the pixel-to-ground mapping and the
      distance. The loop is stated for any localiser, mapping and distance;
      ScriptSession fixes them to the script's `find_lane_line_by_histogram`
      at the clicked point, to `pixel_to_real_world` with the loaded
      homography and to `calculate_distance`. */
  datatype Session = Session(
    wheelX: nat,
    wheelY: nat,
    cfg: Config,
    locate: (Mask, Option<Point>) -> Option<Point>,
    toWorld: Point -> Result<Vec2, Error>,
    distance: (Vec2, Vec2) -> real)

  function ToVec(p: Point): Vec2
  {
    Vec2(p.x as real, p.y as real)
  }

  /** The session `main()` runs: `find_lane_line_by_histogram` at the
      clicked point as the localiser, `pixel_to_real_world(pt,
      homography_matrix)` as the mapping. (Every mask the loop sees is
      well formed; the localiser's answer on any other does not matter.) */
  function ScriptSession(wheelX: nat, wheelY: nat, H: seq<seq<real>>, cfg: Config, distance: (Vec2, Vec2) -> real): (s: Session)
    requires Is3x3(H)
    ensures s.wheelX == wheelX && s.wheelY == wheelY && s.cfg == cfg && s.distance == distance
    ensures LocatesByHistogram(s)
    ensures forall p :: s.toWorld(p) == PixelToRealWorld(ToVec(p), H)
  {
    Session(wheelX, wheelY, cfg,
      (m, prev) => if WellFormed(m) then ScriptLaneLine(m, wheelX, wheelY, prev, cfg) else None,
      p => PixelToRealWorld(ToVec(p), H), distance)
  }

  /** The session's localiser is the script's `find_lane_line_by_histogram`
      at the clicked wheel point. */
  ghost predicate LocatesByHistogram(s: Session)
  {
    forall m, prev {:trigger ScriptLaneLine(m, s.wheelX, s.wheelY, prev, s.cfg)} ::
      WellFormed(m) ==> s.locate(m, prev) == ScriptLaneLine(m, s.wheelX, s.wheelY, prev, s.cfg)
  }

  /** `distance` is `calculate_distance`: a square root of the squared
      distance. */
  ghost predicate DistanceIsEuclidean(s: Session)
  {
    forall p, q :: IsDistance(p, q, s.distance(p, q))
  }

  predicate AllWellFormed(masks: seq<Mask>)
  {
    forall k :: 0 <= k < |masks| ==> WellFormed(masks[k])
  }

  /** One CSV row: `[frame_idx, lateral_pos]` or `[frame_idx, "NaN"]`. */
  datatype FrameRow = Lateral(frame: int, cm: real) | Missing(frame: int)

  /** The row one frame writes and the detection carried to the next frame. */
  datatype Step = Step(row: FrameRow, prev: Option<Point>)

  /** Lines 210-229 for one frame whose detection is `lane`: no detection
      writes NaN and keeps the previous detection; a detection becomes the
      new previous one, and its lateral position is the distance between the
      mapped wheel and lane points plus the wheel offset; a failing mapping
      (the wheel first) raises. */
  function FrameStep(lane: Option<Point>, frame: int, s: Session, prev: Option<Point>): Result<Step, Error>
  {
    match lane
    case None => Ok(Step(Missing(frame), prev))
    case Some(pt) =>
      match s.toWorld(Point(s.wheelX, s.wheelY))
      case Err(e) => Err(e)
      case Ok(realWheel) =>
        match s.toWorld(pt)
        case Err(e) => Err(e)
        case Ok(realLane) =>
          Ok(Step(Lateral(frame, s.distance(realWheel, realLane) + s.cfg.wheelOffsetCm), Some(pt)))
  }

  /** The loop's state after some frames: rows written, the previous
      detection, and the exception that ended the loop, if any. */
  datatype Progress = Progress(rows: seq<FrameRow>, prev: Option<Point>, failure: Option<Error>)

  /** The state after one more frame whose step gave `r`. */
  function Advance(o: Progress, r: Result<Step, Error>): Progress
  {
    match r
    case Err(e) => Progress(o.rows, o.prev, Some(e))
    case Ok(st) => Progress(o.rows + [st.row], st.prev, None)
  }

  /** The loop over the first n masks. Frame k (from 0) is the video's frame
      k + 1, the first frame having been read for the click. An exception
      ends the run. */
  function RunFrames(masks: seq<Mask>, n: nat, s: Session): Progress
    requires n <= |masks|
  {
    if n == 0 then Progress([], None, None)
    else
      var o := RunFrames(masks, n - 1, s);
      if o.failure.Some? then o
      else Advance(o, FrameStep(s.locate(masks[n - 1], o.prev), n, s, o.prev))
  }

  /** `all_distances`: the lateral values, in frame order. */
  function Laterals(rows: seq<FrameRow>): (ds: seq<real>)
    ensures |ds| <= |rows|
  {
    if |rows| == 0 then []
    else Laterals(rows[..|rows| - 1]) + (match rows[|rows| - 1] case Lateral(_, cm) => [cm] case Missing(_) => [])
  }

  /** `nan_count`: the NaN rows. */
  function CountMissing(rows: seq<FrameRow>): (n: nat)
    ensures n <= |rows|
  {
    if |rows| == 0 then 0
    else CountMissing(rows[..|rows| - 1]) + (if rows[|rows| - 1].Missing? then 1 else 0)
  }

  /** Writing one more row extends the two tallies by that row alone. */
  lemma AppendRow(rows: seq<FrameRow>, r: FrameRow)
    ensures Laterals(rows + [r]) == Laterals(rows) + (if r.Lateral? then [r.cm] else [])
    ensures CountMissing(rows + [r]) == CountMissing(rows) + (if r.Missing? then 1 else 0)
  {
    assert (rows + [r])[..|rows|] == rows;
  }

  /** Every row is either a value or a NaN. */
  lemma {:induction false} LateralsPlusMissing(rows: seq<FrameRow>)
    ensures |Laterals(rows)| + CountMissing(rows) == |rows|
  {
    if |rows| > 0 {
      LateralsPlusMissing(rows[..|rows| - 1]);
    }
  }

  /** The body of the loop for one mask (lines 207-217, 227-229): detect
      with the script's localiser (which the session's `locate` is, for this
      mask and previous detection), and on a detection map both points and
      add the wheel offset. */
  method MeasureFrame(m: Mask, frameIdx: int, s: Session, prevLaneDetection: Option<Point>)
    returns (res: Result<Step, Error>)
    requires WellFormed(m)
    requires s.locate(m, prevLaneDetection) == ScriptLaneLine(m, s.wheelX, s.wheelY, prevLaneDetection, s.cfg)
    ensures res == FrameStep(s.locate(m, prevLaneDetection), frameIdx, s, prevLaneDetection)
  {
    var ptLane := FindLaneLineByHistogram(m, s.wheelX, s.wheelY, prevLaneDetection, s.cfg);
    var ptWheel := Point(s.wheelX, s.wheelY);
    if ptLane.None? {
      return Ok(Step(Missing(frameIdx), prevLaneDetection));
    }
    var realWheel := s.toWorld(ptWheel);
    if realWheel.Err? {
      return Err(realWheel.error);
    }
    var realLane := s.toWorld(ptLane.value);
    if realLane.Err? {
      return Err(realLane.error);
    }
    var lateralPos := s.distance(realWheel.value, realLane.value) + s.cfg.wheelOffsetCm;
    res := Ok(Step(Lateral(frameIdx, lateralPos), ptLane));
  }

  /** The lines 168-243 loop: returns the rows written, `all_distances`,
      `nan_count`, `processed_frames`, and the exception that stopped it. */
  method MeasureFrames(masks: seq<Mask>, s: Session)
    returns (rows: seq<FrameRow>, allDistances: seq<real>, nanCount: nat, processedFrames: nat, failure: Option<Error>)
    requires AllWellFormed(masks) && LocatesByHistogram(s)
    ensures rows == RunFrames(masks, |masks|, s).rows
    ensures failure == RunFrames(masks, |masks|, s).failure
    ensures allDistances == Laterals(rows) && nanCount == CountMissing(rows) && processedFrames == |rows|
    ensures |allDistances| + nanCount == processedFrames
  {
    rows, allDistances, nanCount, processedFrames, failure := [], [], 0, 0, None;
    var prevLaneDetection: Option<Point> := None;
    var i := 0;
    while i < |masks|
      invariant 0 <= i <= |masks|
      invariant RunFrames(masks, i, s) == Progress(rows, prevLaneDetection, None)
      invariant allDistances == Laterals(rows) && nanCount == CountMissing(rows) && processedFrames == |rows|
    {
      var res := MeasureFrame(masks[i], i + 1, s, prevLaneDetection);
      NextFrame(masks, i, s, res);
      if res.Err? {
        failure := Some(res.error);
        LateralsPlusMissing(rows);
        return;
      }
      var row := res.value.row;
      AppendRow(rows, row);
      if row.Lateral? {
        allDistances := allDistances + [row.cm];
      } else {
        nanCount := nanCount + 1;
      }
      rows := rows + [row];
      prevLaneDetection := res.value.prev;
      processedFrames := processedFrames + 1;
      i := i + 1;
    }
    LateralsPlusMissing(rows);
  }

  /** One more frame after a run without exception: a step that raises
      ends the whole run, and one that succeeds appends its row. */
  lemma NextFrame(masks: seq<Mask>, i: nat, s: Session, res: Result<Step, Error>)
    requires i < |masks| && RunFrames(masks, i, s).failure.None?
    requires var o := RunFrames(masks, i, s); res == FrameStep(s.locate(masks[i], o.prev), i + 1, s, o.prev)
    ensures var o := RunFrames(masks, i, s);
      && (res.Err? ==> RunFrames(masks, |masks|, s) == Progress(o.rows, o.prev, Some(res.error)))
      && (res.Ok? ==> RunFrames(masks, i + 1, s) == Progress(o.rows + [res.value.row], res.value.prev, None))
  {
    if res.Err? {
      FailureIsFinal(masks, i + 1, |masks|, s);
    }
  }

  /** An exception ends the loop: later frames change nothing. */
  lemma {:induction false} FailureIsFinal(masks: seq<Mask>, i: nat, n: nat, s: Session)
    requires i <= n <= |masks|
    requires RunFrames(masks, i, s).failure.Some?
    ensures RunFrames(masks, n, s) == RunFrames(masks, i, s)
    decreases n
  {
    if n > i {
      FailureIsFinal(masks, i, n - 1, s);
    }
  }

  /** One row per frame until an exception, numbered from 1 in frame order;
      an exception leaves out the row of the frame that raised it. */
  lemma {:induction false} RowsFollowFrames(masks: seq<Mask>, n: nat, s: Session)
    requires n <= |masks|
    ensures var o := RunFrames(masks, n, s);
      && (o.failure.None? ==> |o.rows| == n)
      && (o.failure.Some? ==> |o.rows| < n)
      && forall k :: 0 <= k < |o.rows| ==> o.rows[k].frame == k + 1
  {
    if n > 0 {
      RowsFollowFrames(masks, n - 1, s);
    }
  }

  /** `prev_lane_detection` is None exactly while every frame so far was a
      NaN; once set it is a detection at the wheel's x, above the wheel row. */
  lemma {:induction false} PreviousDetection(masks: seq<Mask>, n: nat, s: Session)
    requires n <= |masks| && AllWellFormed(masks) && LocatesByHistogram(s)
    ensures var o := RunFrames(masks, n, s);
      o.failure.None? ==>
        && (o.prev.None? <==> forall k :: 0 <= k < |o.rows| ==> o.rows[k].Missing?)
        && (o.prev.Some? ==> o.prev.value.x == s.wheelX && 0 <= o.prev.value.y < s.wheelY)
  {
    if n > 0 {
      var o := RunFrames(masks, n - 1, s);
      PreviousDetection(masks, n - 1, s);
      if o.failure.None? {
        var lane := s.locate(masks[n - 1], o.prev);
        assert lane == ScriptLaneLine(masks[n - 1], s.wheelX, s.wheelY, o.prev, s.cfg);
        ScriptRowIsRunStart(masks[n - 1], s.wheelX, s.wheelY, o.prev, s.cfg);
        var r := FrameStep(lane, n, s, o.prev);
        assert RunFrames(masks, n, s) == Advance(o, r);
        if r.Ok? {
          var rows := o.rows + [r.value.row];
          assert forall k :: 0 <= k < |o.rows| ==> rows[k] == o.rows[k];
          if lane.Some? {
            assert rows[|rows| - 1].Lateral?;
          }
        }
      }
    }
  }

  /** What frame k (from 0) writes when it writes a value: the distance
      between the mapped wheel point and the mapped lane point the localiser
      finds in mask k, given the detection carried in from the frames
      before, plus the wheel offset. */
  predicate FrameMeasured(masks: seq<Mask>, k: nat, s: Session, cm: real)
    requires k < |masks|
  {
    var lane := s.locate(masks[k], RunFrames(masks, k, s).prev);
    var wheel := s.toWorld(Point(s.wheelX, s.wheelY));
    && lane.Some?
    && wheel.Ok?
    && s.toWorld(lane.value).Ok?
    && cm == s.distance(wheel.value, s.toWorld(lane.value).value) + s.cfg.wheelOffsetCm
  }

  /** Every value among the rows passes `good` for the frame that wrote
      it, row k coming from frame k. */
  predicate AllGood(rows: seq<FrameRow>, good: (nat, real) -> bool)
  {
    forall k :: 0 <= k < |rows| && rows[k].Lateral? ==> good(k, rows[k].cm)
  }

  /** One more frame keeps every value passing `good`, given that the
      value this frame writes, if any, passes it. */
  lemma AdvanceGood(o: Progress, lane: Option<Point>, frame: int, s: Session, good: (nat, real) -> bool)
    requires AllGood(o.rows, good)
    requires var r := FrameStep(lane, frame, s, o.prev);
      r.Ok? && r.value.row.Lateral? ==> good(|o.rows|, r.value.row.cm)
    ensures AllGood(Advance(o, FrameStep(lane, frame, s, o.prev)).rows, good)
  {
    var r := FrameStep(lane, frame, s, o.prev);
    if r.Ok? {
      var more := o.rows + [r.value.row];
      forall k | 0 <= k < |more| && more[k].Lateral?
        ensures good(k, more[k].cm)
      {
        if k < |o.rows| {
          assert more[k] == o.rows[k];
        }
      }
    }
  }

  /** The test "this is frame k's measurement" as a function value. */
  function MeasuredBy(masks: seq<Mask>, s: Session): (nat, real) -> bool
  {
    (k: nat, cm: real) => k < |masks| && FrameMeasured(masks, k, s, cm)
  }

  /** The value frame k writes, if it writes one, passes `good`. */
  predicate StepGood(masks: seq<Mask>, k: nat, s: Session, good: (nat, real) -> bool)
    requires k < |masks|
  {
    var o := RunFrames(masks, k, s);
    var r := FrameStep(s.locate(masks[k], o.prev), k + 1, s, o.prev);
    o.failure.None? && r.Ok? && r.value.row.Lateral? ==> good(k, r.value.row.cm)
  }

  predicate StepsGood(masks: seq<Mask>, n: nat, s: Session, good: (nat, real) -> bool)
    requires n <= |masks|
  {
    forall k :: 0 <= k < n ==> StepGood(masks, k, s, good)
  }

  /** If every frame's own value passes `good`, then every row does, row k
      coming from frame k. */
  lemma {:induction false} RunKeepsGood(masks: seq<Mask>, n: nat, s: Session, good: (nat, real) -> bool)
    requires n <= |masks| && StepsGood(masks, n, s, good)
    ensures |RunFrames(masks, n, s).rows| <= n
    ensures AllGood(RunFrames(masks, n, s).rows, good)
  {
    if n > 0 {
      assert StepsGood(masks, n - 1, s, good) && StepGood(masks, n - 1, s, good);
      RunKeepsGood(masks, n - 1, s, good);
      RowsFollowFrames(masks, n - 1, s);
      var o := RunFrames(masks, n - 1, s);
      if o.failure.None? {
        AdvanceGood(o, s.locate(masks[n - 1], o.prev), n, s, good);
      }
    }
  }

  /** Row k is written by frame k, and a value in it is that frame's
      measurement. */
  lemma LateralsMeasured(masks: seq<Mask>, n: nat, s: Session)
    requires n <= |masks|
    ensures |RunFrames(masks, n, s).rows| <= n
    ensures AllGood(RunFrames(masks, n, s).rows, MeasuredBy(masks, s))
  {
    forall k | 0 <= k < n
      ensures StepGood(masks, k, s, MeasuredBy(masks, s))
    {
    }
    RunKeepsGood(masks, n, s, MeasuredBy(masks, s));
  }

  /** In the script's session every value written in frame k is
      `calculate_distance` of the wheel point and frame k's lane point, both
      mapped through the same homography, plus `WHEEL_OFFSET_CM`; the mapped
      wheel point is the same for every frame. */
  lemma ScriptLaterals(masks: seq<Mask>, n: nat, wheelX: nat, wheelY: nat, H: seq<seq<real>>, cfg: Config, distance: (Vec2, Vec2) -> real)
    requires n <= |masks| && AllWellFormed(masks) && Is3x3(H)
    ensures var s := ScriptSession(wheelX, wheelY, H, cfg, distance);
      var rows := RunFrames(masks, n, s).rows;
      var wheel := PixelToRealWorld(ToVec(Point(wheelX, wheelY)), H);
      && |rows| <= n
      && forall k :: 0 <= k < |rows| && rows[k].Lateral? ==>
        var lane := ScriptLaneLine(masks[k], wheelX, wheelY, RunFrames(masks, k, s).prev, cfg);
        && lane.Some?
        && lane.value.x == wheelX && 0 <= lane.value.y < wheelY
        && wheel.Ok?
        && PixelToRealWorld(ToVec(lane.value), H).Ok?
        && rows[k].cm == distance(wheel.value, PixelToRealWorld(ToVec(lane.value), H).value) + cfg.wheelOffsetCm
  {
    var s := ScriptSession(wheelX, wheelY, H, cfg, distance);
    LateralsMeasured(masks, n, s);
    var rows := RunFrames(masks, n, s).rows;
    assert AllGood(rows, MeasuredBy(masks, s));
    forall k | 0 <= k < |rows| && rows[k].Lateral?
      ensures
        var lane := ScriptLaneLine(masks[k], wheelX, wheelY, RunFrames(masks, k, s).prev, cfg);
        var wheel := PixelToRealWorld(ToVec(Point(wheelX, wheelY)), H);
        && lane.Some?
        && lane.value.x == wheelX && 0 <= lane.value.y < wheelY
        && wheel.Ok?
        && PixelToRealWorld(ToVec(lane.value), H).Ok?
        && rows[k].cm == distance(wheel.value, PixelToRealWorld(ToVec(lane.value), H).value) + cfg.wheelOffsetCm
    {
      assert MeasuredBy(masks, s)(k, rows[k].cm);
      ScriptFrameMeasured(masks, k, wheelX, wheelY, H, cfg, distance, rows[k].cm);
    }
  }

  /** One frame of the script's session, with its mapping written out. */
  lemma ScriptFrameMeasured(masks: seq<Mask>, k: nat, wheelX: nat, wheelY: nat, H: seq<seq<real>>, cfg: Config, distance: (Vec2, Vec2) -> real, cm: real)
    requires k < |masks| && AllWellFormed(masks) && Is3x3(H)
    requires FrameMeasured(masks, k, ScriptSession(wheelX, wheelY, H, cfg, distance), cm)
    ensures var s := ScriptSession(wheelX, wheelY, H, cfg, distance);
      var lane := ScriptLaneLine(masks[k], wheelX, wheelY, RunFrames(masks, k, s).prev, cfg);
      var wheel := PixelToRealWorld(ToVec(Point(wheelX, wheelY)), H);
      && lane.Some?
      && lane.value.x == wheelX && 0 <= lane.value.y < wheelY
      && wheel.Ok?
      && PixelToRealWorld(ToVec(lane.value), H).Ok?
      && cm == distance(wheel.value, PixelToRealWorld(ToVec(lane.value), H).value) + cfg.wheelOffsetCm
  {
    var s := ScriptSession(wheelX, wheelY, H, cfg, distance);
    var prev := RunFrames(masks, k, s).prev;
    var lane := ScriptLaneLine(masks[k], wheelX, wheelY, prev, cfg);
    assert s.locate(masks[k], prev) == lane;
    ScriptRowIsRunStart(masks[k], wheelX, wheelY, prev, cfg);
    assert s.toWorld(Point(wheelX, wheelY)) == PixelToRealWorld(ToVec(Point(wheelX, wheelY)), H);
    assert s.toWorld(lane.value) == PixelToRealWorld(ToVec(lane.value), H);
  }

  /** Every lateral value written is at least `offset`. */
  predicate AtLeastOffset(rows: seq<FrameRow>, offset: real)
  {
    forall k :: 0 <= k < |rows| && rows[k].Lateral? ==> rows[k].cm >= offset
  }

  /** With `calculate_distance` as the distance, every lateral value is at
      least the wheel offset. */
  lemma LateralAtLeastOffset(masks: seq<Mask>, n: nat, s: Session)
    requires n <= |masks| && DistanceIsEuclidean(s)
    ensures AtLeastOffset(RunFrames(masks, n, s).rows, s.cfg.wheelOffsetCm)
  {
    forall p, q ensures s.distance(p, q) >= 0.0 {
      assert IsDistance(p, q, s.distance(p, q));
    }
    LateralsAboveOffset(masks, n, s);
  }

  ghost predicate DistanceNonNegative(s: Session)
  {
    forall p, q :: s.distance(p, q) >= 0.0
  }

  lemma {:induction false} LateralsAboveOffset(masks: seq<Mask>, n: nat, s: Session)
    requires n <= |masks| && DistanceNonNegative(s)
    ensures AtLeastOffset(RunFrames(masks, n, s).rows, s.cfg.wheelOffsetCm)
  {
    if n > 0 {
      var o := RunFrames(masks, n - 1, s);
      LateralsAboveOffset(masks, n - 1, s);
      if o.failure.None? {
        AdvanceKeepsAtLeast(o, s.locate(masks[n - 1], o.prev), n, s);
      }
    }
  }

  /** One more frame keeps every lateral value at or above the offset. */
  lemma AdvanceKeepsAtLeast(o: Progress, lane: Option<Point>, frame: int, s: Session)
    requires DistanceNonNegative(s) && AtLeastOffset(o.rows, s.cfg.wheelOffsetCm)
    ensures AtLeastOffset(Advance(o, FrameStep(lane, frame, s, o.prev)).rows, s.cfg.wheelOffsetCm)
  {
    var r := FrameStep(lane, frame, s, o.prev);
    if r.Ok? {
      StepAboveOffset(lane, frame, s, o.prev);
      AppendKeepsAtLeast(o.rows, r.value.row, s.cfg.wheelOffsetCm);
    }
  }

  lemma AppendKeepsAtLeast(rows: seq<FrameRow>, row: FrameRow, offset: real)
    requires AtLeastOffset(rows, offset)
    requires row.Lateral? ==> row.cm >= offset
    ensures AtLeastOffset(rows + [row], offset)
  {
    assert forall k :: 0 <= k < |rows| ==> (rows + [row])[k] == rows[k];
  }

  /** A frame's lateral value is the offset plus a non-negative distance. */
  lemma StepAboveOffset(lane: Option<Point>, frame: int, s: Session, prev: Option<Point>)
    requires DistanceNonNegative(s)
    ensures var r := FrameStep(lane, frame, s, prev);
      r.Ok? && r.value.row.Lateral? ==> r.value.row.cm >= s.cfg.wheelOffsetCm
  {
    if lane.Some? {
      var w, l := s.toWorld(Point(s.wheelX, s.wheelY)), s.toWorld(lane.value);
      if w.Ok? && l.Ok? {
        assert s.distance(w.value, l.value) >= 0.0;
      }
    }
  }

  /** A wheel point the homography sends to infinity: the first frame with
      a detection raises ValueError, so no lateral value is ever written. */
  lemma {:induction false} UnmappableWheel(masks: seq<Mask>, n: nat, wheelX: nat, wheelY: nat, H: seq<seq<real>>, cfg: Config, distance: (Vec2, Vec2) -> real)
    requires n <= |masks| && Is3x3(H)
    requires Row(H, ToVec(Point(wheelX, wheelY)), 2) == 0.0
    ensures var o := RunFrames(masks, n, ScriptSession(wheelX, wheelY, H, cfg, distance));
      && (forall k :: 0 <= k < |o.rows| ==> o.rows[k].Missing?)
      && (o.failure.Some? ==> o.failure.value == ValueError)
  {
    if n > 0 {
      UnmappableWheel(masks, n - 1, wheelX, wheelY, H, cfg, distance);
    }
  }

  /** Every row is a NaN exactly when no lateral value was collected. */
  lemma {:induction false} NoLateralsIffAllMissing(rows: seq<FrameRow>)
    ensures |Laterals(rows)| == 0 <==> forall k :: 0 <= k < |rows| ==> rows[k].Missing?
  {
    if |rows| > 0 {
      var init := rows[..|rows| - 1];
      NoLateralsIffAllMissing(init);
      assert forall k :: 0 <= k < |init| ==> init[k] == rows[k];
    }
  }

  // ---------------------------------------------------------------------
  // The summary

  /** What the summary block reports: the counts, the denominator, whether
      the statistics are printed, and whether the standard deviation is. */
  datatype Summary = Summary(framesValid: nat, framesNaN: nat, framesTotal: nat, showsStatistics: bool, showsSD: bool)

  /** Lines 252-270 for `len(all_distances) == valid` and `nan_count == nan`. */
  function Summarize(valid: nat, nan: nat): (r: Summary)
    ensures r.framesValid == valid && r.framesNaN == nan
    ensures r.framesTotal >= 1 && valid <= r.framesTotal && nan <= r.framesTotal
    ensures valid + nan > 0 ==> r.framesTotal == valid + nan
    ensures valid + nan == 0 ==> r.framesTotal == 1
    ensures r.showsStatistics <==> valid > 0
    ensures r.showsSD <==> valid >= 2
    ensures r.showsSD ==> r.showsStatistics
  {
    Summary(valid, nan, if valid + nan > 0 then valid + nan else 1, valid > 0, valid > 1)
  }

  /** After a loop that met no exception the denominator is the number of
      frames read after the click (1 for none), and statistics are printed
      exactly when some frame had a detection. */
  lemma SummaryOfRun(masks: seq<Mask>, s: Session)
    requires RunFrames(masks, |masks|, s).failure.None?
    ensures var rows := RunFrames(masks, |masks|, s).rows;
      var r := Summarize(|Laterals(rows)|, CountMissing(rows));
      && r.framesTotal == Max(1, |masks|)
      && (r.showsStatistics <==> exists k :: 0 <= k < |rows| && rows[k].Lateral?)
  {
    var rows := RunFrames(masks, |masks|, s).rows;
    RowsFollowFrames(masks, |masks|, s);
    LateralsPlusMissing(rows);
    NoLateralsIffAllMissing(rows);
  }

  // ---------------------------------------------------------------------
  // The homography file

  /** A parsed JSON document. */
  datatype Json =
    | JNull
    | JBool(b: bool)
    | JNumber(num: real)
    | JString(str: string)
    | JArray(items: seq<Json>)
    | JObject(fields: map<string, Json>)

  /** Python truthiness of the parsed value, as `or` tests it. */
  predicate Truthy(v: Json)
  {
    match v
    case JNull => false
    case JBool(b) => b
    case JNumber(x) => x != 0.0
    case JString(t) => |t| > 0
    case JArray(a) => |a| > 0
    case JObject(m) => |m| > 0
  }

  /** `dict.get(key)`: the value, or None for a missing key. */
  function Get(fields: map<string, Json>, key: string): (v: Json)
    ensures key in fields ==> v == fields[key]
    ensures key !in fields ==> v == JNull
  {
    if key in fields then fields[key] else JNull
  }

  /** A matrix entry numpy converts to float: a number, or a boolean as 1
      or 0. */
  function Scalar(v: Json): (x: Option<real>)
    ensures x.Some? <==> v.JNumber? || v.JBool?
    ensures v.JNumber? ==> x == Some(v.num)
  {
    match v
    case JNumber(n) => Some(n)
    case JBool(b) => Some(if b then 1.0 else 0.0)
    case _ => None
  }

  predicate IsNumericRow(v: Json)
  {
    v.JArray? && |v.items| == 3 && forall j :: 0 <= j < 3 ==> Scalar(v.items[j]).Some?
  }

  predicate IsMatrixJson(v: Json)
  {
    v.JArray? && |v.items| == 3 && forall i :: 0 <= i < 3 ==> IsNumericRow(v.items[i])
  }

  /** `np.array(H_list, dtype=np.float32)` followed by the shape check of
      lines 122-123: a 3×3 array of numbers is the matrix; a dictionary
      cannot be converted (TypeError); anything else is refused as not 3×3
      (RuntimeError). */
  function ToMatrix(v: Json): (r: Result<seq<seq<real>>, Error>)
    ensures r.Ok? <==> IsMatrixJson(v)
    ensures r.Ok? ==> Is3x3(r.value)
    ensures r.Ok? ==> forall i, j :: 0 <= i < 3 && 0 <= j < 3 ==> Some(r.value[i][j]) == Scalar(v.items[i].items[j])
    ensures r.Err? ==> r.error == (if v.JObject? then TypeError else RuntimeError)
  {
    if v.JObject? then Err(TypeError)
    else if IsMatrixJson(v) then
      Ok(seq(3, i requires 0 <= i < 3 => seq(3, j requires 0 <= j < 3 => Scalar(v.items[i].items[j]).value)))
    else Err(RuntimeError)
  }

  /** How a 3×3 matrix is written to the homography file: a list of three
      lists of three numbers. */
  function MatrixToJson(H: seq<seq<real>>): (v: Json)
    requires Is3x3(H)
    ensures IsMatrixJson(v)
  {
    JArray(seq(3, i requires 0 <= i < 3 => JArray(seq(3, j requires 0 <= j < 3 => JNumber(H[i][j])))))
  }

  /** Reading back a written matrix gives the same matrix. */
  lemma MatrixRoundTrip(H: seq<seq<real>>)
    requires Is3x3(H)
    ensures ToMatrix(MatrixToJson(H)) == Ok(H)
  {
    var v := MatrixToJson(H);
    var M := ToMatrix(v).value;
    forall i | 0 <= i < 3
      ensures M[i] == H[i]
    {
      forall j | 0 <= j < 3
        ensures M[i][j] == H[i][j]
      {
        assert Some(M[i][j]) == Scalar(v.items[i].items[j]) == Some(H[i][j]);
      }
    }
    assert M == H;
  }

  /** Lines 120-123 as written: `data.get(...)` needs a dictionary (any
      other document raises AttributeError); the candidate is the first
      truthy of `homography_matrix` and `H`, or else the whole document. */
  function LoadHomography(doc: Json): (r: Result<seq<seq<real>>, Error>)
    ensures r.Ok? ==> Is3x3(r.value)
    ensures !doc.JObject? ==> r == Err(AttributeError)
  {
    match doc
    case JObject(fields) =>
      var a, h := Get(fields, "homography_matrix"), Get(fields, "H");
      ToMatrix(if Truthy(a) then a else if Truthy(h) then h else doc)
    case _ => Err(AttributeError)
  }

  /** `homography_matrix` is tried first: when it holds a matrix, `H` is
      never looked at. */
  lemma HomographyKeyFirst(fields: map<string, Json>, H: seq<seq<real>>, other: Json)
    requires Is3x3(H) && "homography_matrix" in fields && fields["homography_matrix"] == MatrixToJson(H)
    ensures LoadHomography(JObject(fields)) == Ok(H)
    ensures LoadHomography(JObject(fields["H" := other])) == Ok(H)
  {
    MatrixRoundTrip(H);
    assert Truthy(MatrixToJson(H));
    var fields' := fields["H" := other];
    assert Get(fields', "homography_matrix") == MatrixToJson(H);
  }

  /** A missing or falsy `homography_matrix` falls through to `H`. */
  lemma FallsThroughToH(fields: map<string, Json>, H: seq<seq<real>>)
    requires Is3x3(H) && !Truthy(Get(fields, "homography_matrix"))
    requires "H" in fields && fields["H"] == MatrixToJson(H)
    ensures LoadHomography(JObject(fields)) == Ok(H)
  {
    MatrixRoundTrip(H);
    assert Truthy(MatrixToJson(H));
  }

  /** The last fallback, the whole document, is a dictionary by then, so it
      never yields a matrix: with neither key truthy the load raises
      TypeError. */
  lemma WholeDocumentFallbackFails(fields: map<string, Json>)
    requires !Truthy(Get(fields, "homography_matrix")) && !Truthy(Get(fields, "H"))
    ensures LoadHomography(JObject(fields)) == Err(TypeError)
  {
  }

  /** The evidently intended lookup: a document that is itself the matrix is
      used as the matrix; dictionaries are searched as before. */
  function LoadHomographyCorrected(doc: Json): (r: Result<seq<seq<real>>, Error>)
    ensures r.Ok? ==> Is3x3(r.value)
    ensures doc.JObject? ==> r == LoadHomography(doc)
    ensures !doc.JObject? ==> r == ToMatrix(doc)
  {
    match doc
    case JObject(_) => LoadHomography(doc)
    case _ => ToMatrix(doc)
  }

  /** A file holding only the matrix: refused as written, read back by the
      corrected lookup. */
  lemma BareMatrixDocument(H: seq<seq<real>>)
    requires Is3x3(H)
    ensures LoadHomography(MatrixToJson(H)) == Err(AttributeError)
    ensures LoadHomographyCorrected(MatrixToJson(H)) == Ok(H)
  {
    MatrixRoundTrip(H);
  }
}
