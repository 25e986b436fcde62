/**
 * The hybrid detect/track scheduler of core/frame_tracker.py (`FrameTracker`
 * and `TrackedFace`). One call of `ProcessFrame` is one `process_frame`:
 * the frame counter decides between a detection pass (reconcile live tracks
 * with fresh detections by IoU) and a tracking pass (ask every tracker to
 * follow its face, evicting the ones that fail), and whether the recognizer
 * runs on the live tracks.
 *
 * Everything the frame itself would be asked is an input of `Frame`: the
 * detector's output, each tracker's reading, and the recognizer's answer for
 * an aligned face or for a crop.
 */
module FrameTracking {
  import opened Options
  import opened Geometry
  import Recognizer
  import TemplateTracking

  const MatchIoU: real := 0.3
  const RecognitionCropPad: int := 10

  /** Constructor parameters. `nativeTracker` says whether the OpenCV build
      offers the KCF tracker; otherwise every track uses the template
      tracker. */
  datatype Config = Config(
    detectionInterval: int,
    recognitionInterval: int,
    maxTrackingFailures: int,
    nativeTracker: bool)

  predicate ValidConfig(c: Config)
  {
    c.detectionInterval != 0 && c.recognitionInterval != 0
  }

  datatype Tracker = NoTracker | Native | Template(t: TemplateTracking.TemplateTracker)

  /** One tracked face: its id, current box, the detection its landmarks
      came from, its tracker, the cached recognition result, the frame of
      its last detection and its count of consecutive tracking failures. */
  datatype TrackedFace = TrackedFace(
    faceId: int,
    box: Box,
    faceData: Detection,
    tracker: Tracker,
    result: Option<Recognizer.Classification>,
    lastDetectedFrame: int,
    trackingFailures: int)

  /** What a track's tracker reports on this frame: the KCF tracker's
      answer (`None` when it fails or raises) and the template correlation. */
  datatype TrackerReading = TrackerReading(
    native: Option<Box>,
    correlation: TemplateTracking.Correlation)

  /** One camera frame, described by what the collaborators report on it. */
  datatype Frame = Frame(
    width: nat,
    height: nat,
    detections: seq<Detection>,
    readings: int -> TrackerReading,
    aligned: Detection -> Recognizer.Classification,
    cropped: Box -> Recognizer.Classification)

  datatype FrameTracker = FrameTracker(frameCount: int, faces: seq<TrackedFace>, nextFaceId: int)

  /** One entry of `process_frame`'s output list. */
  datatype TrackOutput = TrackOutput(
    box: Box,
    faceId: int,
    studentId: Option<string>,
    status: Recognizer.Status,
    confidence: real,
    name: string,
    isTracked: bool)

  /** The new tracker state, the output, and which passes ran. */
  datatype Step = Step(tracker: FrameTracker, output: seq<TrackOutput>, detected: bool, recognized: bool)

  // ---------------------------------------------------------------- ids

  function IdSet(fs: seq<TrackedFace>): set<int>
  {
    set i | 0 <= i < |fs| :: fs[i].faceId
  }

  ghost predicate IdsIncreasing(fs: seq<TrackedFace>)
  {
    forall i, j :: 0 <= i < j < |fs| ==> fs[i].faceId < fs[j].faceId
  }

  /** The tracker invariant: ids are issued in increasing order and all lie
      below `nextFaceId`, and every live track has a zero failure count. */
  ghost predicate Valid(s: FrameTracker)
  {
    && s.frameCount >= 0
    && s.nextFaceId >= 0
    && IdsIncreasing(s.faces)
    && (forall i :: 0 <= i < |s.faces| ==> 0 <= s.faces[i].faceId < s.nextFaceId)
    && NoFailures(s.faces)
  }

  ghost predicate NoFailures(fs: seq<TrackedFace>)
  {
    forall i :: 0 <= i < |fs| ==> fs[i].trackingFailures == 0
  }

  // ------------------------------------------------------------ trackers

  /** `init_tracker`: KCF when available, else the template tracker (whose
      `init` may fail, leaving it without a template). */
  function InitTracker(f: TrackedFace, width: nat, height: nat, native: bool): (r: TrackedFace)
    ensures r == f.(tracker := r.tracker)
    ensures native <==> r.tracker == Native
    ensures !native ==> r.tracker == Template(TemplateTracking.Init(f.box, width, height).1)
  {
    if native then f.(tracker := Native)
    else f.(tracker := Template(TemplateTracking.Init(f.box, width, height).1))
  }

  /** `update_tracker`: a success moves the box and clears the failure
      count; a failure adds one to it; without a tracker nothing changes. */
  function UpdateTracker(f: TrackedFace, reading: TrackerReading, width: nat, height: nat)
    : (r: (bool, TrackedFace))
    ensures r.1.faceId == f.faceId && r.1.faceData == f.faceData && r.1.result == f.result
    ensures r.1.lastDetectedFrame == f.lastDetectedFrame
    ensures r.0 ==> r.1.trackingFailures == 0
    ensures !r.0 && f.tracker != NoTracker ==> r.1 == f.(trackingFailures := f.trackingFailures + 1)
    ensures f.tracker == NoTracker ==> r == (false, f)
    ensures f.tracker == Native ==> (r.0 <==> reading.native.Some?)
    ensures r.0 && f.tracker == Native ==> r.1.box == reading.native.value
    ensures f.tracker.Template? ==>
      var u := TemplateTracking.Update(f.tracker.t, width, height, reading.correlation);
      r.0 == u.0 && (u.0 ==> r.1.box == u.1.bbox && r.1.tracker == Template(u.1))
  {
    match f.tracker
    case NoTracker => (false, f)
    case Native =>
      (match reading.native
       case Some(b) => (true, f.(box := b, trackingFailures := 0))
       case None => (false, f.(trackingFailures := f.trackingFailures + 1)))
    case Template(t) =>
      var u := TemplateTracking.Update(t, width, height, reading.correlation);
      if u.0 then (true, f.(tracker := Template(u.1), box := u.1.bbox, trackingFailures := 0))
      else (false, f.(trackingFailures := f.trackingFailures + 1))
  }

  // ----------------------------------------------------- detection pass

  /** The inner loop of `_run_detection` over detections `[0, n)`: the
      first detection, not yet taken, whose IoU with `b` exceeds both 0.3
      and every earlier candidate. Returns the IoU and index, or
      `(0.0, -1)` when there is none. */
  function BestDetection(b: Box, dets: seq<Detection>, used: set<int>, n: nat): (r: (real, int))
    requires n <= |dets|
    ensures -1 <= r.1 < n
    ensures r.1 == -1 ==> r.0 == 0.0
    ensures r.1 >= 0 ==> r.1 !in used
  {
    if n == 0 then (0.0, -1)
    else
      var prev := BestDetection(b, dets, used, n - 1);
      var iou := IoU(b, dets[n - 1].box);
      if n - 1 !in used && iou > prev.0 && iou > MatchIoU then (iou, n - 1) else prev
  }

  /** `r` is the outcome the loop over detections `[0, n)` promises: no
      index exactly when no free detection overlaps `b` by more than
      MatchIoU; otherwise a free detection above MatchIoU, carrying its own
      IoU, that no free detection beats and no earlier free one reaches. */
  ghost predicate BestAmong(b: Box, dets: seq<Detection>, used: set<int>, n: nat, r: (real, int))
    requires n <= |dets|
  {
    && -1 <= r.1 < n
    && (r.1 == -1 <==> forall k :: 0 <= k < n && k !in used ==> IoU(b, dets[k].box) <= MatchIoU)
    && (0 <= r.1 < n ==>
          && r.1 !in used && r.0 == IoU(b, dets[r.1].box) && r.0 > MatchIoU
          && (forall k :: 0 <= k < n && k !in used ==> IoU(b, dets[k].box) <= r.0)
          && (forall k :: 0 <= k < n && k < r.1 && k !in used ==> IoU(b, dets[k].box) < r.0))
  }

  /** The detections taken by the non-negative entries of an assignment. */
  function Used(a: seq<int>): set<int>
  {
    set j | 0 <= j < |a| && a[j] >= 0 :: a[j]
  }

  /** The outer loop of `_run_detection` over the first n tracks, in
      insertion order: each track takes its best free detection, or -1. */
  function Assign(faces: seq<TrackedFace>, dets: seq<Detection>, n: nat): (a: seq<int>)
    requires n <= |faces|
    ensures |a| == n
    ensures forall i :: 0 <= i < n ==> -1 <= a[i] < |dets|
    decreases n
  {
    if n == 0 then []
    else
      var prev := Assign(faces, dets, n - 1);
      prev + [BestDetection(faces[n - 1].box, dets, Used(prev), |dets|).1]
  }

  /** A matched track after `_run_detection`: new box and landmarks, last
      detection frame set, tracker re-initialised; its cached result and
      failure count are kept. */
  function Rebind(f: TrackedFace, d: Detection, frameNo: int, width: nat, height: nat, native: bool)
    : (r: TrackedFace)
    ensures r.faceId == f.faceId && r.box == d.box && r.faceData == d
    ensures r.result == f.result && r.trackingFailures == f.trackingFailures
    ensures r.lastDetectedFrame == frameNo
  {
    InitTracker(f.(box := d.box, faceData := d, lastDetectedFrame := frameNo), width, height, native)
  }

  /** The matched tracks, in their old order. */
  function Kept(faces: seq<TrackedFace>, a: seq<int>, dets: seq<Detection>,
                frameNo: int, width: nat, height: nat, native: bool): (r: seq<TrackedFace>)
    requires |a| == |faces|
    requires forall i :: 0 <= i < |a| ==> a[i] < |dets|
    ensures |r| <= |faces|
    ensures forall k :: 0 <= k < |r| ==> r[k].lastDetectedFrame == frameNo
    decreases |faces|
  {
    if faces == [] then []
    else
      (if a[0] >= 0 then [Rebind(faces[0], dets[a[0]], frameNo, width, height, native)] else []) +
      Kept(faces[1..], a[1..], dets, frameNo, width, height, native)
  }

  /** Every track of `fs` sits on one of the detections `dets`. */
  ghost predicate OnDetections(fs: seq<TrackedFace>, dets: seq<Detection>)
  {
    forall k :: 0 <= k < |fs| ==> fs[k].faceData in dets && fs[k].box == fs[k].faceData.box
  }

  /** A freshly detected face. */
  function NewFace(d: Detection, id: int, frameNo: int, width: nat, height: nat, native: bool)
    : (r: TrackedFace)
    ensures r.faceId == id && r.box == d.box && r.faceData == d
    ensures r.result == None && r.trackingFailures == 0 && r.lastDetectedFrame == frameNo
  {
    InitTracker(TrackedFace(id, d.box, d, NoTracker, None, frameNo, 0), width, height, native)
  }

  /** New tracks for the untaken detections `[k, |dets|)`, in detection
      order, with consecutive ids from `id`. */
  function Fresh(dets: seq<Detection>, used: set<int>, k: nat, id: int,
                 frameNo: int, width: nat, height: nat, native: bool): (r: seq<TrackedFace>)
    requires k <= |dets|
    ensures |r| <= |dets| - k
    ensures forall i :: 0 <= i < |r| ==> r[i].faceId == id + i
    ensures forall i :: 0 <= i < |r| ==>
      r[i].result == None && r[i].trackingFailures == 0 && r[i].lastDetectedFrame == frameNo
    decreases |dets| - k
  {
    if k == |dets| then []
    else if k in used then Fresh(dets, used, k + 1, id, frameNo, width, height, native)
    else
      var rest := Fresh(dets, used, k + 1, id + 1, frameNo, width, height, native);
      var r := [NewFace(dets[k], id, frameNo, width, height, native)] + rest;
      assert forall i :: 1 <= i < |r| ==> r[i] == rest[i - 1];
      r
  }

  /** The detections in `[k, |dets|)` no track took, in detection order. */
  function Untaken(dets: seq<Detection>, used: set<int>, k: nat): (r: seq<Detection>)
    requires k <= |dets|
    ensures |r| <= |dets| - k
    decreases |dets| - k
  {
    if k == |dets| then []
    else if k in used then Untaken(dets, used, k + 1)
    else [dets[k]] + Untaken(dets, used, k + 1)
  }

  /** `_run_detection`: the live set becomes the matched old tracks, in
      their old order, followed by one new track per untaken detection. */
  function DetectionPass(s: FrameTracker, frame: Frame, frameNo: int, native: bool): (r: FrameTracker)
    ensures r.frameCount == s.frameCount
    ensures r.nextFaceId >= s.nextFaceId
    ensures forall k :: 0 <= k < |r.faces| ==> r.faces[k].lastDetectedFrame == frameNo
  {
    var dets := frame.detections;
    var a := Assign(s.faces, dets, |s.faces|);
    var kept := Kept(s.faces, a, dets, frameNo, frame.width, frame.height, native);
    var added := Fresh(dets, Used(a), 0, s.nextFaceId, frameNo, frame.width, frame.height, native);
    FrameTracker(s.frameCount, kept + added, s.nextFaceId + |added|)
  }

  /** No id is handed out twice: every track of `after` is a track of
      `before` or has an id at or above `before`'s counter, and the counter
      never goes back. */
  ghost predicate NoReuse(before: FrameTracker, after: FrameTracker)
  {
    Unused(IdSet(before.faces), before.nextFaceId, after)
  }

  /** Every track of `after` has an id from `ids` or one at or above
      `next`, and the counter of `after` has not gone below `next`. */
  ghost predicate Unused(ids: set<int>, next: int, after: FrameTracker)
  {
    && after.nextFaceId >= next
    && forall k :: 0 <= k < |after.faces| ==> after.faces[k].faceId in ids || after.faces[k].faceId >= next
  }

  // ------------------------------------------------------ tracking pass

  /** Whether a track survives `_run_tracking`: its tracker update must
      succeed and its failure count must then be below the limit. */
  predicate Survives(f: TrackedFace, frame: Frame, maxFailures: int)
  {
    var u := UpdateTracker(f, frame.readings(f.faceId), frame.width, frame.height);
    u.0 && u.1.trackingFailures < maxFailures
  }

  /** `_run_tracking`: every tracker is updated and the tracks that do not
      survive are removed, the rest keeping their order. */
  function Track(fs: seq<TrackedFace>, frame: Frame, maxFailures: int): (r: seq<TrackedFace>)
    ensures |r| <= |fs|
    ensures forall k :: 0 <= k < |r| ==> r[k].trackingFailures == 0
    decreases |fs|
  {
    if fs == [] then []
    else
      var u := UpdateTracker(fs[0], frame.readings(fs[0].faceId), frame.width, frame.height);
      var rest := Track(fs[1..], frame, maxFailures);
      if !u.0 || u.1.trackingFailures >= maxFailures then rest
      else
        assert forall k :: 1 <= k < |rest| + 1 ==> ([u.1] + rest)[k] == rest[k - 1];
        [u.1] + rest
  }

  // --------------------------------------------------- recognition pass

  /** The padded crop `_run_recognition` cuts in tracking mode. */
  function CropRect(b: Box, width: nat, height: nat): Box
  {
    PaddedCrop(b, RecognitionCropPad, RecognitionCropPad, width, height)
  }

  /** One track in `_run_recognition`: with landmarks the recognizer sees
      the aligned detection; without, the padded crop, and only when the
      crop is non-empty. Nothing but the cached result changes. */
  function RecognizeFace(f: TrackedFace, frame: Frame, useLandmarks: bool): (r: TrackedFace)
    ensures r == f.(result := r.result)
    ensures useLandmarks ==> r.result == Some(frame.aligned(f.faceData))
    ensures !useLandmarks ==>
      var c := CropRect(f.box, frame.width, frame.height);
      r.result == (if c.w > 0 && c.h > 0 then Some(frame.cropped(c)) else f.result)
  {
    if useLandmarks then f.(result := Some(frame.aligned(f.faceData)))
    else
      var c := CropRect(f.box, frame.width, frame.height);
      if c.w > 0 && c.h > 0 then f.(result := Some(frame.cropped(c))) else f
  }

  /** `_run_recognition` over the live tracks, in order. */
  function RecognitionPass(fs: seq<TrackedFace>, frame: Frame, useLandmarks: bool): (r: seq<TrackedFace>)
    ensures |r| == |fs|
    ensures forall i :: 0 <= i < |r| ==> r[i] == RecognizeFace(fs[i], frame, useLandmarks)
  {
    seq(|fs|, i requires 0 <= i < |fs| => RecognizeFace(fs[i], frame, useLandmarks))
  }

  // ------------------------------------------------------ process_frame

  const Placeholder: string := "Processing..."

  /** One output entry: a track with a cached result reports it, with the
      student's name when the details have one; otherwise a placeholder. */
  function Report(f: TrackedFace, isTracked: bool): (o: TrackOutput)
    ensures o.box == f.box && o.faceId == f.faceId && o.isTracked == isTracked
    ensures f.result.None? ==> o.studentId == None && o.status == Recognizer.Unknown && o.confidence == 0.0 && o.name == Placeholder
    ensures f.result.Some? ==>
      && o.studentId == f.result.value.id && o.status == f.result.value.status
      && o.confidence == f.result.value.confidence
      && o.name == (if "name" in f.result.value.info then f.result.value.info["name"] else "Unknown")
  {
    match f.result
    case None => TrackOutput(f.box, f.faceId, None, Recognizer.Unknown, 0.0, Placeholder, isTracked)
    case Some(c) =>
      TrackOutput(f.box, f.faceId, c.id, c.status, c.confidence,
                  if "name" in c.info then c.info["name"] else "Unknown", isTracked)
  }

  /** `process_frame`. */
  function ProcessFrame(cfg: Config, s: FrameTracker, frame: Frame): (r: Step)
    requires ValidConfig(cfg)
    ensures r.tracker.frameCount == s.frameCount + 1
    ensures r.detected <==> (s.frameCount + 1) % cfg.detectionInterval == 0 || |s.faces| == 0
    ensures r.recognized <==> r.detected || (s.frameCount + 1) % cfg.recognitionInterval == 0
    ensures |r.output| == |r.tracker.faces|
    ensures forall i :: 0 <= i < |r.output| ==> r.output[i] == Report(r.tracker.faces[i], !r.detected)
    ensures r.detected ==>
      r.tracker.faces ==
        RecognitionPass(DetectionPass(s.(frameCount := s.frameCount + 1), frame, s.frameCount + 1, cfg.nativeTracker).faces,
                        frame, true)
    ensures !r.detected ==>
      var t := Track(s.faces, frame, cfg.maxTrackingFailures);
      && r.tracker.nextFaceId == s.nextFaceId
      && r.tracker.faces == (if r.recognized then RecognitionPass(t, frame, false) else t)
  {
    var fc := s.frameCount + 1;
    var detect := fc % cfg.detectionInterval == 0 || |s.faces| == 0;
    var recognize := detect || fc % cfg.recognitionInterval == 0;
    var t := Advance(cfg, s, frame);
    Step(t, seq(|t.faces|, i requires 0 <= i < |t.faces| => Report(t.faces[i], !detect)), detect, recognize)
  }

  /** The tracker state `process_frame` leaves behind. */
  function Advance(cfg: Config, s: FrameTracker, frame: Frame): FrameTracker
    requires ValidConfig(cfg)
  {
    var fc := s.frameCount + 1;
    var detect := fc % cfg.detectionInterval == 0 || |s.faces| == 0;
    var recognize := detect || fc % cfg.recognitionInterval == 0;
    var passed := Passed(cfg, s, frame);
    if recognize then passed.(faces := RecognitionPass(passed.faces, frame, detect)) else passed
  }

  /** The tracker state after the detection or the tracking pass. */
  function Passed(cfg: Config, s: FrameTracker, frame: Frame): FrameTracker
    requires ValidConfig(cfg)
  {
    var fc := s.frameCount + 1;
    if fc % cfg.detectionInterval == 0 || |s.faces| == 0 then DetectionPass(s.(frameCount := fc), frame, fc, cfg.nativeTracker)
    else s.(frameCount := fc).(faces := Track(s.faces, frame, cfg.maxTrackingFailures))
  }

  /** `reset`: no tracks, frame counter and id counter back to zero. */
  function Reset(): (r: FrameTracker)
    ensures Valid(r) && r.faces == [] && r.nextFaceId == 0
  {
    FrameTracker(0, [], 0)
  }

  // ------------------------------------------------------------ examples

  /** A detection positioned at a box. */
  function DetectionAt(b: Box): (d: Detection)
    ensures d.box == b
  {
    Detection(b, Point(0.0, 0.0), Point(0.0, 0.0), Point(0.0, 0.0), Point(0.0, 0.0), Point(0.0, 0.0), 1.0)
  }

}
