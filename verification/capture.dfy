/**
 * The enrolment capture state machine of core/capture_manager.py
 * (`CaptureManager`): a session walks through the poses front, left and
 * right; each frame's largest face must pass the quality check and the
 * current pose's yaw gate, and captures are at least a second apart.
 *
 * The detector's faces, the two image statistics, the clock and the
 * outcome of saving the crop are inputs of each frame; creating the
 * student's directory and storing an embedding are left to the caller.
 */
module Capture {
  import opened Options
  import opened Geometry
  import FaceValidation

  datatype Pose = Front | Left | Right

  /** `required_angles` */
  const RequiredOrder: seq<Pose> := [Front, Left, Right]

  const FrontLimit: real := 0.2
  const TurnLimit: real := 0.4
  const CaptureSpacing: real := 1.0

  datatype CaptureState = Waiting | Capturing | Completed

  /** `status_message` values. */
  datatype Message =
    | Ready
    | LookStraightAhead
    | TurnHeadLeft
    | TurnHeadRight
    | AllCapturesComplete
    | LookStraight
    | TurnMoreLeft
    | TurnMoreRight

  /** One capture session: the student, the stored image path per pose, the
      index of the next pose, the time of the last capture, the state and
      the current status message. */
  datatype Session = Session(
    studentId: Option<string>,
    captured: map<Pose, string>,
    idx: nat,
    lastCaptureTime: real,
    state: CaptureState,
    message: Message)

  /** `reset` */
  function Reset(): (s: Session)
    ensures s.state == Waiting && s.idx == 0 && s.captured == map[] && s.lastCaptureTime == 0.0
    ensures s.studentId == None && s.message == Ready
  {
    Session(None, map[], 0, 0.0, Waiting, Ready)
  }

  /** `get_current_target` */
  function CurrentTarget(s: Session): (t: Option<Pose>)
    ensures t.Some? <==> s.idx < |RequiredOrder|
    ensures t.Some? ==> t.value == RequiredOrder[s.idx]
  {
    if s.idx < |RequiredOrder| then Some(RequiredOrder[s.idx]) else None
  }

  function Prompt(p: Pose): Message
  {
    match p
    case Front => LookStraightAhead
    case Left => TurnHeadLeft
    case Right => TurnHeadRight
  }

  /** `update_status`: prompt for the current pose, or finish the session
      when every pose is captured. */
  function UpdateStatus(s: Session): (r: Session)
    ensures r == s.(message := r.message, state := r.state)
    ensures r.state == Completed <==> s.idx >= |RequiredOrder| || s.state == Completed
    ensures s.idx < |RequiredOrder| ==> r.state == s.state && r.message == Prompt(RequiredOrder[s.idx])
    ensures s.idx >= |RequiredOrder| ==> r.message == AllCapturesComplete
  {
    match CurrentTarget(s)
    case Some(p) => s.(message := Prompt(p))
    case None => s.(message := AllCapturesComplete, state := Completed)
  }

  /** `start_session`: a fresh session capturing the front pose. */
  function StartSession(id: string): (s: Session)
    ensures s.state == Capturing && s.idx == 0 && CurrentTarget(s) == Some(Front)
    ensures s.studentId == Some(id) && s.captured == map[] && s.lastCaptureTime == 0.0
    ensures s.message == LookStraightAhead
  {
    UpdateStatus(Reset().(studentId := Some(id), state := Capturing))
  }

  /** The yaw gate of each pose (strict comparisons): front inside ±0.2,
      left above 0.4, right below -0.4; the bands between pass no pose. */
  function Gate(p: Pose, yaw: real): (b: bool)
    ensures -FrontLimit < yaw < FrontLimit ==> (b <==> p == Front)
    ensures yaw > TurnLimit ==> (b <==> p == Left)
    ensures yaw < -TurnLimit ==> (b <==> p == Right)
    ensures FrontLimit <= yaw <= TurnLimit || -TurnLimit <= yaw <= -FrontLimit ==> !b
    ensures b && p != Front ==> (p == Left <==> yaw > 0.0)
  {
    match p
    case Front => -FrontLimit < yaw < FrontLimit
    case Left => yaw > TurnLimit
    case Right => yaw < -TurnLimit
  }

  /** The three gates are disjoint: no yaw counts for two poses. */
  lemma GatesDisjoint(p: Pose, q: Pose, yaw: real)
    requires Gate(p, yaw) && Gate(q, yaw)
    ensures p == q
  {
  }

  /** The message shown when the gate of `p` is missed: "Look Straight",
      "Turn MORE Left" or "Turn MORE Right". */
  function Retry(p: Pose): Message
  {
    match p
    case Front => LookStraight
    case Left => TurnMoreLeft
    case Right => TurnMoreRight
  }

  /** The face `max(faces, key=w*h)` picks: the first of largest area. */
  function Largest(faces: seq<Detection>): (i: nat)
    requires faces != []
    ensures i < |faces|
    ensures forall k :: 0 <= k < |faces| ==> faces[k].box.w * faces[k].box.h <= faces[i].box.w * faces[i].box.h
    ensures forall k :: 0 <= k < i ==> faces[k].box.w * faces[k].box.h < faces[i].box.w * faces[i].box.h
    decreases |faces|
  {
    if |faces| == 1 then 0
    else
      var prev := Largest(faces[..|faces| - 1]);
      var last := faces[|faces| - 1].box;
      assert forall k :: 0 <= k < |faces| - 1 ==> faces[..|faces| - 1][k] == faces[k];
      if last.w * last.h > faces[prev].box.w * faces[prev].box.h then |faces| - 1 else prev
  }

  /** The crop saved for a pose: 20% of the width and height as padding
      (`int(w * 0.2)`), clamped to the frame. */
  function CaptureCrop(b: Box, width: nat, height: nat): (r: Box)
    ensures r.x >= 0 && r.y >= 0 && r.w >= 0 && r.h >= 0
    ensures r.w > 0 ==> r.x + r.w <= width
    ensures r.h > 0 ==> r.y + r.h <= height
  {
    PaddedCrop(b, Pad(b.w), Pad(b.h), width, height)
  }

  /** `int(side * 0.2)` */
  function Pad(side: int): int
  {
    Trunc(side as real * 0.2)
  }

  /** For non-negative sizes the padding is a fifth of the side, rounded
      down, and the crop lies in the frame and contains the face. */
  lemma CaptureCropBounds(b: Box, width: nat, height: nat)
    requires b.w > 0 && b.h > 0 && b.x >= 0 && b.y >= 0 && b.x + b.w <= width && b.y + b.h <= height
    ensures Pad(b.w) == b.w / 5 && Pad(b.h) == b.h / 5
    ensures var c := CaptureCrop(b, width, height);
      && c.x == Max(0, b.x - b.w / 5) && c.y == Max(0, b.y - b.h / 5)
      && c.x + c.w == Min(width, b.x + b.w + b.w / 5)
      && c.y + c.h == Min(height, b.y + b.h + b.h / 5)
      && c.x <= b.x && c.y <= b.y && b.x + b.w <= c.x + c.w && b.y + b.h <= c.y + c.h
  {
    FifthIsTrunc(b.w);
    FifthIsTrunc(b.h);
    PaddedCropContains(b, b.w / 5, b.h / 5, width, height);
  }

  lemma FifthIsTrunc(n: int)
    requires n >= 0
    ensures Pad(n) == n / 5
  {
    var q := n / 5;
    assert n == 5 * q + n % 5;
    assert q as real <= n as real * 0.2 < q as real + 1.0;
  }

  /** Everything one call of `process_frame` is given or observes. */
  datatype FrameInput = FrameInput(
    width: nat,
    height: nat,
    faces: seq<Detection>,
    blur: real,
    brightness: real,
    now: real,
    saved: Option<string>)

  /** What `process_frame` reports besides the drawn frame. */
  datatype Reply =
    | Status(message: Message)
    | NoFaceDetected
    | QualityIssues(issues: seq<FaceValidation.Issue>)

  /** The new session, the reply, the progress value, and the rectangle
      handed to storage when a capture was attempted. */
  datatype CaptureStep = CaptureStep(session: Session, reply: Reply, progress: real, crop: Option<Box>)

  function Progress(idx: nat): real
  {
    idx as real / 3.0
  }

  /** Whether this frame advances the session: a target is pending, the
      largest face passes the quality check and the target's gate, the last
      capture is more than a second ago, and the save succeeds. */
  predicate Advances(s: Session, f: FrameInput)
  {
    && s.state == Capturing
    && f.faces != []
    && var face := f.faces[Largest(f.faces)];
    && FaceValidation.CheckQuality(face.box, f.width, f.height, f.blur, f.brightness).0
    && CurrentTarget(s).Some?
    && Gate(CurrentTarget(s).value, FaceValidation.CalculatePose(face))
    && f.now - s.lastCaptureTime > CaptureSpacing
    && f.saved.Some?
  }

  /** `process_frame` */
  function ProcessFrame(s: Session, f: FrameInput): (r: CaptureStep)
    ensures s.state != Capturing ==> r == CaptureStep(s, Status(s.message), 1.0, None)
    ensures s.state == Capturing && f.faces == [] ==> r == CaptureStep(s, NoFaceDetected, Progress(s.idx), None)
    ensures s.state == Capturing && f.faces != [] ==>
      var q := FaceValidation.CheckQuality(f.faces[Largest(f.faces)].box, f.width, f.height, f.blur, f.brightness);
      !q.0 ==> r == CaptureStep(s, QualityIssues(q.1), Progress(s.idx), None)
    ensures Advances(s, f) ==>
      var p := CurrentTarget(s).value;
      && r.session == UpdateStatus(s.(captured := s.captured[p := f.saved.value], idx := s.idx + 1,
                                      lastCaptureTime := f.now))
      && r.crop == Some(CaptureCrop(f.faces[Largest(f.faces)].box, f.width, f.height))
    ensures !Advances(s, f) ==>
      && r.session.idx == s.idx && r.session.captured == s.captured
      && r.session.lastCaptureTime == s.lastCaptureTime && r.session.state == s.state
      && r.session.studentId == s.studentId
    ensures s.state == Capturing ==> r.progress == Progress(r.session.idx)
    ensures s.state == Capturing && f.faces != [] && CurrentTarget(s).Some? &&
            !Gate(CurrentTarget(s).value, FaceValidation.CalculatePose(f.faces[Largest(f.faces)])) ==>
      r.session.idx == s.idx
    ensures s.state == Capturing && f.faces != [] &&
            FaceValidation.CheckQuality(f.faces[Largest(f.faces)].box, f.width, f.height, f.blur, f.brightness).0 ==>
      r.reply == Status(r.session.message)
    ensures s.state == Capturing && f.faces != [] &&
            FaceValidation.CheckQuality(f.faces[Largest(f.faces)].box, f.width, f.height, f.blur, f.brightness).0 &&
            CurrentTarget(s).Some? &&
            !Gate(CurrentTarget(s).value, FaceValidation.CalculatePose(f.faces[Largest(f.faces)])) ==>
      r.session == s.(message := Retry(CurrentTarget(s).value))
    ensures s.state == Capturing && f.faces != [] &&
            FaceValidation.CheckQuality(f.faces[Largest(f.faces)].box, f.width, f.height, f.blur, f.brightness).0 &&
            !Advances(s, f) &&
            (CurrentTarget(s).None? || Gate(CurrentTarget(s).value, FaceValidation.CalculatePose(f.faces[Largest(f.faces)]))) ==>
      r.session == s
  {
    if s.state != Capturing then CaptureStep(s, Status(s.message), 1.0, None)
    else if f.faces == [] then CaptureStep(s, NoFaceDetected, Progress(s.idx), None)
    else
      var face := f.faces[Largest(f.faces)];
      var q := FaceValidation.CheckQuality(face.box, f.width, f.height, f.blur, f.brightness);
      if !q.0 then CaptureStep(s, QualityIssues(q.1), Progress(s.idx), None)
      else
        var yaw := FaceValidation.CalculatePose(face);
        match CurrentTarget(s)
        case None => CaptureStep(s, Status(s.message), Progress(s.idx), None)
        case Some(p) =>
          if !Gate(p, yaw) then
            var t := s.(message := Retry(p));
            CaptureStep(t, Status(t.message), Progress(t.idx), None)
          else if f.now - s.lastCaptureTime <= CaptureSpacing then
            CaptureStep(s, Status(s.message), Progress(s.idx), None)
          else
            var crop := Some(CaptureCrop(face.box, f.width, f.height));
            match f.saved
            case None => CaptureStep(s, Status(s.message), Progress(s.idx), crop)
            case Some(path) =>
              var t := UpdateStatus(s.(captured := s.captured[p := path], idx := s.idx + 1, lastCaptureTime := f.now));
              CaptureStep(t, Status(t.message), Progress(t.idx), crop)
  }

  // ----------------------------------------------------------- invariant

  /** The session invariant: the index counts the captured poses, which are
      exactly the first `idx` required ones; waiting means nothing captured,
      capturing means a pose is pending, completed means none is. */
  ghost predicate Valid(s: Session)
  {
    && s.idx <= |RequiredOrder|
    && s.captured.Keys == (set k | 0 <= k < s.idx :: RequiredOrder[k])
    && (s.state == Waiting ==> s.idx == 0)
    && (s.state == Capturing ==> s.idx < |RequiredOrder|)
    && (s.state == Completed ==> s.idx == |RequiredOrder|)
  }

  lemma ResetValid()
    ensures Valid(Reset()) && Valid(StartSession(""))
  {
  }

  lemma StartSessionValid(id: string)
    ensures Valid(StartSession(id))
  {
  }

  /** The poses captured after one more step of the index. */
  lemma KeysStep(idx: nat)
    requires idx < |RequiredOrder|
    ensures (set k | 0 <= k < idx + 1 :: RequiredOrder[k]) ==
            (set k | 0 <= k < idx :: RequiredOrder[k]) + {RequiredOrder[idx]}
  {
  }

  /** `process_frame` keeps the invariant, so progress stays in [0, 1]
      and the index never passes the number of poses. */
  lemma ProcessFrameValid(s: Session, f: FrameInput)
    requires Valid(s)
    ensures Valid(ProcessFrame(s, f).session)
    ensures 0.0 <= ProcessFrame(s, f).progress <= 1.0
  {
    var r := ProcessFrame(s, f);
    if Advances(s, f) {
      KeysStep(s.idx);
    }
  }

  /** A face that passes every check for pose `p` at time `now`. */
  predicate GoodFor(f: FrameInput, p: Pose, last: real)
  {
    && f.faces != []
    && var face := f.faces[Largest(f.faces)];
    && FaceValidation.CheckQuality(face.box, f.width, f.height, f.blur, f.brightness).0
    && Gate(p, FaceValidation.CalculatePose(face))
    && f.now - last > CaptureSpacing
    && f.saved.Some?
  }

  /** Three good frames, for front, left and right in that order and more
      than a second apart, complete a session with all three poses
      stored. */
  lemma FullSessionCompletes(id: string, a: FrameInput, b: FrameInput, c: FrameInput)
    requires GoodFor(a, Front, 0.0) && GoodFor(b, Left, a.now) && GoodFor(c, Right, b.now)
    ensures var s1 := ProcessFrame(StartSession(id), a).session;
      var s2 := ProcessFrame(s1, b).session;
      var s3 := ProcessFrame(s2, c).session;
      && s1.idx == 1 && s2.idx == 2
      && s3.state == Completed && s3.idx == 3 && s3.message == AllCapturesComplete
      && s3.captured == map[Front := a.saved.value, Left := b.saved.value, Right := c.saved.value]
  {
    var s0 := StartSession(id);
    assert Advances(s0, a);
    var s1 := ProcessFrame(s0, a).session;
    assert s1.state == Capturing && CurrentTarget(s1) == Some(Left);
    assert Advances(s1, b);
    var s2 := ProcessFrame(s1, b).session;
    assert s2.state == Capturing && CurrentTarget(s2) == Some(Right);
    assert Advances(s2, c);
  }

  /** A face held at another pose's gate never advances the session. */
  lemma WrongPoseStalls(s: Session, f: FrameInput, p: Pose)
    requires s.state == Capturing && f.faces != [] && CurrentTarget(s).Some? && p != CurrentTarget(s).value
    requires Gate(p, FaceValidation.CalculatePose(f.faces[Largest(f.faces)]))
    ensures ProcessFrame(s, f).session.idx == s.idx
  {
    if Gate(CurrentTarget(s).value, FaceValidation.CalculatePose(f.faces[Largest(f.faces)])) {
      GatesDisjoint(p, CurrentTarget(s).value, FaceValidation.CalculatePose(f.faces[Largest(f.faces)]));
    }
  }
}
