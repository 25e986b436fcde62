/**
 * The pose and quality checks of core/face_validator.py (`FaceValidator`).
 * The yaw estimate uses only the x-coordinates of the right eye, left eye
 * and nose; the quality check decides on the box, the frame size and two
 * image statistics of the face region (Laplacian variance and mean
 * brightness), which are inputs here.
 */
module FaceValidation {
  import opened Geometry

  const MinFaceSide: int := 60
  const BlurThreshold: real := 100.0
  const DarkThreshold: real := 40.0
  const BrightThreshold: real := 220.0

  function Abs(r: real): (a: real)
    ensures a >= 0.0 && (a == r || a == -r)
  {
    if r < 0.0 then -r else r
  }

  /** Horizontal distance from the nose to the right eye (landmark 0). */
  function LeftSide(d: Detection): real
  {
    Abs(d.nose.x - d.rightEye.x)
  }

  /** Horizontal distance from the left eye (landmark 1) to the nose. */
  function RightSide(d: Detection): real
  {
    Abs(d.leftEye.x - d.nose.x)
  }

  /** The normalised asymmetry of two distances: 0.0 when both are zero. */
  function YawRatio(left: real, right: real): (y: real)
    requires left >= 0.0 && right >= 0.0
    ensures -1.0 <= y <= 1.0
    ensures left + right == 0.0 ==> y == 0.0
    ensures left + right != 0.0 ==> y * (left + right) == right - left
  {
    var span := left + right;
    if span == 0.0 then 0.0
    else
      UnitRatio(right - left, span);
      (right - left) / span
  }

  lemma UnitRatio(a: real, s: real)
    requires s > 0.0 && -s <= a <= s
    ensures -1.0 <= a / s <= 1.0
  {
    assert a / s * s == a;
  }

  /** `calculate_pose`: positive when the left-eye distance dominates,
      negative when the right-eye one does. */
  function CalculatePose(d: Detection): (y: real)
    ensures -1.0 <= y <= 1.0
    ensures y > 0.0 <==> RightSide(d) > LeftSide(d)
    ensures y < 0.0 <==> RightSide(d) < LeftSide(d)
    ensures y == 0.0 <==> RightSide(d) == LeftSide(d)
  {
    YawSign(LeftSide(d), RightSide(d));
    YawRatio(LeftSide(d), RightSide(d))
  }

  /** The ratio's sign is the sign of `right - left`. */
  lemma YawSign(left: real, right: real)
    requires left >= 0.0 && right >= 0.0
    ensures YawRatio(left, right) > 0.0 <==> right > left
    ensures YawRatio(left, right) < 0.0 <==> right < left
  {
    var span := left + right;
    if span != 0.0 {
      var y := YawRatio(left, right);
      assert y * span == right - left;
      if y > 0.0 { assert y * span > 0.0; }
      if y < 0.0 { assert y * span < 0.0; }
      if right > left { assert y * span > 0.0; }
      if right < left { assert y * span < 0.0; }
    }
  }

  /** Swapping the two distances negates the ratio. */
  lemma YawAntisymmetric(left: real, right: real)
    requires left >= 0.0 && right >= 0.0
    ensures YawRatio(right, left) == -YawRatio(left, right)
  {
    var span := left + right;
    if span != 0.0 {
      var q := (right - left) / span;
      assert q * span == right - left;
      DivUnique(left - right, span, -q);
      assert YawRatio(right, left) == (left - right) / span;
    }
  }

  /** The quotient is the only value that multiplies back to the dividend. */
  lemma DivUnique(x: real, s: real, z: real)
    requires s != 0.0 && z * s == x
    ensures x / s == z
  {
  }

  /** Only the three x-coordinates matter: the y-coordinates, the mouth
      corners, the box and the score do not. */
  lemma PoseUsesOnlyX(d: Detection, e: Detection)
    requires d.rightEye.x == e.rightEye.x && d.leftEye.x == e.leftEye.x && d.nose.x == e.nose.x
    ensures CalculatePose(d) == CalculatePose(e)
  {
  }

  // --------------------------------------------------------- check_quality

  datatype Issue = TooSmall(w: int, h: int) | InvalidRoi | Blurry | TooDark | TooBright

  /** The face region `frame[y:y+h, x:x+w]` after negative x and y are
      moved to 0: its row and column counts. */
  function RoiRows(b: Box, height: nat): nat
  {
    var y := Max(0, b.y);
    SliceLen(y, y + b.h, height)
  }

  function RoiCols(b: Box, width: nat): nat
  {
    var x := Max(0, b.x);
    SliceLen(x, x + b.w, width)
  }

  predicate RoiEmpty(b: Box, width: nat, height: nat)
  {
    RoiRows(b, height) == 0 || RoiCols(b, width) == 0
  }

  /** The step of `check_quality` that reports an issue: size, then
      sharpness, then lighting; an empty region ends the check. */
  function Rank(i: Issue): nat
  {
    match i
    case TooSmall(_, _) => 0
    case Blurry => 1
    case TooDark => 2
    case TooBright => 2
    case InvalidRoi => 3
  }

  /** `check_quality`. `blur` and `brightness` are the Laplacian variance
      and the mean grey level of the face region. */
  function CheckQuality(b: Box, width: nat, height: nat, blur: real, brightness: real)
    : (r: (bool, seq<Issue>))
    ensures RoiEmpty(b, width, height) ==> r == (false, [InvalidRoi])
    ensures !RoiEmpty(b, width, height) ==>
      && (TooSmall(b.w, b.h) in r.1 <==> b.w < MinFaceSide || b.h < MinFaceSide)
      && (Blurry in r.1 <==> blur < BlurThreshold)
      && (TooDark in r.1 <==> brightness < DarkThreshold)
      && (TooBright in r.1 <==> brightness > BrightThreshold)
      && InvalidRoi !in r.1
      && |r.1| <= 3
    ensures r.0 <==> r.1 == []
    ensures !(TooDark in r.1 && TooBright in r.1)
    ensures forall i, j :: 0 <= i < j < |r.1| ==> Rank(r.1[i]) < Rank(r.1[j])
  {
    if RoiEmpty(b, width, height) then (false, [InvalidRoi])
    else
      var size := if b.w < MinFaceSide || b.h < MinFaceSide then [TooSmall(b.w, b.h)] else [];
      var sharp := if blur < BlurThreshold then [Blurry] else [];
      var light := if brightness < DarkThreshold then [TooDark]
                   else if brightness > BrightThreshold then [TooBright] else [];
      var issues := size + sharp + light;
      (issues == [], issues)
  }

  /** A box inside the frame always has a region to measure. */
  lemma InFrameRoiNonEmpty(b: Box, width: nat, height: nat)
    requires b.w > 0 && b.h > 0 && b.x >= 0 && b.y >= 0 && b.x + b.w <= width && b.y + b.h <= height
    ensures !RoiEmpty(b, width, height)
  {
  }

  /** A well-sized, sharp, well-lit face inside the frame passes; the
      "Too Small" finding is dropped when the region is empty. */
  lemma QualityExamples()
    ensures CheckQuality(Box(100, 100, 80, 80), 640, 480, 150.0, 120.0) == (true, [])
    ensures CheckQuality(Box(700, 0, 10, 10), 640, 480, 150.0, 120.0) == (false, [InvalidRoi])
    ensures CheckQuality(Box(100, 100, 50, 80), 640, 480, 50.0, 10.0) == (false, [TooSmall(50, 80), Blurry, TooDark])
  {
    assert !RoiEmpty(Box(100, 100, 50, 80), 640, 480);
    assert [TooSmall(50, 80)] + [Blurry] + [TooDark] == [TooSmall(50, 80), Blurry, TooDark];
  }
}
