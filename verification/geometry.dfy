/**
 * Pixel geometry shared by the tracker, the quality check and the capture
 * crop: integer boxes, detector output, intersection-over-union, and the
 * length of a Python/NumPy slice (which is how every crop is taken).
 */
module Geometry {

  /** A box `(x, y, w, h)` in integer pixels; the detector's float boxes are
      truncated to this form by the callers before any arithmetic. */
  datatype Box = Box(x: int, y: int, w: int, h: int)

  datatype Point = Point(x: real, y: real)

  /** One face reported by the detector: its box, the five landmarks in the
      detector's order (right eye, left eye, nose, right and left mouth
      corner) and the detector's own score. */
  datatype Detection = Detection(
    box: Box,
    rightEye: Point, leftEye: Point, nose: Point,
    rightMouth: Point, leftMouth: Point,
    score: real)

  function Max(a: int, b: int): int { if a >= b then a else b }

  function Min(a: int, b: int): int { if a <= b then a else b }

  /** Python's `int(r)` on a float: truncation toward zero. */
  function Trunc(r: real): (n: int)
    ensures r >= 0.0 ==> n as real <= r < n as real + 1.0
    ensures r < 0.0 ==> n as real - 1.0 < r <= n as real
  {
    if r >= 0.0 then r.Floor else -((-r).Floor)
  }

  predicate NonNegativeSize(b: Box) { b.w >= 0 && b.h >= 0 }

  /** The two boxes share a region of positive area (the test IoU makes
      before dividing). */
  predicate Overlap(a: Box, b: Box)
  {
    Min(a.x + a.w, b.x + b.w) > Max(a.x, b.x) &&
    Min(a.y + a.h, b.y + b.h) > Max(a.y, b.y)
  }

  /** Area of the intersection, meaningful when `Overlap(a, b)`. */
  function InterArea(a: Box, b: Box): int
  {
    (Min(a.x + a.w, b.x + b.w) - Max(a.x, b.x)) *
    (Min(a.y + a.h, b.y + b.h) - Max(a.y, b.y))
  }

  /** Intersection over union of two boxes: zero when they do not overlap or
      when the union is not positive, otherwise the ratio of the areas. */
  function IoU(a: Box, b: Box): (r: real)
    ensures r >= 0.0
    ensures !Overlap(a, b) ==> r == 0.0
    ensures r > 0.0 ==> Overlap(a, b)
    ensures NonNegativeSize(a) && NonNegativeSize(b) ==> r <= 1.0
  {
    if !Overlap(a, b) then 0.0
    else
      var inter := InterArea(a, b);
      var union := a.w * a.h + b.w * b.h - inter;
      if union <= 0 then 0.0
      else
        InterBounded(a, b);
        RatioBounds(inter, union);
        inter as real / union as real
  }

  /** A positive ratio of integers is at most one when the numerator does
      not exceed the denominator. */
  lemma RatioBounds(num: int, den: int)
    requires 0 < num && 0 < den
    ensures 0.0 < num as real / den as real
    ensures num <= den ==> num as real / den as real <= 1.0
  {
  }

  /** Product of two bounded non-negative factors is bounded by the product
      of the bounds. */
  lemma {:induction false} MulMonotone(p: int, q: int, P: int, Q: int)
    requires 0 <= p <= P && 0 <= q <= Q
    ensures p * q <= P * Q
  {
    calc {
      p * q;
    <= { assert (P - p) * q >= 0; }
      P * q;
    <= { assert P * (Q - q) >= 0; }
      P * Q;
    }
  }

  /** When two boxes overlap, the intersection is positive and no larger than
      the area of either box. */
  lemma InterBounded(a: Box, b: Box)
    requires Overlap(a, b)
    ensures InterArea(a, b) > 0
    ensures NonNegativeSize(a) ==> InterArea(a, b) <= a.w * a.h
    ensures NonNegativeSize(b) ==> InterArea(a, b) <= b.w * b.h
  {
    var iw := Min(a.x + a.w, b.x + b.w) - Max(a.x, b.x);
    var ih := Min(a.y + a.h, b.y + b.h) - Max(a.y, b.y);
    assert InterArea(a, b) == iw * ih;
    assert 1 <= iw && 1 <= ih;
    MulMonotone(1, 1, iw, ih);
    assert iw <= a.w && ih <= a.h && iw <= b.w && ih <= b.h;
    if NonNegativeSize(a) { MulMonotone(iw, ih, a.w, a.h); }
    if NonNegativeSize(b) { MulMonotone(iw, ih, b.w, b.h); }
  }

  /** IoU does not depend on the order of its arguments. */
  lemma IoUSymmetric(a: Box, b: Box)
    ensures IoU(a, b) == IoU(b, a)
  {
    assert Overlap(a, b) == Overlap(b, a);
    if Overlap(a, b) {
      assert InterArea(a, b) == InterArea(b, a);
    }
  }

  /** A box of positive area overlaps itself completely. */
  lemma IoUSelf(a: Box)
    requires a.w > 0 && a.h > 0
    ensures IoU(a, a) == 1.0
  {
    assert InterArea(a, a) == a.w * a.h;
  }

  /** Python's normalisation of one slice bound for a sequence of length n. */
  function SliceBound(i: int, n: nat): (r: nat)
    ensures r <= n
    ensures 0 <= i <= n ==> r == i
  {
    if i < 0 then (if i + n < 0 then 0 else i + n) else (if i > n then n else i)
  }

  /** Number of elements selected by the slice `[start:stop]` of a sequence
      of length n (negative bounds count from the end, as in Python). */
  function SliceLen(start: int, stop: int, n: nat): (r: nat)
    ensures r <= n
    ensures 0 <= start <= stop <= n ==> r == stop - start
    ensures 0 <= stop <= start ==> r == 0
  {
    var a := SliceBound(start, n);
    var b := SliceBound(stop, n);
    if b > a then b - a else 0
  }

  /** The pixels `frame[y1:y2, x1:x2]` selects, as origin and size, when a
      box is grown by `padX` and `padY` and its corners are clamped with
      `max(0, ·)` and `min(size, ·)`. A corner left negative by that clamp
      is still counted from the far edge by the slice. */
  function PaddedCrop(b: Box, padX: int, padY: int, width: nat, height: nat): (r: Box)
    ensures r.x >= 0 && r.y >= 0 && r.w >= 0 && r.h >= 0
    ensures r.w > 0 ==> r.x + r.w <= width
    ensures r.h > 0 ==> r.y + r.h <= height
    ensures NonNegativeSize(b) && padX >= 0 && padY >= 0 &&
            b.x >= 0 && b.y >= 0 && b.x + b.w <= width && b.y + b.h <= height ==>
      && r.x == Max(0, b.x - padX) && r.y == Max(0, b.y - padY)
      && r.x + r.w == Min(width, b.x + b.w + padX)
      && r.y + r.h == Min(height, b.y + b.h + padY)
  {
    var x1 := Max(0, b.x - padX);
    var y1 := Max(0, b.y - padY);
    var x2 := Min(width, b.x + b.w + padX);
    var y2 := Min(height, b.y + b.h + padY);
    Box(x1, y1, SliceLen(x1, x2, width), SliceLen(y1, y2, height))
  }

  /** A non-empty box inside the frame yields a non-empty crop that
      contains it. */
  lemma PaddedCropContains(b: Box, padX: int, padY: int, width: nat, height: nat)
    requires padX >= 0 && padY >= 0
    requires b.w > 0 && b.h > 0 && b.x >= 0 && b.y >= 0 && b.x + b.w <= width && b.y + b.h <= height
    ensures var c := PaddedCrop(b, padX, padY, width, height);
      c.w > 0 && c.h > 0 && c.x <= b.x && c.y <= b.y && b.x + b.w <= c.x + c.w && b.y + b.h <= c.y + c.h
  {
  }
}
