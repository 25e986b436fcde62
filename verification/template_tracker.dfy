/**
 * The fallback tracker of core/frame_tracker.py (`TemplateTracker`): it keeps
 * the face's pixels from the last detection and, on each frame, looks for
 * them inside a window twice the face's size around the last box. The
 * correlation itself (`cv2.matchTemplate` + `minMaxLoc`) is an input: the
 * peak value and its offset inside the window, or an error.
 */
module TemplateTracking {
  import opened Geometry

  const AcceptCorrelation: real := 0.4

  /** `bbox` is the box last accepted; `hasTemplate` records whether `init`
      managed to cut a non-empty template out of the frame. */
  datatype TemplateTracker = TemplateTracker(bbox: Box, hasTemplate: bool)

  /** What `matchTemplate` + `minMaxLoc` reported for a search window. */
  datatype Correlation = Raised | Peak(maxVal: real, dx: int, dy: int)

  /** The clamped template rectangle `init` cuts: origin moved into the
      frame, size cut at the right and bottom edges. */
  function TemplateRect(b: Box, frameW: int, frameH: int): (r: Box)
    ensures r.x == Max(0, b.x) && r.y == Max(0, b.y)
    ensures r.w <= b.w && r.h <= b.h
    ensures r.w > 0 ==> r.x + r.w <= frameW
    ensures r.h > 0 ==> r.y + r.h <= frameH
  {
    var x := Max(0, b.x);
    var y := Max(0, b.y);
    Box(x, y, Min(b.w, frameW - x), Min(b.h, frameH - y))
  }

  /** `init`: remembers the box as given and succeeds iff the clamped
      template is non-empty. */
  function Init(b: Box, frameW: int, frameH: int): (r: (bool, TemplateTracker))
    ensures r.1.bbox == b
    ensures r.0 == r.1.hasTemplate
    ensures r.0 <==> TemplateRect(b, frameW, frameH).w > 0 && TemplateRect(b, frameW, frameH).h > 0
    ensures b.x >= 0 && b.y >= 0 && b.w > 0 && b.h > 0 && b.x + b.w <= frameW && b.y + b.h <= frameH ==> r.0
    ensures b.x >= frameW || b.y >= frameH || b.w <= 0 || b.h <= 0 ==> !r.0
  {
    var t := TemplateRect(b, frameW, frameH);
    var ok := t.w > 0 && t.h > 0;
    (ok, TemplateTracker(b, ok))
  }

  /** The search window: the last box grown by half its size on every side
      (Python's floor division), then clamped to the frame. */
  function SearchWindow(b: Box, frameW: int, frameH: int): (r: Box)
    ensures r.x >= 0 && r.y >= 0
    ensures r.x + r.w <= frameW && r.y + r.h <= frameH
    ensures b.w >= 0 && b.x >= 0 ==> r.x <= b.x
    ensures b.h >= 0 && b.y >= 0 ==> r.y <= b.y
    ensures NonNegativeSize(b) && b.x + b.w <= frameW && b.y + b.h <= frameH ==>
      r.x + r.w >= b.x + b.w && r.y + r.h >= b.y + b.h
  {
    var mw := b.w / 2;
    var mh := b.h / 2;
    var sx := Max(0, b.x - mw);
    var sy := Max(0, b.y - mh);
    Box(sx, sy, Min(frameW - sx, b.w + 2 * mw), Min(frameH - sy, b.h + 2 * mh))
  }

  /** `update`: fails without a template, when the clamped window is smaller
      than the box, when correlation raises, or when the peak is not above
      0.4; otherwise the box moves to the peak and keeps its size. */
  function Update(t: TemplateTracker, frameW: int, frameH: int, c: Correlation)
    : (r: (bool, TemplateTracker))
    ensures !r.0 ==> r.1 == t
    ensures r.0 <==>
      && t.hasTemplate
      && SearchWindow(t.bbox, frameW, frameH).w >= t.bbox.w
      && SearchWindow(t.bbox, frameW, frameH).h >= t.bbox.h
      && c.Peak? && c.maxVal > AcceptCorrelation
    ensures r.0 ==> var win := SearchWindow(t.bbox, frameW, frameH);
      && r.1.hasTemplate
      && r.1.bbox == Box(win.x + c.dx, win.y + c.dy, t.bbox.w, t.bbox.h)
      && (0 <= c.dx <= win.w - t.bbox.w && 0 <= c.dy <= win.h - t.bbox.h ==>
            r.1.bbox.x >= 0 && r.1.bbox.y >= 0 &&
            r.1.bbox.x + r.1.bbox.w <= frameW && r.1.bbox.y + r.1.bbox.h <= frameH)
  {
    if !t.hasTemplate then (false, t)
    else
      var win := SearchWindow(t.bbox, frameW, frameH);
      if win.w < t.bbox.w || win.h < t.bbox.h then (false, t)
      else
        match c
        case Raised => (false, t)
        case Peak(v, dx, dy) =>
          if v > AcceptCorrelation then
            (true, t.(bbox := Box(win.x + dx, win.y + dy, t.bbox.w, t.bbox.h)))
          else (false, t)
  }
}
