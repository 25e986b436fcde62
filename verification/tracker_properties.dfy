/**
 * Properties of the detect/track scheduler in `FrameTracking`: the tracker
 * invariant every `process_frame` keeps, what the greedy IoU matching
 * guarantees and what it does not, eviction, and worked examples.
 */
module TrackerProperties {
  import opened Options
  import opened Geometry
  import Recognizer
  import TemplateTracking
  import opened FrameTracking

  // ---------------------------------------------------------------- ids

  lemma IncreasingConcat(a: seq<TrackedFace>, b: seq<TrackedFace>)
    requires IdsIncreasing(a) && IdsIncreasing(b)
    requires forall i, j :: 0 <= i < |a| && 0 <= j < |b| ==> a[i].faceId < b[j].faceId
    ensures IdsIncreasing(a + b)
  {
  }

  // ----------------------------------------------------- detection pass

  /** `BestDetection` keeps the best free detection, the earliest on a tie,
      and reports none exactly when no free detection clears MatchIoU. */
  lemma {:induction false} BestDetectionIsBest(b: Box, dets: seq<Detection>, used: set<int>, n: nat)
    requires n <= |dets|
    ensures BestAmong(b, dets, used, n, BestDetection(b, dets, used, n))
    decreases n
  {
    if n > 0 {
      BestDetectionIsBest(b, dets, used, n - 1);
      BestStep(b, dets, used, n, BestDetection(b, dets, used, n - 1));
    }
  }

  /** One more candidate: it replaces the best so far only when it is free,
      strictly better and above MatchIoU. */
  lemma BestStep(b: Box, dets: seq<Detection>, used: set<int>, n: nat, prev: (real, int))
    requires 0 < n <= |dets|
    requires BestAmong(b, dets, used, n - 1, prev)
    requires prev.1 == -1 ==> prev.0 == 0.0
    ensures var iou := IoU(b, dets[n - 1].box);
      BestAmong(b, dets, used, n, if n - 1 !in used && iou > prev.0 && iou > MatchIoU then (iou, n - 1) else prev)
  {
  }

  /** Every match overlaps its track by more than 0.3, and no detection is
      taken twice. */
  lemma {:induction false} AssignSound(faces: seq<TrackedFace>, dets: seq<Detection>, n: nat)
    requires n <= |faces|
    ensures Overlapping(faces, dets, Assign(faces, dets, n))
    ensures Distinct(Assign(faces, dets, n))
    decreases n
  {
    if n > 0 {
      AssignSound(faces, dets, n - 1);
      AssignStep(faces, dets, n);
    }
  }

  /** One greedy step keeps both properties of the choices made so far. */
  lemma AssignStep(faces: seq<TrackedFace>, dets: seq<Detection>, n: nat)
    requires 0 < n <= |faces|
    requires Overlapping(faces, dets, Assign(faces, dets, n - 1)) && Distinct(Assign(faces, dets, n - 1))
    ensures Overlapping(faces, dets, Assign(faces, dets, n)) && Distinct(Assign(faces, dets, n))
  {
    var prev := Assign(faces, dets, n - 1);
    var b := BestDetection(faces[n - 1].box, dets, Used(prev), |dets|).1;
    AssignNext(faces, dets, n);
    BestDetectionIsBest(faces[n - 1].box, dets, Used(prev), |dets|);
    OverlappingSnoc(faces, dets, prev, b);
    DistinctSnoc(prev, b, Used(prev));
  }

  /** Every matched track overlaps its detection by more than MatchIoU. */
  ghost predicate Overlapping(faces: seq<TrackedFace>, dets: seq<Detection>, a: seq<int>)
  {
    forall i :: 0 <= i < |a| && i < |faces| && 0 <= a[i] < |dets| ==>
      IoU(faces[i].box, dets[a[i]].box) > MatchIoU
  }

  /** No detection is matched to two tracks. */
  ghost predicate Distinct(a: seq<int>)
  {
    forall i, j :: 0 <= i < j < |a| && a[j] >= 0 ==> a[i] != a[j]
  }

  lemma OverlappingSnoc(faces: seq<TrackedFace>, dets: seq<Detection>, a: seq<int>, b: int)
    requires Overlapping(faces, dets, a) && |a| < |faces|
    requires 0 <= b < |dets| ==> IoU(faces[|a|].box, dets[b].box) > MatchIoU
    ensures Overlapping(faces, dets, a + [b])
  {
    var r := a + [b];
    forall i | 0 <= i < |r| && i < |faces| && 0 <= r[i] < |dets|
      ensures IoU(faces[i].box, dets[r[i]].box) > MatchIoU
    {
      if i < |a| { assert r[i] == a[i]; }
    }
  }

  lemma DistinctSnoc(a: seq<int>, b: int, used: set<int>)
    requires Distinct(a) && used == Used(a) && (b >= 0 ==> b !in used)
    ensures Distinct(a + [b])
  {
    var r := a + [b];
    forall i, j | 0 <= i < j < |r| && r[j] >= 0 ensures r[i] != r[j] {
      assert r[i] == a[i];
      if j < |a| {
        assert r[j] == a[j];
      } else if a[i] >= 0 {
        assert a[i] in Used(a);
      }
    }
  }

  /** Assigning more tracks never changes a choice already made. */
  lemma {:induction false} AssignKeeps(faces: seq<TrackedFace>, dets: seq<Detection>, n: nat, i: nat)
    requires i < n <= |faces|
    ensures Assign(faces, dets, n)[i] == Assign(faces, dets, i + 1)[i]
    decreases n
  {
    if i < n - 1 {
      AssignKeeps(faces, dets, n - 1, i);
      KeepsStep(faces, dets, n - 1, i);
    }
  }

  /** One more track leaves the i-th choice where it was. */
  lemma KeepsStep(faces: seq<TrackedFace>, dets: seq<Detection>, m: nat, i: nat)
    requires i < m < |faces|
    requires Assign(faces, dets, m)[i] == Assign(faces, dets, i + 1)[i]
    ensures Assign(faces, dets, m + 1)[i] == Assign(faces, dets, i + 1)[i]
  {
    AssignNext(faces, dets, m + 1);
  }

  /** Greedy order: the i-th track's choice is its best detection among
      those the tracks before it did not take. */
  lemma AssignIsGreedy(faces: seq<TrackedFace>, dets: seq<Detection>, i: nat)
    requires i < |faces|
    ensures Assign(faces, dets, |faces|)[i] ==
      BestDetection(faces[i].box, dets, Used(Assign(faces, dets, i)), |dets|).1
  {
    AssignKeeps(faces, dets, |faces|, i);
    assert Assign(faces, dets, i + 1)[i] ==
      BestDetection(faces[i].box, dets, Used(Assign(faces, dets, i)), |dets|).1;
  }

  /** The tail's id set is part of the whole list's. */
  lemma TailIds(fs: seq<TrackedFace>)
    requires |fs| > 0
    ensures IdSet(fs) == {fs[0].faceId} + IdSet(fs[1..])
  {
    forall x | x in IdSet(fs[1..]) ensures x in IdSet(fs) {
      var i :| 0 <= i < |fs[1..]| && fs[1..][i].faceId == x;
      assert fs[i + 1].faceId == x;
    }
    forall x | x in IdSet(fs) ensures x == fs[0].faceId || x in IdSet(fs[1..]) {
      var i :| 0 <= i < |fs| && fs[i].faceId == x;
      if i > 0 { assert fs[1..][i - 1].faceId == x; }
    }
  }

  /** In an increasing list, the head's id is below every id of the tail. */
  lemma HeadBelowTail(fs: seq<TrackedFace>)
    requires |fs| > 0 && IdsIncreasing(fs)
    ensures IdsIncreasing(fs[1..])
    ensures forall x :: x in IdSet(fs[1..]) ==> fs[0].faceId < x
  {
    forall x | x in IdSet(fs[1..]) ensures fs[0].faceId < x {
      var i :| 0 <= i < |fs[1..]| && fs[1..][i].faceId == x;
      assert fs[i + 1].faceId == x;
    }
  }

  /** Matched tracks keep their ids and their relative order. */
  lemma {:induction false} KeptIds(faces: seq<TrackedFace>, a: seq<int>, dets: seq<Detection>,
                                   frameNo: int, width: nat, height: nat, native: bool)
    requires |a| == |faces|
    requires forall i :: 0 <= i < |a| ==> a[i] < |dets|
    ensures var r := Kept(faces, a, dets, frameNo, width, height, native);
      IdSet(r) <= IdSet(faces) && (IdsIncreasing(faces) ==> IdsIncreasing(r))
    decreases |faces|
  {
    if faces != [] {
      var rest := Kept(faces[1..], a[1..], dets, frameNo, width, height, native);
      KeptIds(faces[1..], a[1..], dets, frameNo, width, height, native);
      TailIds(faces);
      var head := if a[0] >= 0 then [Rebind(faces[0], dets[a[0]], frameNo, width, height, native)] else [];
      var r := head + rest;
      assert r == Kept(faces, a, dets, frameNo, width, height, native);
      if head != [] {
        TailIds(r);
        assert r[1..] == rest;
      } else {
        assert r == rest;
      }
      if IdsIncreasing(faces) {
        HeadBelowTail(faces);
        forall k | 0 <= k < |rest| ensures faces[0].faceId < rest[k].faceId {
          assert rest[k].faceId in IdSet(rest);
        }
      }
    }
  }

  /** A track whose assignment is -1 is absent afterwards; a matched one is
      present, moved to its detection. */
  lemma {:induction false} KeptExactly(faces: seq<TrackedFace>, a: seq<int>, dets: seq<Detection>,
                                       frameNo: int, width: nat, height: nat, native: bool, i: nat)
    requires |a| == |faces| && i < |faces| && IdsIncreasing(faces)
    requires forall j :: 0 <= j < |a| ==> a[j] < |dets|
    ensures var r := Kept(faces, a, dets, frameNo, width, height, native);
      && (a[i] < 0 ==> faces[i].faceId !in IdSet(r))
      && (a[i] >= 0 ==> Rebind(faces[i], dets[a[i]], frameNo, width, height, native) in r)
    decreases |faces|
  {
    var rest := Kept(faces[1..], a[1..], dets, frameNo, width, height, native);
    var r := Kept(faces, a, dets, frameNo, width, height, native);
    HeadBelowTail(faces);
    KeptIds(faces[1..], a[1..], dets, frameNo, width, height, native);
    if i == 0 {
      if a[0] < 0 {
        assert r == rest;
        assert faces[0].faceId !in IdSet(faces[1..]);
      } else {
        assert r[0] == Rebind(faces[0], dets[a[0]], frameNo, width, height, native);
      }
    } else {
      KeptExactly(faces[1..], a[1..], dets, frameNo, width, height, native, i - 1);
      assert faces[1..][i - 1] == faces[i];
      if a[0] >= 0 {
        assert r == [r[0]] + rest;
        TailIds(r);
        assert faces[i].faceId != faces[0].faceId;
      } else {
        assert r == rest;
      }
    }
  }

  /** Every matched track now carries one of this frame's detections. */
  lemma {:induction false} KeptFromDetections(faces: seq<TrackedFace>, a: seq<int>, dets: seq<Detection>,
                                              frameNo: int, width: nat, height: nat, native: bool)
    requires |a| == |faces|
    requires forall i :: 0 <= i < |a| ==> a[i] < |dets|
    ensures OnDetections(Kept(faces, a, dets, frameNo, width, height, native), dets)
    decreases |faces|
  {
    if faces != [] {
      KeptFromDetections(faces[1..], a[1..], dets, frameNo, width, height, native);
      var rest := Kept(faces[1..], a[1..], dets, frameNo, width, height, native);
      var r := Kept(faces, a, dets, frameNo, width, height, native);
      if a[0] >= 0 {
        var head := Rebind(faces[0], dets[a[0]], frameNo, width, height, native);
        assert r == [head] + rest;
        assert head.faceData in dets;
        forall k | 0 <= k < |r| ensures r[k].faceData in dets && r[k].box == r[k].faceData.box {
          if k > 0 { assert r[k] == rest[k - 1]; }
        }
      } else {
        assert r == rest;
      }
    }
  }

  /** Every detection whose index is not taken is in `Untaken`. */
  lemma {:induction false} UntakenCovers(dets: seq<Detection>, used: set<int>, k: nat, j: int)
    requires k <= j < |dets| && j !in used
    ensures dets[j] in Untaken(dets, used, k)
    decreases |dets| - k
  {
    if k < j {
      UntakenCovers(dets, used, k + 1, j);
    }
  }

  /** Everything in `Untaken` is an untaken detection. */
  lemma {:induction false} UntakenMembers(dets: seq<Detection>, used: set<int>, k: nat)
    requires k <= |dets|
    ensures forall d :: d in Untaken(dets, used, k) ==> exists i :: k <= i < |dets| && i !in used && dets[i] == d
    decreases |dets| - k
  {
    if k < |dets| {
      UntakenMembers(dets, used, k + 1);
    }
  }

  /** The new tracks carry the untaken detections one-to-one, in order. */
  lemma {:induction false} FreshIsUntaken(dets: seq<Detection>, used: set<int>, k: nat, id: int,
                                          frameNo: int, width: nat, height: nat, native: bool)
    requires k <= |dets|
    ensures var r := Fresh(dets, used, k, id, frameNo, width, height, native);
      var u := Untaken(dets, used, k);
      |r| == |u| && forall i :: 0 <= i < |r| ==> r[i].faceData == u[i] && r[i].box == u[i].box
    decreases |dets| - k
  {
    if k < |dets| {
      if k in used {
        FreshIsUntaken(dets, used, k + 1, id, frameNo, width, height, native);
      } else {
        FreshIsUntaken(dets, used, k + 1, id + 1, frameNo, width, height, native);
        var rest := Fresh(dets, used, k + 1, id + 1, frameNo, width, height, native);
        var r := Fresh(dets, used, k, id, frameNo, width, height, native);
        var u := Untaken(dets, used, k);
        assert r == [NewFace(dets[k], id, frameNo, width, height, native)] + rest;
        assert u == [dets[k]] + Untaken(dets, used, k + 1);
      }
    }
  }

  /** Matched tracks keep their failure counts, so a track set with no
      failures stays that way. */
  lemma {:induction false} KeptFailures(faces: seq<TrackedFace>, a: seq<int>, dets: seq<Detection>,
                                        frameNo: int, width: nat, height: nat, native: bool)
    requires |a| == |faces|
    requires forall i :: 0 <= i < |a| ==> a[i] < |dets|
    requires NoFailures(faces)
    ensures NoFailures(Kept(faces, a, dets, frameNo, width, height, native))
    decreases |faces|
  {
    if faces != [] {
      KeptFailures(faces[1..], a[1..], dets, frameNo, width, height, native);
      var rest := Kept(faces[1..], a[1..], dets, frameNo, width, height, native);
      var r := Kept(faces, a, dets, frameNo, width, height, native);
      if a[0] >= 0 {
        assert r == [Rebind(faces[0], dets[a[0]], frameNo, width, height, native)] + rest;
        assert forall k :: 1 <= k < |r| ==> r[k] == rest[k - 1];
      } else {
        assert r == rest;
      }
    }
  }

  /** The matched tracks of a valid tracker carry old ids, in order, below
      the counter, with no failures. */
  lemma KeptValid(s: FrameTracker, a: seq<int>, dets: seq<Detection>, frameNo: int, width: nat, height: nat, native: bool)
    requires Valid(s) && |a| == |s.faces|
    requires forall i :: 0 <= i < |a| ==> a[i] < |dets|
    ensures var kept := Kept(s.faces, a, dets, frameNo, width, height, native);
      && IdsIncreasing(kept) && NoFailures(kept)
      && forall k :: 0 <= k < |kept| ==> kept[k].faceId in IdSet(s.faces) && 0 <= kept[k].faceId < s.nextFaceId
  {
    var kept := Kept(s.faces, a, dets, frameNo, width, height, native);
    KeptIds(s.faces, a, dets, frameNo, width, height, native);
    KeptFailures(s.faces, a, dets, frameNo, width, height, native);
    forall k | 0 <= k < |kept| ensures kept[k].faceId in IdSet(s.faces) && 0 <= kept[k].faceId < s.nextFaceId {
      assert kept[k].faceId in IdSet(kept);
    }
  }

  /** A detection pass keeps the tracker invariant and reuses no id. */
  lemma DetectionPassValid(s: FrameTracker, frame: Frame, frameNo: int, native: bool)
    requires Valid(s)
    ensures Valid(DetectionPass(s, frame, frameNo, native))
    ensures NoReuse(s, DetectionPass(s, frame, frameNo, native))
  {
    var dets := frame.detections;
    var a := Assign(s.faces, dets, |s.faces|);
    var kept := Kept(s.faces, a, dets, frameNo, frame.width, frame.height, native);
    var added := Fresh(dets, Used(a), 0, s.nextFaceId, frameNo, frame.width, frame.height, native);
    KeptValid(s, a, dets, frameNo, frame.width, frame.height, native);
    AppendValid(s, kept, added);
  }

  /** Kept tracks with old ids followed by new tracks numbered on from the
      counter form a valid tracker that reuses no id. */
  lemma AppendValid(s: FrameTracker, kept: seq<TrackedFace>, added: seq<TrackedFace>)
    requires Valid(s)
    requires IdsIncreasing(kept) && NoFailures(kept)
    requires forall k :: 0 <= k < |kept| ==> kept[k].faceId in IdSet(s.faces) && 0 <= kept[k].faceId < s.nextFaceId
    requires forall i :: 0 <= i < |added| ==> added[i].faceId == s.nextFaceId + i && added[i].trackingFailures == 0
    ensures var r := FrameTracker(s.frameCount, kept + added, s.nextFaceId + |added|);
      Valid(r) && NoReuse(s, r)
  {
    var r := FrameTracker(s.frameCount, kept + added, s.nextFaceId + |added|);
    IncreasingConcat(kept, added);
    forall k | 0 <= k < |r.faces|
      ensures r.faces[k].faceId in IdSet(s.faces) || r.faces[k].faceId >= s.nextFaceId
    {
      if k >= |kept| { assert r.faces[k] == added[k - |kept|]; }
    }
  }

  // ------------------------------------------------------ tracking pass

  /** Surviving tracks keep their ids and their relative order. */
  lemma {:induction false} TrackIds(fs: seq<TrackedFace>, frame: Frame, maxFailures: int)
    ensures IdSet(Track(fs, frame, maxFailures)) <= IdSet(fs)
    ensures IdsIncreasing(fs) ==> IdsIncreasing(Track(fs, frame, maxFailures))
    decreases |fs|
  {
    if fs != [] {
      var u := UpdateTracker(fs[0], frame.readings(fs[0].faceId), frame.width, frame.height);
      var rest := Track(fs[1..], frame, maxFailures);
      var r := Track(fs, frame, maxFailures);
      TrackIds(fs[1..], frame, maxFailures);
      TailIds(fs);
      if Survives(fs[0], frame, maxFailures) {
        assert r == [u.1] + rest;
        TailIds(r);
        assert r[1..] == rest;
        if IdsIncreasing(fs) {
          HeadBelowTail(fs);
          forall k | 0 <= k < |rest| ensures fs[0].faceId < rest[k].faceId {
            assert rest[k].faceId in IdSet(rest);
          }
        }
      } else {
        assert r == rest;
      }
    }
  }

  /** A track is present after `_run_tracking` exactly when it survives,
      and then as its updated self. */
  lemma {:induction false} TrackExactly(fs: seq<TrackedFace>, frame: Frame, maxFailures: int, i: nat)
    requires i < |fs| && IdsIncreasing(fs)
    ensures var r := Track(fs, frame, maxFailures);
      && (fs[i].faceId in IdSet(r) <==> Survives(fs[i], frame, maxFailures))
      && (Survives(fs[i], frame, maxFailures) ==>
            UpdateTracker(fs[i], frame.readings(fs[i].faceId), frame.width, frame.height).1 in r)
    decreases |fs|
  {
    var u := UpdateTracker(fs[0], frame.readings(fs[0].faceId), frame.width, frame.height);
    var rest := Track(fs[1..], frame, maxFailures);
    var r := Track(fs, frame, maxFailures);
    HeadBelowTail(fs);
    TrackIds(fs[1..], frame, maxFailures);
    if i == 0 {
      if Survives(fs[0], frame, maxFailures) {
        assert r[0] == u.1;
      } else {
        assert r == rest;
        assert fs[0].faceId !in IdSet(fs[1..]);
      }
    } else {
      TrackExactly(fs[1..], frame, maxFailures, i - 1);
      assert fs[1..][i - 1] == fs[i];
      if Survives(fs[0], frame, maxFailures) {
        assert r == [u.1] + rest;
        TailIds(r);
        assert fs[i].faceId != fs[0].faceId;
      } else {
        assert r == rest;
      }
    }
  }

  /** The failure limit never comes into play: a single failed update
      evicts the track, whatever `max_tracking_failures` is, and a
      non-positive limit evicts every track. */
  lemma FirstFailureEvicts(fs: seq<TrackedFace>, frame: Frame, maxFailures: int, i: nat)
    requires i < |fs| && IdsIncreasing(fs)
    ensures !UpdateTracker(fs[i], frame.readings(fs[i].faceId), frame.width, frame.height).0 ==>
      fs[i].faceId !in IdSet(Track(fs, frame, maxFailures))
    ensures maxFailures <= 0 ==> fs[i].faceId !in IdSet(Track(fs, frame, maxFailures))
    ensures maxFailures > 0 && UpdateTracker(fs[i], frame.readings(fs[i].faceId), frame.width, frame.height).0 ==>
      fs[i].faceId in IdSet(Track(fs, frame, maxFailures))
  {
    TrackExactly(fs, frame, maxFailures, i);
  }

  // --------------------------------------------------- recognition pass

  /** A box more than the padding to the left of and above the frame gives
      negative slice ends, which Python counts from the far edge: the crop
      is most of the frame rather than empty. */
  lemma CropOffFrameWraps()
    ensures CropRect(Box(-100, -100, 5, 5), 640, 480) == Box(0, 0, 555, 395)
  {
  }

  /** Recognition leaves ids and failure counts alone. */
  lemma RecognitionKeepsIds(fs: seq<TrackedFace>, frame: Frame, useLandmarks: bool)
    ensures var r := RecognitionPass(fs, frame, useLandmarks);
      IdSet(r) == IdSet(fs) && (IdsIncreasing(fs) ==> IdsIncreasing(r))
      && forall i :: 0 <= i < |r| ==> r[i].faceId == fs[i].faceId && r[i].trackingFailures == fs[i].trackingFailures
  {
    var r := RecognitionPass(fs, frame, useLandmarks);
    assert forall i :: 0 <= i < |r| ==> r[i].faceId == fs[i].faceId;
  }

  // ------------------------------------------------------ process_frame

  /** A tracking pass keeps the tracker invariant and reuses no id. */
  lemma TrackingPassValid(s: FrameTracker, frame: Frame, maxFailures: int)
    requires Valid(s)
    ensures var r := s.(faces := Track(s.faces, frame, maxFailures));
      Valid(r) && NoReuse(s, r)
  {
    var r := s.(faces := Track(s.faces, frame, maxFailures));
    TrackIds(s.faces, frame, maxFailures);
    forall k | 0 <= k < |r.faces| ensures r.faces[k].faceId in IdSet(s.faces) {
      assert r.faces[k].faceId in IdSet(r.faces);
    }
  }

  /** A recognition pass keeps the tracker invariant and the ids. */
  lemma RecognitionPassValid(ids: set<int>, next: int, t: FrameTracker, frame: Frame, useLandmarks: bool)
    requires Valid(t) && Unused(ids, next, t)
    ensures var r := t.(faces := RecognitionPass(t.faces, frame, useLandmarks));
      Valid(r) && Unused(ids, next, r)
  {
    RecognitionKeepsIds(t.faces, frame, useLandmarks);
  }

  /** `x` is the result of updating the tracker of one of the tracks `fs`. */
  ghost predicate UpdatedFrom(x: TrackedFace, fs: seq<TrackedFace>, frame: Frame)
  {
    exists j :: 0 <= j < |fs| && x == UpdateTracker(fs[j], frame.readings(fs[j].faceId), frame.width, frame.height).1
  }

  lemma UpdatedFromTail(x: TrackedFace, fs: seq<TrackedFace>, frame: Frame)
    requires |fs| > 0 && UpdatedFrom(x, fs[1..], frame)
    ensures UpdatedFrom(x, fs, frame)
  {
    var j :| 0 <= j < |fs[1..]| &&
      x == UpdateTracker(fs[1..][j], frame.readings(fs[1..][j].faceId), frame.width, frame.height).1;
    assert fs[1..][j] == fs[j + 1];
  }

  /** Every track after `_run_tracking` is the updated self of a track that
      was live before, so it keeps that track's id and cached result. */
  lemma {:induction false} TrackFromOld(fs: seq<TrackedFace>, frame: Frame, maxFailures: int, k: int)
    requires 0 <= k < |Track(fs, frame, maxFailures)|
    ensures UpdatedFrom(Track(fs, frame, maxFailures)[k], fs, frame)
    decreases |fs|
  {
    var rest := Track(fs[1..], frame, maxFailures);
    var r := Track(fs, frame, maxFailures);
    if Survives(fs[0], frame, maxFailures) {
      assert r == [r[0]] + rest;
      if k == 0 {
        assert r[k] == UpdateTracker(fs[0], frame.readings(fs[0].faceId), frame.width, frame.height).1;
      } else {
        assert r[k] == rest[k - 1];
        TrackFromOld(fs[1..], frame, maxFailures, k - 1);
        UpdatedFromTail(r[k], fs, frame);
      }
    } else {
      assert r == rest;
      TrackFromOld(fs[1..], frame, maxFailures, k);
      UpdatedFromTail(r[k], fs, frame);
    }
  }

  /** `x` continues track `f` on a tracking frame: same id and, unless the
      recognizer ran, the same cached result; if it ran, the result is the
      old one or the recognizer's answer for `x`'s padded crop. */
  predicate ContinuesTrack(x: TrackedFace, f: TrackedFace, frame: Frame, recognized: bool)
  {
    && x.faceId == f.faceId
    && (!recognized ==> x.result == f.result)
    && (recognized ==>
          x.result == f.result || x.result == Some(frame.cropped(CropRect(x.box, frame.width, frame.height))))
  }

  /** On a tracking frame every live track continues a track that was live
      before: without recognition it keeps its cached result; with
      recognition the result is the crop's answer or, for an empty crop, the
      old one. */
  lemma TrackingFrameResults(cfg: Config, s: FrameTracker, frame: Frame)
    requires ValidConfig(cfg)
    ensures var r := ProcessFrame(cfg, s, frame);
      !r.detected ==> forall k :: 0 <= k < |r.tracker.faces| ==>
        exists j :: 0 <= j < |s.faces| && ContinuesTrack(r.tracker.faces[k], s.faces[j], frame, r.recognized)
  {
    var r := ProcessFrame(cfg, s, frame);
    if !r.detected {
      var t := Track(s.faces, frame, cfg.maxTrackingFailures);
      forall k | 0 <= k < |r.tracker.faces|
        ensures exists j :: 0 <= j < |s.faces| && ContinuesTrack(r.tracker.faces[k], s.faces[j], frame, r.recognized)
      {
        TrackFromOld(s.faces, frame, cfg.maxTrackingFailures, k);
        var j :| 0 <= j < |s.faces| &&
          t[k] == UpdateTracker(s.faces[j], frame.readings(s.faces[j].faceId), frame.width, frame.height).1;
        if r.recognized {
          assert r.tracker.faces[k] == RecognizeFace(t[k], frame, false);
        }
        assert ContinuesTrack(r.tracker.faces[k], s.faces[j], frame, r.recognized);
      }
    }
  }

  /** After a detection frame every live track carries the recognizer's
      answer for its aligned face; a tracking frame issues no id and adds no
      track. */
  lemma ProcessFrameOutcome(cfg: Config, s: FrameTracker, frame: Frame)
    requires ValidConfig(cfg)
    ensures var r := ProcessFrame(cfg, s, frame);
      && (r.detected ==> forall i :: 0 <= i < |r.tracker.faces| ==>
            r.tracker.faces[i].result == Some(frame.aligned(r.tracker.faces[i].faceData)))
      && (!r.detected ==> r.tracker.nextFaceId == s.nextFaceId && |r.tracker.faces| <= |s.faces|)
  {
  }

  /** `process_frame` keeps the tracker invariant, and never hands out an
      id some earlier track had unless it is that track. */
  lemma ProcessFrameValid(cfg: Config, s: FrameTracker, frame: Frame)
    requires ValidConfig(cfg) && Valid(s)
    ensures Valid(ProcessFrame(cfg, s, frame).tracker)
    ensures NoReuse(s, ProcessFrame(cfg, s, frame).tracker)
  {
    AdvanceValid(cfg, s, frame);
  }

  /** The state `process_frame` leaves behind is valid and reuses no id. */
  lemma AdvanceValid(cfg: Config, s: FrameTracker, frame: Frame)
    requires ValidConfig(cfg) && Valid(s)
    ensures Valid(Advance(cfg, s, frame)) && NoReuse(s, Advance(cfg, s, frame))
  {
    var fc := s.frameCount + 1;
    var detect := fc % cfg.detectionInterval == 0 || |s.faces| == 0;
    var p := Passed(cfg, s, frame);
    PassedValid(cfg, s, frame);
    RecognitionPassValid(IdSet(s.faces), s.nextFaceId, p, frame, detect);
  }

  /** Either pass keeps the invariant and reuses no id. */
  lemma PassedValid(cfg: Config, s: FrameTracker, frame: Frame)
    requires ValidConfig(cfg) && Valid(s)
    ensures Valid(Passed(cfg, s, frame)) && NoReuse(s, Passed(cfg, s, frame))
  {
    var fc := s.frameCount + 1;
    var s1 := s.(frameCount := fc);
    var p := Passed(cfg, s, frame);
    if fc % cfg.detectionInterval == 0 || |s.faces| == 0 {
      DetectionPassValid(s1, frame, fc, cfg.nativeTracker);
      assert p == DetectionPass(s1, frame, fc, cfg.nativeTracker);
    } else {
      TrackingPassValid(s1, frame, cfg.maxTrackingFailures);
      assert p == s1.(faces := Track(s.faces, frame, cfg.maxTrackingFailures));
    }
  }

  // ------------------------------------------------------------ examples

  /** After `reset` the id counter starts over: the first face detected
      gets id 0 again, although id 0 may have been handed out before. */
  lemma ResetReusesIds(cfg: Config, frame: Frame)
    requires ValidConfig(cfg) && |frame.detections| > 0
    ensures var r := ProcessFrame(cfg, Reset(), frame);
      r.detected && |r.output| > 0 && r.output[0].faceId == 0
  {
    var dets := frame.detections;
    var a := Assign([], dets, 0);
    assert a == [] && Used(a) == {};
    var added := Fresh(dets, {}, 0, 0, 1, frame.width, frame.height, cfg.nativeTracker);
    assert added[0].faceId == 0;
    var r := ProcessFrame(cfg, Reset(), frame);
    assert r.tracker.faces[0].faceId == RecognizeFace(added[0], frame, true).faceId;
  }

  /** A lone track re-detected at exactly its own box keeps its id and
      takes the new detection; no new track appears. */
  lemma ExactRedetectionKeepsTrack(f: TrackedFace, d: Detection, frame: Frame, count: int, next: int,
                                   frameNo: int, native: bool)
    requires d.box == f.box && f.box.w > 0 && f.box.h > 0 && frame.detections == [d]
    ensures var r := DetectionPass(FrameTracker(count, [f], next), frame, frameNo, native);
      r.faces == [Rebind(f, d, frameNo, frame.width, frame.height, native)] && r.nextFaceId == next
  {
    IoUSelf(f.box);
    assert BestDetection(f.box, [d], {}, 0) == (0.0, -1);
    assert BestDetection(f.box, [d], {}, 1) == (1.0, 0);
    var a := Assign([f], [d], 1);
    AssignNext([f], [d], 1);
    UsedOne(0);
    assert Fresh([d], {0}, 1, next, frameNo, frame.width, frame.height, native) == [];
    assert Kept([f][1..], a[1..], [d], frameNo, frame.width, frame.height, native) == [];
  }

  /** IoU of two overlapping boxes with given intersection and union. */
  lemma IoUValue(a: Box, b: Box, inter: int, union: int)
    requires Overlap(a, b) && InterArea(a, b) == inter && a.w * a.h + b.w * b.h - inter == union > 0
    ensures IoU(a, b) == inter as real / union as real
  {
  }

  /** Two tracks, two detections: when the first track prefers detection
      0 and the second overlaps detection 1 by at most 0.3, the second
      track gets nothing. */
  lemma GreedyPicks(fa: TrackedFace, fb: TrackedFace, d0: Detection, d1: Detection)
    requires IoU(fa.box, d0.box) > IoU(fa.box, d1.box) && IoU(fa.box, d0.box) > MatchIoU
    requires IoU(fb.box, d1.box) <= MatchIoU
    ensures Assign([fa, fb], [d0, d1], 2) == [0, -1]
  {
    var faces := [fa, fb];
    var dets := [d0, d1];
    assert BestDetection(fa.box, dets, {}, 2).1 == 0 by {
      assert BestDetection(fa.box, dets, {}, 0) == (0.0, -1);
      assert BestDetection(fa.box, dets, {}, 1) == (IoU(fa.box, d0.box), 0);
    }
    AssignNext(faces, dets, 1);
    UsedOne(0);
    assert BestDetection(fb.box, dets, {0}, 2).1 == -1 by {
      assert BestDetection(fb.box, dets, {0}, 0) == (0.0, -1);
      assert BestDetection(fb.box, dets, {0}, 1) == (0.0, -1);
    }
    AssignNext(faces, dets, 2);
  }

  /** `Assign` for `n` tracks is the choices for `n - 1` and one more. */
  lemma AssignNext(faces: seq<TrackedFace>, dets: seq<Detection>, n: nat)
    requires 0 < n <= |faces|
    ensures Assign(faces, dets, n) ==
      Assign(faces, dets, n - 1) + [BestDetection(faces[n - 1].box, dets, Used(Assign(faces, dets, n - 1)), |dets|).1]
    ensures n == 1 ==> Assign(faces, dets, n) == [BestDetection(faces[0].box, dets, {}, |dets|).1]
  {
    if n == 1 {
      assert Assign(faces, dets, 0) == [];
      assert Used([]) == {};
    }
  }

  /** A single choice uses exactly its detection, if any. */
  lemma UsedOne(k: int)
    ensures k >= 0 ==> Used([k]) == {k}
    ensures k < 0 ==> Used([k]) == {}
  {
    if k >= 0 {
      assert [k][0] == k;
    }
  }

  /** The per-track greedy matching is not a best matching: track A takes
      the detection track B needed, B finds nothing left above 0.3 and is
      dropped, although pairing A with the other detection would have kept
      both (IoUs 0.43 and 0.82). */
  lemma GreedyCanDropTrack()
    ensures var a := Box(0, 0, 10, 10);
      var b := Box(4, 0, 10, 10);
      var d0 := Box(3, 0, 10, 10);
      var d1 := Box(-4, 0, 10, 10);
      var faces := [TrackedFace(0, a, DetectionAt(a), NoTracker, None, 0, 0),
                    TrackedFace(1, b, DetectionAt(b), NoTracker, None, 0, 0)];
      && Assign(faces, [DetectionAt(d0), DetectionAt(d1)], 2) == [0, -1]
      && IoU(a, d1) > MatchIoU && IoU(b, d0) > MatchIoU
  {
    var a := Box(0, 0, 10, 10);
    var b := Box(4, 0, 10, 10);
    var d0 := Box(3, 0, 10, 10);
    var d1 := Box(-4, 0, 10, 10);
    ExampleOverlapsA();
    ExampleOverlapsB();
    ExampleOverlapsC();
    ExampleOverlapsD();
    GreedyPicks(TrackedFace(0, a, DetectionAt(a), NoTracker, None, 0, 0),
                TrackedFace(1, b, DetectionAt(b), NoTracker, None, 0, 0),
                DetectionAt(d0), DetectionAt(d1));
  }

  lemma ExampleOverlapsA()
    ensures IoU(Box(0, 0, 10, 10), Box(3, 0, 10, 10)) == 70.0 / 130.0
  {
    IoUValue(Box(0, 0, 10, 10), Box(3, 0, 10, 10), 70, 130);
  }

  lemma ExampleOverlapsB()
    ensures IoU(Box(0, 0, 10, 10), Box(-4, 0, 10, 10)) == 60.0 / 140.0
  {
    IoUValue(Box(0, 0, 10, 10), Box(-4, 0, 10, 10), 60, 140);
  }

  lemma ExampleOverlapsC()
    ensures IoU(Box(4, 0, 10, 10), Box(3, 0, 10, 10)) == 90.0 / 110.0
  {
    IoUValue(Box(4, 0, 10, 10), Box(3, 0, 10, 10), 90, 110);
  }

  lemma ExampleOverlapsD()
    ensures IoU(Box(4, 0, 10, 10), Box(-4, 0, 10, 10)) == 20.0 / 180.0
  {
    IoUValue(Box(4, 0, 10, 10), Box(-4, 0, 10, 10), 20, 180);
  }
}
