/**
 * The older recognizer of backend/core/recognizer.py. Once an embedding
 * exists, its scoring, `match_face_with_confidence` and `get_top_matches`
 * are the same code as in core/recognizer.py, so they are the `Recognizer`
 * members. Embedding generation differs: the backend resizes the crop
 * before its error handling, so an empty crop raises where the core
 * recognizer reports no embedding; the model only sees the embedding's
 * outcome, `probe`, and covers the "no embedding" case. What is its own is
 * the thresholded `recognize`: one scan over every (student, reference)
 * pair keeping the first strictly greater similarity, and an identity only
 * when that best score exceeds `threshold`.
 */
module LegacyRecognizer {
  import opened Options
  import opened Recognizer

  const DefaultThreshold: real := 0.6

  /** `recognize(face_image)` of the backend recognizer. `probe` is the
      result of embedding generation. */
  method Recognize(m: Model, probe: Option<Embedding>, threshold: real)
    returns (id: Option<StudentId>, confidence: real, info: Info)
    ensures !m.loaded || probe.None? ==> id == None && confidence == 0.0 && info == map[]
    ensures m.loaded && probe.Some? ==>
      var s := Scores(m, probe.value);
      && confidence >= 0.0
      && AllAtMost(s, confidence)
      && (confidence == 0.0 || exists k :: 0 <= k < |s| && s[k].score == confidence)
      && (id.Some? ==> exists k :: EarliestBest(s, k) && s[k].id == id.value)
      && (confidence > threshold && confidence > 0.0 ==> id.Some?)
    ensures m.loaded && probe.Some? && m.enrolled != [] ==>
      var top := ComputeAllScores(m, probe)[0];
      confidence == top.score && (id.Some? ==> id.value == top.id)
    ensures id.Some? ==> confidence > threshold && confidence > 0.0 && info == InfoOf(m, id.value)
    ensures confidence <= threshold ==> id == None && info == map[]
  {
    if !m.loaded || probe.None? {
      return None, 0.0, map[];
    }
    var best, bestId, bestIdx := Scan(m, probe.value);
    ghost var s := Scores(m, probe.value);
    if s != [] {
      ghost var top := ComputeAllScores(m, probe);
      SortedHeadIsEarliestBest(s);
      ghost var h :| EarliestBest(s, h) && top[0] == s[h];
      if bestIdx != -1 {
        EarliestBestUnique(s, h, bestIdx);
      } else {
        assert s[h].score >= 0.0;
      }
    }
    if best > threshold {
      return bestId, best, if bestId.Some? then InfoOf(m, bestId.value) else map[];
    }
    return None, best, map[];
  }

  /** The scan over every (student, reference) pair: the first strictly
      greatest similarity above 0.0 and its student, or 0.0 and no student
      when no similarity is positive. `bestIdx` is the student's position. */
  method Scan(m: Model, p: Embedding)
    returns (best: real, bestId: Option<StudentId>, ghost bestIdx: int)
    ensures best >= 0.0 && AllAtMost(Scores(m, p), best)
    ensures best == 0.0 <==> bestId == None
    ensures bestId.Some? ==>
      exists k :: EarliestBest(Scores(m, p), k) && bestId.value == Scores(m, p)[k].id && Scores(m, p)[k].score == best
    ensures var s := Scores(m, p);
      && (bestId == None <==> bestIdx == -1)
      && (bestIdx != -1 ==> EarliestBest(s, bestIdx) && bestId == Some(s[bestIdx].id) && s[bestIdx].score == best)
  {
    ghost var s := Scores(m, p);
    best := 0.0;
    bestId := None;
    bestIdx := -1;
    var i := 0;
    while i < |m.enrolled|
      invariant i <= |m.enrolled|
      invariant ScanInv(s, i, best, bestIdx)
      invariant bestIdx == -1 <==> bestId == None
      invariant bestIdx != -1 ==> bestId == Some(s[bestIdx].id)
    {
      var b := ScanRefs(m.similarity, p, m.enrolled[i].refs, best);
      ScanStep(s, i, best, bestIdx);
      if b > best {
        best, bestId, bestIdx := b, Some(m.enrolled[i].id), i;
      }
      i := i + 1;
    }
    assert s[..i] == s;
  }

  /** What the scan has established after the first `i` students: `best`
      bounds their scores, and it is 0.0 exactly when no student has been
      picked, else the score of the earliest student holding it. */
  ghost predicate ScanInv(s: seq<Scored>, i: int, best: real, idx: int)
  {
    && 0 <= i <= |s|
    && best >= 0.0
    && AllAtMost(s[..i], best)
    && (best == 0.0 <==> idx == -1)
    && (idx != -1 ==> 0 <= idx < i && s[idx].score == best && forall j :: 0 <= j < idx ==> s[j].score < best)
  }

  /** One student more: the scan replaces its pick only on a strictly
      greater score. */
  lemma ScanStep(s: seq<Scored>, i: int, best: real, idx: int)
    requires i < |s| && ScanInv(s, i, best, idx)
    ensures s[i].score > best ==> ScanInv(s, i + 1, s[i].score, i)
    ensures s[i].score <= best ==> ScanInv(s, i + 1, best, idx)
  {
    assert s[..i + 1] == s[..i] + [s[i]];
  }

  /** The inner loop over one student's references, starting from the best
      score so far: afterwards the best score is the larger of the two. */
  method ScanRefs(sim: (Embedding, Embedding) -> real, p: Embedding, refs: seq<Embedding>, before: real)
    returns (best: real)
    requires before >= 0.0
    ensures best == if BestScore(sim, p, refs) > before then BestScore(sim, p, refs) else before
  {
    best := before;
    var j := 0;
    while j < |refs|
      invariant 0 <= j <= |refs|
      invariant best >= before
      invariant forall t :: 0 <= t < j ==> sim(p, refs[t]) <= best
      invariant best > before ==> exists t :: 0 <= t < j && sim(p, refs[t]) == best
    {
      var score := sim(p, refs[j]);
      if score > best {
        best := score;
      }
      j := j + 1;
    }
    var top := BestScore(sim, p, refs);
    if best > before {
      var t :| 0 <= t < |refs| && sim(p, refs[t]) == best;
      assert top >= best;
    }
  }
}
