/**
 * The similarity classifier of core/recognizer.py: every enrolled student is
 * scored by the best similarity between the probe embedding and the
 * student's stored references, students are ranked by a stable descending
 * sort, and the top score is mapped to RECOGNIZED / MAYBE / UNKNOWN.
 *
 * The embedding model is abstract: the probe arrives as the result of
 * embedding generation (`None` when it failed), and similarity is a given
 * function on embeddings.
 */
module Recognizer {
  import opened Options

  type StudentId = string

  /** An embedding vector, compared only through `Model.similarity`. */
  type Embedding = seq<real>

  /** Student metadata as stored in the student map, e.g. {"name": "..."}. */
  type Info = map<string, string>

  const HighConfidence: real := 0.75
  const LowConfidence: real := 0.50
  const MinConfidence: real := 0.40

  datatype Status = Recognized | Maybe | Unknown

  /** One entry of the embeddings dictionary, in its insertion order. */
  datatype Enrolled = Enrolled(id: StudentId, refs: seq<Embedding>)

  /** The recognizer's in-memory state: whether the embedding model loaded,
      the enrolled references, the student metadata and the similarity
      measure the model provides. */
  datatype Model = Model(
    loaded: bool,
    enrolled: seq<Enrolled>,
    students: map<StudentId, Info>,
    similarity: (Embedding, Embedding) -> real)

  /** A row of the ranking: `(student_id, best_score, info)`. */
  datatype Scored = Scored(id: StudentId, score: real, info: Info)

  /** The result of `match_face_with_confidence`. */
  datatype Classification = Classification(
    id: Option<StudentId>, status: Status, confidence: real, info: Info)

  /** The result of `recognize`: the classification without its status. */
  datatype Recognition = Recognition(id: Option<StudentId>, confidence: real, info: Info)

  const NoMatch := Classification(None, Unknown, 0.0, map[])

  /** `student_map.get(id, {})` */
  function InfoOf(m: Model, id: StudentId): Info
  {
    if id in m.students then m.students[id] else map[]
  }

  /** Running maximum of the similarities of `probe` to `refs`, starting from
      `acc` and replacing it only on a strictly greater score, as the loop
      over a student's references does. */
  function BestFrom(sim: (Embedding, Embedding) -> real, probe: Embedding,
                    acc: real, refs: seq<Embedding>): (r: real)
    ensures r >= acc
    ensures forall i :: 0 <= i < |refs| ==> sim(probe, refs[i]) <= r
    ensures r == acc || exists i :: 0 <= i < |refs| && sim(probe, refs[i]) == r
    decreases |refs|
  {
    if refs == [] then acc
    else
      var prev := BestFrom(sim, probe, acc, refs[..|refs| - 1]);
      var s := sim(probe, refs[|refs| - 1]);
      assert forall i :: 0 <= i < |refs| - 1 ==> refs[..|refs| - 1][i] == refs[i];
      if s > prev then s else prev
  }

  /** A student's score: the best similarity over its references, floored at
      0.0 because the running best starts there. */
  function BestScore(sim: (Embedding, Embedding) -> real, probe: Embedding,
                     refs: seq<Embedding>): (r: real)
    ensures r >= 0.0
    ensures forall i :: 0 <= i < |refs| ==> sim(probe, refs[i]) <= r
    ensures r == 0.0 || exists i :: 0 <= i < |refs| && sim(probe, refs[i]) == r
  {
    BestFrom(sim, probe, 0.0, refs)
  }

  /** The unsorted score list, one row per enrolled student in enrolment
      order. */
  function Scores(m: Model, probe: Embedding): (r: seq<Scored>)
    ensures |r| == |m.enrolled|
    ensures forall i :: 0 <= i < |r| ==>
      r[i].id == m.enrolled[i].id &&
      r[i].score == BestScore(m.similarity, probe, m.enrolled[i].refs) &&
      r[i].info == InfoOf(m, m.enrolled[i].id)
    decreases |m.enrolled|
  {
    seq(|m.enrolled|, i requires 0 <= i < |m.enrolled| =>
      Scored(m.enrolled[i].id, BestScore(m.similarity, probe, m.enrolled[i].refs),
             InfoOf(m, m.enrolled[i].id)))
  }

  ghost predicate Descending(s: seq<Scored>)
  {
    forall i, j :: 0 <= i < j < |s| ==> s[i].score >= s[j].score
  }

  /** Every row of `s` scores at most `v`. */
  ghost predicate AllAtMost(s: seq<Scored>, v: real)
  {
    forall k :: 0 <= k < |s| ==> s[k].score <= v
  }

  /** A bound on the scores carries over to any permutation. */
  lemma AtMostPermutation(a: seq<Scored>, b: seq<Scored>, v: real)
    requires multiset(a) == multiset(b) && AllAtMost(b, v)
    ensures AllAtMost(a, v)
  {
    forall k | 0 <= k < |a|
      ensures a[k].score <= v
    {
      assert a[k] in multiset(b);
      var j :| 0 <= j < |b| && b[j] == a[k];
    }
  }

  /** A row that outscores a descending list can head it. */
  lemma DescendingCons(y: Scored, s: seq<Scored>)
    requires Descending(s) && AllAtMost(s, y.score)
    ensures Descending([y] + s)
  {
    var r := [y] + s;
    forall i, j | 0 <= i < j < |r|
      ensures r[i].score >= r[j].score
    {
      if i > 0 { assert r[i] == s[i - 1] && r[j] == s[j - 1]; }
    }
  }

  /** The head of a descending list bounds all of it. */
  lemma HeadBounds(s: seq<Scored>)
    requires Descending(s) && |s| > 0
    ensures AllAtMost(s, s[0].score)
  {
  }

  /** Inserts `x` before the first row of `t` whose score is not greater than
      its own: earlier rows of the input stay ahead of later rows with the
      same score. */
  function Insert(x: Scored, t: seq<Scored>): (r: seq<Scored>)
    ensures multiset(r) == multiset(t) + multiset{x}
    ensures |r| == |t| + 1
    decreases |t|
  {
    if t == [] || t[0].score <= x.score then [x] + t
    else
      var rest := Insert(x, t[1..]);
      assert t == [t[0]] + t[1..];
      [t[0]] + rest
  }

  /** Inserting into a descending list keeps it descending. */
  lemma {:induction false} InsertDescending(x: Scored, t: seq<Scored>)
    requires Descending(t)
    ensures Descending(Insert(x, t))
    decreases |t|
  {
    if t == [] || t[0].score <= x.score {
      assert t != [] ==> AllAtMost(t, t[0].score);
      assert AllAtMost(t, x.score);
      DescendingCons(x, t);
    } else {
      var rest := Insert(x, t[1..]);
      assert t == [t[0]] + t[1..];
      assert Descending(t[1..]);
      InsertDescending(x, t[1..]);
      assert multiset(rest) == multiset(t[1..] + [x]);
      HeadBounds(t);
      assert AllAtMost(t[1..] + [x], t[0].score);
      AtMostPermutation(rest, t[1..] + [x], t[0].score);
      DescendingCons(t[0], rest);
    }
  }

  /** Python's `sort(key=score, reverse=True)`: a stable sort by descending
      score, written as an insertion sort. */
  function SortDescending(s: seq<Scored>): (r: seq<Scored>)
    ensures Descending(r)
    ensures multiset(r) == multiset(s)
    ensures |r| == |s|
    decreases |s|
  {
    if s == [] then []
    else
      assert s == [s[0]] + s[1..];
      InsertDescending(s[0], SortDescending(s[1..]));
      Insert(s[0], SortDescending(s[1..]))
  }

  /** The rows of `s` whose score is exactly `v`, in their order in `s`. */
  function WithScore(s: seq<Scored>, v: real): seq<Scored>
    decreases |s|
  {
    if s == [] then []
    else (if s[0].score == v then [s[0]] else []) + WithScore(s[1..], v)
  }

  /** Inserting `x` puts it ahead of every row that has its score. */
  lemma {:induction false} InsertWithScore(x: Scored, t: seq<Scored>, v: real)
    ensures WithScore(Insert(x, t), v) ==
      (if x.score == v then [x] else []) + WithScore(t, v)
    decreases |t|
  {
    if t == [] || t[0].score <= x.score {
      var r := [x] + t;
      assert r[1..] == t;
      assert Insert(x, t) == r;
    } else {
      InsertWithScore(x, t[1..], v);
      InsertBehind(x, t, v);
    }
  }

  /** The inductive step of `InsertWithScore`: `x` goes behind the head. */
  lemma InsertBehind(x: Scored, t: seq<Scored>, v: real)
    requires t != [] && t[0].score > x.score
    requires WithScore(Insert(x, t[1..]), v) == (if x.score == v then [x] else []) + WithScore(t[1..], v)
    ensures WithScore(Insert(x, t), v) == (if x.score == v then [x] else []) + WithScore(t, v)
  {
    var rest := Insert(x, t[1..]);
    var r := [t[0]] + rest;
    var first := if t[0].score == v then [t[0]] else [];
    assert Insert(x, t) == r;
    assert r[1..] == rest;
    assert WithScore(r, v) == first + WithScore(rest, v);
    assert WithScore(t, v) == first + WithScore(t[1..], v);
    if x.score == v {
      assert first == [];
      assert WithScore(r, v) == WithScore(rest, v);
      assert WithScore(t, v) == WithScore(t[1..], v);
    } else {
      assert WithScore(rest, v) == WithScore(t[1..], v);
    }
  }

  /** Stability: for every score value, the rows holding it appear in the
      sorted list in the same relative order as in the input. */
  lemma {:induction false} SortIsStable(s: seq<Scored>, v: real)
    ensures WithScore(SortDescending(s), v) == WithScore(s, v)
    decreases |s|
  {
    if s != [] {
      SortIsStable(s[1..], v);
      InsertWithScore(s[0], SortDescending(s[1..]), v);
    }
  }

  /** `i` is the first position of `s` holding the largest score. */
  ghost predicate EarliestBest(s: seq<Scored>, i: int)
  {
    && 0 <= i < |s|
    && AllAtMost(s, s[i].score)
    && (forall j :: 0 <= j < i ==> s[j].score < s[i].score)
  }

  /** There is only one earliest best position. */
  lemma EarliestBestUnique(s: seq<Scored>, i: int, k: int)
    requires EarliestBest(s, i) && EarliestBest(s, k)
    ensures i == k
  {
  }

  /** A row that bounds the rest of the list is its earliest best. */
  lemma HeadIsEarliestBest(s: seq<Scored>)
    requires |s| > 0 && AllAtMost(s[1..], s[0].score)
    ensures EarliestBest(s, 0)
  {
    forall k | 1 <= k < |s|
      ensures s[k].score <= s[0].score
    {
      assert s[k] == s[1..][k - 1];
    }
  }

  /** The earliest best of the tail stays the earliest best when a strictly
      lower row is put in front. */
  lemma EarliestBestShift(s: seq<Scored>, i: int)
    requires |s| > 0 && EarliestBest(s[1..], i) && s[0].score < s[1..][i].score
    ensures EarliestBest(s, i + 1)
  {
    forall k | 1 <= k < |s|
      ensures s[k].score <= s[i + 1].score
    {
      assert s[k] == s[1..][k - 1];
    }
    forall k | 1 <= k < i + 1
      ensures s[k].score < s[i + 1].score
    {
      assert s[k] == s[1..][k - 1];
    }
  }

  /** The head of the stably sorted list is the earliest row with the top
      score: on a tie, the student enrolled first wins. */
  lemma {:induction false} SortedHeadIsEarliestBest(s: seq<Scored>)
    requires |s| > 0
    ensures exists i :: EarliestBest(s, i) && SortDescending(s)[0] == s[i]
    decreases |s|
  {
    var tail := s[1..];
    var t := SortDescending(tail);
    assert SortDescending(s) == Insert(s[0], t);
    if t == [] || t[0].score <= s[0].score {
      assert Insert(s[0], t) == [s[0]] + t;
      if t != [] {
        HeadBounds(t);
        assert AllAtMost(t, s[0].score);
        AtMostPermutation(tail, t, s[0].score);
      }
      assert AllAtMost(tail, s[0].score);
      HeadIsEarliestBest(s);
      assert SortDescending(s)[0] == s[0];
    } else {
      assert Insert(s[0], t)[0] == t[0];
      SortedHeadIsEarliestBest(tail);
      var i :| EarliestBest(tail, i) && t[0] == tail[i];
      EarliestBestShift(s, i);
      assert SortDescending(s)[0] == s[i + 1];
    }
  }

  /** `_compute_all_scores`: the ranking, empty when no probe embedding. */
  function ComputeAllScores(m: Model, probe: Option<Embedding>): (r: seq<Scored>)
    ensures probe.None? ==> r == []
    ensures probe.Some? ==> |r| == |m.enrolled|
    ensures probe.Some? ==> multiset(r) == multiset(Scores(m, probe.value))
    ensures Descending(r)
  {
    if probe.None? then [] else SortDescending(Scores(m, probe.value))
  }

  /** The status band of a top score. */
  function Band(score: real): (s: Status)
    ensures s == Recognized <==> score >= HighConfidence
    ensures s == Maybe <==> LowConfidence <= score < HighConfidence
    ensures s == Unknown <==> score < LowConfidence
  {
    if score >= HighConfidence then Recognized
    else if score >= LowConfidence then Maybe
    else Unknown
  }

  function BandRank(s: Status): nat
  {
    match s
    case Unknown => 0
    case Maybe => 1
    case Recognized => 2
  }

  /** A higher top score never yields a lower band. */
  lemma BandMonotone(a: real, b: real)
    requires a <= b
    ensures BandRank(Band(a)) <= BandRank(Band(b))
  {
  }

  /** `match_face_with_confidence`: the top-ranked student with its band;
      below LOW the identity and info are suppressed but the score is kept.
      A missing model, failed embedding or empty enrolment yields
      `(None, UNKNOWN, 0.0, {})`. */
  function MatchFaceWithConfidence(m: Model, probe: Option<Embedding>): (r: Classification)
    ensures !m.loaded || probe.None? || m.enrolled == [] ==> r == NoMatch
    ensures m.loaded && probe.Some? && m.enrolled != [] ==>
      var s := Scores(m, probe.value);
      exists i :: EarliestBest(s, i) && r.confidence == s[i].score &&
        (r.confidence >= LowConfidence ==> r.id == Some(s[i].id) && r.info == s[i].info)
    ensures r.status == Recognized <==> r.confidence >= HighConfidence
    ensures r.status == Maybe <==> LowConfidence <= r.confidence < HighConfidence
    ensures r.id.Some? <==> r.status != Unknown
    ensures r.status == Unknown ==> r.info == map[]
  {
    if !m.loaded || probe.None? then NoMatch
    else
      var all := ComputeAllScores(m, probe);
      if all == [] then NoMatch
      else
        var top := all[0];
        SortedHeadIsEarliestBest(Scores(m, probe.value));
        if top.score >= HighConfidence then Classification(Some(top.id), Recognized, top.score, top.info)
        else if top.score >= LowConfidence then Classification(Some(top.id), Maybe, top.score, top.info)
        else Classification(None, Unknown, top.score, map[])
  }

  /** One enrolled student with one reference: the classifier reports that
      similarity (floored at 0.0) in its band and names the student exactly
      from LOW up. So 0.80 gives RECOGNIZED, 0.60 MAYBE and 0.30 UNKNOWN
      without an identity. */
  lemma SingleStudent(m: Model, p: Embedding, e: Embedding, id: StudentId)
    requires m.loaded && m.enrolled == [Enrolled(id, [e])]
    ensures var v := m.similarity(p, e);
      var r := MatchFaceWithConfidence(m, Some(p));
      && r.confidence == (if v > 0.0 then v else 0.0)
      && r.status == Band(r.confidence)
      && (r.id == Some(id) <==> r.confidence >= LowConfidence)
      && (r.id.None? <==> r.confidence < LowConfidence)
  {
    var s := Scores(m, p);
    var v := m.similarity(p, e);
    assert BestFrom(m.similarity, p, 0.0, [e][..0]) == 0.0;
    assert s[0].score == (if v > 0.0 then v else 0.0);
    var r := MatchFaceWithConfidence(m, Some(p));
    var i :| EarliestBest(s, i) && r.confidence == s[i].score &&
      (r.confidence >= LowConfidence ==> r.id == Some(s[i].id) && r.info == s[i].info);
    assert i == 0;
  }

  /** `recognize`: the same decision as `match_face_with_confidence`, with
      the status dropped. */
  function Recognize(m: Model, probe: Option<Embedding>): (r: Recognition)
    ensures !m.loaded || probe.None? ==> r == Recognition(None, 0.0, map[])
    ensures var c := MatchFaceWithConfidence(m, probe);
      r.id == c.id && r.confidence == c.confidence && r.info == c.info
    ensures r.id.Some? <==> r.confidence >= LowConfidence
  {
    if !m.loaded || probe.None? then Recognition(None, 0.0, map[])
    else
      var c := MatchFaceWithConfidence(m, probe);
      Recognition(c.id, c.confidence, c.info)
  }

  /** Python's `s[:n]` length for a list of length len. */
  function PrefixLen(n: int, len: nat): (k: nat)
    ensures k <= len
    ensures n >= 0 ==> k <= n
    ensures 0 <= n <= len ==> k == n
  {
    if n >= 0 then (if n <= len then n else len)
    else if len + n >= 0 then len + n else 0
  }

  /** The first `n` rows of `s`, or all of them when there are fewer. */
  function Take(s: seq<Scored>, n: nat): (r: seq<Scored>)
    ensures |r| == if n <= |s| then n else |s|
    ensures forall i :: 0 <= i < |r| ==> r[i] == s[i]
  {
    s[..PrefixLen(n, |s|)]
  }

  /** The rows scoring at least `MinConfidence`, in their original order. */
  function AtLeastMin(s: seq<Scored>): (r: seq<Scored>)
    ensures |r| <= |s|
    ensures forall i :: 0 <= i < |r| ==> r[i].score >= MinConfidence
    decreases |s|
  {
    if s == [] then []
    else (if s[0].score >= MinConfidence then [s[0]] else []) + AtLeastMin(s[1..])
  }

  /** The filter keeps exactly the rows scoring at least MIN. */
  lemma {:induction false} AtLeastMinMembers(s: seq<Scored>)
    ensures forall x :: x in AtLeastMin(s) <==> x in s && x.score >= MinConfidence
    decreases |s|
  {
    if s != [] {
      AtLeastMinMembers(s[1..]);
      assert s == [s[0]] + s[1..];
    }
  }

  /** Filtering keeps a descending list descending. */
  lemma {:induction false} AtLeastMinDescending(s: seq<Scored>)
    requires Descending(s)
    ensures Descending(AtLeastMin(s))
    decreases |s|
  {
    if s != [] {
      var rest := AtLeastMin(s[1..]);
      assert Descending(s[1..]);
      AtLeastMinDescending(s[1..]);
      AtLeastMinMembers(s[1..]);
      if s[0].score >= MinConfidence {
        forall k | 0 <= k < |rest|
          ensures rest[k].score <= s[0].score
        {
          assert rest[k] in s[1..];
        }
        DescendingCons(s[0], rest);
      }
    }
  }

  /** `get_top_matches`: the first `top_n` ranked rows, then only those
      scoring at least `MIN_CONFIDENCE`. For a non-negative `top_n` this is
      the first `top_n` qualifying rows of the stable ranking
      (`TruncateThenFilter`). */
  function TopMatches(m: Model, probe: Option<Embedding>, topN: int): (r: seq<Scored>)
    ensures !m.loaded || probe.None? || m.enrolled == [] ==> r == []
    ensures topN >= 0 ==> |r| <= topN
    ensures forall i :: 0 <= i < |r| ==> r[i].score >= MinConfidence
    ensures Descending(r)
    ensures m.loaded ==> forall x :: x in r <==>
      x in ComputeAllScores(m, probe)[..PrefixLen(topN, |ComputeAllScores(m, probe)|)] &&
      x.score >= MinConfidence
    ensures m.loaded && probe.Some? && topN >= 0 ==> r == Take(AtLeastMin(ComputeAllScores(m, probe)), topN)
  {
    if !m.loaded || probe.None? then []
    else
      var all := ComputeAllScores(m, probe);
      var prefix := all[..PrefixLen(topN, |all|)];
      assert Descending(prefix);
      AtLeastMinDescending(prefix);
      AtLeastMinMembers(prefix);
      if topN >= 0 then
        TruncateThenFilter(all, topN);
        assert prefix == Take(all, topN);
        AtLeastMin(prefix)
      else
        AtLeastMin(prefix)
  }

  /** On a descending list the rows scoring at least MIN form a prefix, so
      truncating to n before filtering keeps exactly the first n qualifying
      rows: it agrees with filtering first and truncating afterwards. */
  lemma {:induction false} TruncateThenFilter(s: seq<Scored>, n: nat)
    requires Descending(s)
    ensures AtLeastMin(Take(s, n)) == Take(AtLeastMin(s), n)
    decreases |s|
  {
    if s == [] || n == 0 {
      assert Take(s, n) == [];
    } else if s[0].score >= MinConfidence {
      assert Descending(s[1..]);
      TruncateThenFilter(s[1..], n - 1);
      TruncateStep(s, n);
    } else {
      NoneAtLeastMin(s);
      assert Descending(Take(s, n));
      NoneAtLeastMin(Take(s, n));
    }
  }

  /** The inductive step of `TruncateThenFilter` when the head qualifies. */
  lemma TruncateStep(s: seq<Scored>, n: nat)
    requires |s| > 0 && n > 0 && s[0].score >= MinConfidence
    requires AtLeastMin(Take(s[1..], n - 1)) == Take(AtLeastMin(s[1..]), n - 1)
    ensures AtLeastMin(Take(s, n)) == Take(AtLeastMin(s), n)
  {
    var u := Take(s[1..], n - 1);
    var f' := AtLeastMin(s[1..]);
    TakeHead(s, n);
    AtLeastMinCons(s[0], u);
    AtLeastMinHead(s);
    TakeCons(s[0], f', n);
  }

  /** A qualifying head is kept in front. */
  lemma AtLeastMinHead(s: seq<Scored>)
    requires |s| > 0 && s[0].score >= MinConfidence
    ensures AtLeastMin(s) == [s[0]] + AtLeastMin(s[1..])
  {
  }

  /** A qualifying head stays in front of the filtered rest. */
  lemma AtLeastMinCons(x: Scored, r: seq<Scored>)
    requires x.score >= MinConfidence
    ensures AtLeastMin([x] + r) == [x] + AtLeastMin(r)
  {
    assert ([x] + r)[1..] == r;
  }

  /** Taking from a non-empty list keeps its head. */
  lemma TakeHead(s: seq<Scored>, n: nat)
    requires |s| > 0 && n > 0
    ensures Take(s, n) == [s[0]] + Take(s[1..], n - 1)
  {
    assert s == [s[0]] + s[1..];
    TakeCons(s[0], s[1..], n);
  }

  /** Taking from a list with a head keeps the head and takes one fewer
      from the rest. */
  lemma TakeCons(x: Scored, r: seq<Scored>, n: nat)
    requires n > 0
    ensures Take([x] + r, n) == [x] + Take(r, n - 1)
  {
    var l := Take([x] + r, n);
    var k := Take(r, n - 1);
    assert |l| == |k| + 1;
    forall i | 0 <= i < |l| ensures l[i] == ([x] + k)[i] {
      if i > 0 { assert l[i] == r[i - 1]; }
    }
  }

  /** When the first row of a descending list is below MIN, so is every row. */
  lemma NoneAtLeastMin(s: seq<Scored>)
    requires Descending(s) && |s| > 0 && s[0].score < MinConfidence
    ensures AtLeastMin(s) == []
  {
    assert forall j :: 0 <= j < |s| ==> s[j].score < MinConfidence;
    AtLeastMinMembers(s);
  }
}
