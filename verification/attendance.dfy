/**
 * The attendance decision engine of core/attendance_manager.py
 * (`AttendanceManager`): a per-student cooldown table, an at-most-once mark
 * that appends to today's log, the advisory `should_mark_attendance`
 * decision, and statistics over today's log.
 *
 * The wall clock is the parameter `now` (seconds), the clock text of a
 * record is the parameter `timeText`, and the database is reduced to
 * whether one is attached and whether its write succeeds.
 */
module Attendance {
  import opened Options
  import opened Geometry

  const HighConfidence: real := 0.75
  const LowConfidence: real := 0.50
  const DefaultCooldown: real := 900.0
  const DefaultMarkedBy: string := "face_recognition"

  /** One entry of today's log. `confidence` is the value the log keeps,
      already rounded to two decimals. */
  datatype Record = Record(id: string, name: string, time: string, confidence: real, markedBy: string)

  /** The manager's state: cooldown length, the time of each student's last
      mark, today's log, and whether a database is attached. */
  datatype Manager = Manager(cooldown: real, lastMarked: map<string, real>, todayLog: seq<Record>, hasDb: bool)

  /** A manager without a database or history (the constructor's history
      loading is not modelled). */
  function NewManager(cooldown: real): (m: Manager)
    ensures m.cooldown == cooldown && m.lastMarked == map[] && m.todayLog == [] && !m.hasDb
  {
    Manager(cooldown, map[], [], false)
  }

  /** `last_marked.get(student_id, 0)` */
  function LastTime(m: Manager, id: string): real
  {
    if id in m.lastMarked then m.lastMarked[id] else 0.0
  }

  predicate InCooldown(m: Manager, id: string, now: real)
  {
    now - LastTime(m, id) < m.cooldown
  }

  /** The whole seconds left, `int(cooldown - (now - last))`. */
  function WaitSeconds(m: Manager, id: string, now: real): (w: int)
    requires InCooldown(m, id, now)
    ensures w >= 0
    ensures w as real <= m.cooldown - (now - LastTime(m, id)) < w as real + 1.0
  {
    Trunc(m.cooldown - (now - LastTime(m, id)))
  }

  // ------------------------------------------------ should_mark_attendance

  datatype Action = AutoMark | MaybeMark | UnknownPerson | Cooldown

  datatype DecisionStatus = NotRecognized | RecognizedStatus | MaybeStatus

  datatype DecisionMessage =
    | AlreadyMarkedWait(seconds: int)
    | HighConfidenceMessage
    | MediumConfidenceMessage(confidence: real)
    | UnknownPersonMessage

  datatype Decision = Decision(
    action: Action,
    status: DecisionStatus,
    requiresVerification: bool,
    message: DecisionMessage,
    canMark: bool)

  /** Python truthiness of the optional `student_id`: absent or empty means
      no cooldown check. */
  predicate Truthy(id: Option<string>)
  {
    id.Some? && id.value != ""
  }

  /** `should_mark_attendance`: a pure decision; the manager is only read. */
  function ShouldMark(m: Manager, confidence: real, id: Option<string>, now: real): (d: Decision)
    ensures d.action == Cooldown <==> Truthy(id) && InCooldown(m, id.value, now)
    ensures d.action == Cooldown ==>
      && !d.canMark && d.status == NotRecognized && d.requiresVerification
      && d.message == AlreadyMarkedWait(WaitSeconds(m, id.value, now))
    ensures d.action != Cooldown ==> d.canMark
    ensures d.action == AutoMark <==> d.action != Cooldown && confidence >= HighConfidence
    ensures d.action == MaybeMark <==> d.action != Cooldown && LowConfidence <= confidence < HighConfidence
    ensures d.action == UnknownPerson <==> d.action != Cooldown && confidence < LowConfidence
    ensures d.requiresVerification <==> d.action != AutoMark
    ensures d.action == AutoMark ==> d.status == RecognizedStatus && d.message == HighConfidenceMessage
    ensures d.action == UnknownPerson ==> d.status == NotRecognized && d.message == UnknownPersonMessage
    ensures d.action == MaybeMark ==> d.status == MaybeStatus && d.message == MediumConfidenceMessage(confidence)
  {
    if Truthy(id) && InCooldown(m, id.value, now) then
      Decision(Cooldown, NotRecognized, true, AlreadyMarkedWait(WaitSeconds(m, id.value, now)), false)
    else if confidence >= HighConfidence then
      Decision(AutoMark, RecognizedStatus, false, HighConfidenceMessage, true)
    else if confidence >= LowConfidence then
      Decision(MaybeMark, MaybeStatus, true, MediumConfidenceMessage(confidence), true)
    else
      Decision(UnknownPerson, NotRecognized, true, UnknownPersonMessage, true)
  }

  // ------------------------------------------------------- mark_attendance

  /** `f"{confidence:.2f}"` read back as a number: the nearest hundredth,
      ties to the even hundredth. */
  function Round2(c: real): (r: real)
    ensures -0.005 <= r - c <= 0.005
    ensures (r * 100.0).Floor as real == r * 100.0
    ensures r * 100.0 - c * 100.0 == 0.5 || c * 100.0 - r * 100.0 == 0.5 ==> (r * 100.0).Floor % 2 == 0
  {
    var scaled := c * 100.0;
    var n := scaled.Floor;
    var frac := scaled - n as real;
    var k := if frac > 0.5 then n + 1 else if frac < 0.5 then n else if n % 2 == 0 then n else n + 1;
    assert (k as real / 100.0) * 100.0 == k as real;
    k as real / 100.0
  }

  /** The distance between two reals. */
  function Dist(a: real, b: real): real
  {
    if a >= b then a - b else b - a
  }

  /** No hundredth is closer to `c` than `Round2(c)`. */
  lemma Round2Nearest(c: real, k: int)
    ensures Dist(Round2(c) * 100.0, c * 100.0) <= Dist(k as real, c * 100.0)
  {
    var n := (Round2(c) * 100.0).Floor;
    assert n as real == Round2(c) * 100.0;
    if k != n {
      assert k <= n - 1 || k >= n + 1;
    }
  }

  /** A value already rounded to hundredths is left unchanged. */
  lemma Round2Idempotent(c: real)
    ensures Round2(Round2(c)) == Round2(c)
  {
    var r := Round2(c);
    var n := (r * 100.0).Floor;
    assert n as real == r * 100.0;
    assert (r * 100.0).Floor == n;
    assert r == n as real / 100.0;
  }

  datatype MarkMessage = AlreadyMarked(seconds: int) | DatabaseError | MarkedPresent

  /** `mark_attendance`. `writeOk` is what the database write returns. */
  function Mark(m: Manager, id: string, name: string, confidence: real, markedBy: string,
                now: real, timeText: string, writeOk: bool): (r: (bool, MarkMessage, Manager))
    ensures InCooldown(m, id, now) ==> r == (false, AlreadyMarked(WaitSeconds(m, id, now)), m)
    ensures !InCooldown(m, id, now) && m.hasDb && !writeOk ==> r == (false, DatabaseError, m)
    ensures r.0 <==> !InCooldown(m, id, now) && (!m.hasDb || writeOk)
    ensures !r.0 ==> r.2 == m
    ensures r.0 ==>
      && r.1 == MarkedPresent
      && r.2.cooldown == m.cooldown && r.2.hasDb == m.hasDb
      && r.2.todayLog == m.todayLog + [Record(id, name, timeText, Round2(confidence), markedBy)]
      && r.2.lastMarked == m.lastMarked[id := now]
  {
    if InCooldown(m, id, now) then (false, AlreadyMarked(WaitSeconds(m, id, now)), m)
    else if m.hasDb && !writeOk then (false, DatabaseError, m)
    else
      var rec := Record(id, name, timeText, Round2(confidence), markedBy);
      (true, MarkedPresent, m.(todayLog := m.todayLog + [rec], lastMarked := m.lastMarked[id := now]))
  }

  /** For a real student id, the advisory decision reports a cooldown
      exactly when a mark would be refused for one, with the same wait. */
  lemma DecisionAgreesWithMark(m: Manager, id: string, confidence: real, name: string, markedBy: string,
                               now: real, timeText: string, writeOk: bool)
    requires id != ""
    ensures var d := ShouldMark(m, confidence, Some(id), now);
      var r := Mark(m, id, name, confidence, markedBy, now, timeText, writeOk);
      (d.action == Cooldown <==> r.1.AlreadyMarked?) &&
      (d.action == Cooldown ==> d.message.seconds == r.1.seconds)
  {
  }

  /** A student never marked before passes the cooldown once `now` has
      reached the cooldown length (the missing entry counts as time 0). */
  lemma FirstMarkPasses(m: Manager, id: string, now: real)
    requires id !in m.lastMarked && now >= m.cooldown
    ensures !InCooldown(m, id, now)
  {
  }

  /** With the default 900 s cooldown, a second mark 10 s after the first
      is refused with 890 s to wait, and nothing changes. */
  lemma CooldownExample(m: Manager, id: string, t: real)
    requires m.cooldown == DefaultCooldown && !m.hasDb && t >= DefaultCooldown
    requires id !in m.lastMarked
    ensures var first := Mark(m, id, "A", 0.9, DefaultMarkedBy, t, "09:00:00", true);
      var second := Mark(first.2, id, "A", 0.9, DefaultMarkedBy, t + 10.0, "09:00:10", true);
      first.0 && second == (false, AlreadyMarked(890), first.2)
  {
    var first := Mark(m, id, "A", 0.9, DefaultMarkedBy, t, "09:00:00", true);
    assert LastTime(first.2, id) == t;
    assert Trunc(890.0) == 890;
  }

  // --------------------------------------------------------------- traces

  /** One call of `mark_attendance` with its clock reading and database
      outcome. */
  datatype Request = Request(id: string, name: string, confidence: real, markedBy: string,
                             now: real, timeText: string, writeOk: bool)

  function Apply(m: Manager, q: Request): (bool, MarkMessage, Manager)
  {
    Mark(m, q.id, q.name, q.confidence, q.markedBy, q.now, q.timeText, q.writeOk)
  }

  /** The manager after a sequence of calls. */
  function Run(m: Manager, qs: seq<Request>): (r: Manager)
    ensures r.cooldown == m.cooldown && r.hasDb == m.hasDb
    ensures |r.todayLog| >= |m.todayLog| && r.todayLog[..|m.todayLog|] == m.todayLog
    decreases |qs|
  {
    if qs == [] then m
    else
      var prev := Run(m, qs[..|qs| - 1]);
      var next := Apply(prev, qs[|qs| - 1]).2;
      assert next.todayLog[..|m.todayLog|] == prev.todayLog[..|m.todayLog|];
      next
  }

  /** The (student, time) of every call in the sequence that succeeded. */
  function Successes(m: Manager, qs: seq<Request>): (r: seq<(string, real)>)
    ensures |r| <= |qs|
    decreases |qs|
  {
    if qs == [] then []
    else
      var prev := Successes(m, qs[..|qs| - 1]);
      var q := qs[|qs| - 1];
      if Apply(Run(m, qs[..|qs| - 1]), q).0 then prev + [(q.id, q.now)] else prev
  }

  /** Every success of the trace is remembered in the cooldown table at a
      time no earlier than itself. */
  ghost predicate Remembered(r: Manager, succ: seq<(string, real)>)
  {
    forall k :: 0 <= k < |succ| ==> succ[k].0 in r.lastMarked && r.lastMarked[succ[k].0] >= succ[k].1
  }

  /** Any two entries for the same student are at least `gap` apart. */
  ghost predicate Spaced(succ: seq<(string, real)>, gap: real)
  {
    forall i, j :: 0 <= i < j < |succ| && succ[i].0 == succ[j].0 ==> succ[j].1 - succ[i].1 >= gap
  }

  /** The log grows by exactly the successful calls. */
  lemma {:induction false} LogCountsSuccesses(m: Manager, qs: seq<Request>)
    ensures |Run(m, qs).todayLog| == |m.todayLog| + |Successes(m, qs)|
    decreases |qs|
  {
    if qs != [] {
      LogCountsSuccesses(m, qs[..|qs| - 1]);
    }
  }

  /** At-most-once per cooldown: with a non-negative cooldown, any two
      successful marks of the same student in a trace are at least the
      cooldown apart, whatever the clock does in between. */
  lemma {:induction false} MarksAreSpaced(m: Manager, qs: seq<Request>)
    requires m.cooldown >= 0.0
    ensures Remembered(Run(m, qs), Successes(m, qs))
    ensures Spaced(Successes(m, qs), m.cooldown)
    decreases |qs|
  {
    if qs != [] {
      var init := qs[..|qs| - 1];
      var q := qs[|qs| - 1];
      var prev := Run(m, init);
      var s0 := Successes(m, init);
      MarksAreSpaced(m, init);
      var r := Apply(prev, q);
      assert Run(m, qs) == r.2;
      if r.0 {
        var s := Successes(m, qs);
        assert s == s0 + [(q.id, q.now)];
        forall k | 0 <= k < |s0| && s0[k].0 == q.id ensures q.now - s0[k].1 >= m.cooldown {
          assert prev.lastMarked[q.id] >= s0[k].1;
        }
        forall k | 0 <= k < |s|
          ensures s[k].0 in r.2.lastMarked && r.2.lastMarked[s[k].0] >= s[k].1
        {
          if k < |s0| {
            assert s[k] == s0[k];
            if s0[k].0 == q.id {
              assert prev.lastMarked[q.id] >= s0[k].1;
            }
          }
        }
        forall i, j | 0 <= i < j < |s| && s[i].0 == s[j].0 ensures s[j].1 - s[i].1 >= m.cooldown {
          if j < |s0| {
            assert s[i] == s0[i] && s[j] == s0[j];
          } else {
            assert s[i] == s0[i];
          }
        }
      } else {
        assert Successes(m, qs) == s0;
      }
    }
  }

  // ------------------------------------------------------------ statistics

  /** `get_todays_count`: one per record in today's log. `MarkCounts` says
      how a mark changes it. */
  function TodaysCount(m: Manager): (n: nat)
    ensures n == |m.todayLog|
    ensures n == 0 <==> m.todayLog == []
    ensures ConfidenceStats(m).high + ConfidenceStats(m).low <= n
  {
    HighLowDisjoint(m.todayLog);
    |m.todayLog|
  }

  /** A successful mark adds exactly one to today's count; a refused one
      adds nothing. */
  lemma MarkCounts(m: Manager, id: string, name: string, confidence: real, markedBy: string,
                   now: real, timeText: string, writeOk: bool)
    ensures var r := Mark(m, id, name, confidence, markedBy, now, timeText, writeOk);
      TodaysCount(r.2) == TodaysCount(m) + (if r.0 then 1 else 0)
  {
  }

  function HighCount(log: seq<Record>): (n: nat)
    ensures n <= |log|
    decreases |log|
  {
    if log == [] then 0
    else HighCount(log[..|log| - 1]) + (if log[|log| - 1].confidence >= HighConfidence then 1 else 0)
  }

  function LowCount(log: seq<Record>): (n: nat)
    ensures n <= |log|
    decreases |log|
  {
    if log == [] then 0
    else LowCount(log[..|log| - 1]) + (if log[|log| - 1].confidence < LowConfidence then 1 else 0)
  }

  function Sum(log: seq<Record>): real
    decreases |log|
  {
    if log == [] then 0.0 else Sum(log[..|log| - 1]) + log[|log| - 1].confidence
  }

  datatype Stats = Stats(high: nat, low: nat, avg: real)

  /** `get_confidence_stats`. How a mark moves the counts is `MarkStats`;
      that they fit in the log is `HighLowDisjoint`, and that the average
      lies between the extreme confidences is `AverageBounds`. */
  function ConfidenceStats(m: Manager): (st: Stats)
    ensures m.todayLog == [] ==> st == Stats(0, 0, 0.0)
    ensures m.todayLog != [] ==>
      st.high == HighCount(m.todayLog) && st.low == LowCount(m.todayLog) &&
      st.avg * |m.todayLog| as real == Sum(m.todayLog)
  {
    if m.todayLog == [] then Stats(0, 0, 0.0)
    else Stats(HighCount(m.todayLog), LowCount(m.todayLog), Sum(m.todayLog) / |m.todayLog| as real)
  }

  /** No record is both high and low: the two counts never exceed the log. */
  lemma {:induction false} HighLowDisjoint(log: seq<Record>)
    ensures HighCount(log) + LowCount(log) <= |log|
    decreases |log|
  {
    if log != [] {
      HighLowDisjoint(log[..|log| - 1]);
    }
  }

  /** The average lies between the smallest and the largest logged
      confidence. */
  lemma {:induction false} SumBounds(log: seq<Record>, lo: real, hi: real)
    requires forall k :: 0 <= k < |log| ==> lo <= log[k].confidence <= hi
    ensures lo * |log| as real <= Sum(log) <= hi * |log| as real
    decreases |log|
  {
    if log != [] {
      SumBounds(log[..|log| - 1], lo, hi);
    }
  }

  lemma AverageBounds(m: Manager, lo: real, hi: real)
    requires m.todayLog != []
    requires forall k :: 0 <= k < |m.todayLog| ==> lo <= m.todayLog[k].confidence <= hi
    ensures lo <= ConfidenceStats(m).avg <= hi
  {
    SumBounds(m.todayLog, lo, hi);
    MeanBounds(Sum(m.todayLog), |m.todayLog| as real, lo, hi);
  }

  /** A total between `n * lo` and `n * hi` has its mean between `lo` and `hi`. */
  lemma MeanBounds(sum: real, n: real, lo: real, hi: real)
    requires n > 0.0 && lo * n <= sum <= hi * n
    ensures lo <= sum / n <= hi
  {
    var a := sum / n;
    assert a * n == sum;
    assert (a - lo) * n >= 0.0 && (hi - a) * n >= 0.0;
  }

  /** A successful mark counts as high exactly when its rounded confidence
      is at least 0.75, and the statistics only see the rounded value. */
  lemma MarkStats(m: Manager, id: string, name: string, confidence: real, markedBy: string,
                  now: real, timeText: string, writeOk: bool)
    ensures var r := Mark(m, id, name, confidence, markedBy, now, timeText, writeOk);
      r.0 ==>
        && HighCount(r.2.todayLog) == HighCount(m.todayLog) + (if Round2(confidence) >= HighConfidence then 1 else 0)
        && LowCount(r.2.todayLog) == LowCount(m.todayLog) + (if Round2(confidence) < LowConfidence then 1 else 0)
  {
    var r := Mark(m, id, name, confidence, markedBy, now, timeText, writeOk);
    if r.0 {
      assert r.2.todayLog[..|r.2.todayLog| - 1] == m.todayLog;
    }
  }

  /** Because the log keeps the two-decimal text, a mark below 0.75 can
      count as high: 0.749 is logged as 0.75. */
  lemma RoundingCountsAsHigh()
    ensures Round2(0.749) == 0.75 && 0.749 < HighConfidence
  {
    assert (0.749 * 100.0).Floor == 74;
  }
}
