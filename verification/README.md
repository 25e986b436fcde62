# Quickroll attendance core in Dafny

A Dafny model of the decision logic of the Quickroll face-attendance system.
Camera frames, the face detector, the embedding network and the database are
not modelled. Each one becomes an input: what it would report on a given
frame or call. The model covers the following modules:

- `Geometry` (geometry.dfy): integer boxes and detector output. It also
  holds the tracker's intersection-over-union (IoU) and the length of a
  Python/NumPy slice, which decides every crop.
- `Recognizer` (recognizer.dfy): `Recognizer` of core/recognizer.py.
  - Each student is scored by its best reference similarity.
  - Students are ranked by a stable descending sort.
  - The top score falls into a RECOGNIZED (≥ 0.75), MAYBE (≥ 0.50) or
    UNKNOWN band.
  - `get_top_matches` keeps the first `top_n` rows that score at least
    0.40.
- `LegacyRecognizer` (legacy_recognizer.dfy): the thresholded `recognize`
  of backend/core/recognizer.py. That file's `_compute_all_scores`,
  `match_face_with_confidence` and `get_top_matches` are the same code as
  in core/recognizer.py once an embedding exists, and they are modelled by
  the `Recognizer` members. The embedding call differs: the backend resizes
  the crop to 112x112 outside its error handling, so an empty crop raises
  an exception instead of yielding "no embedding". The model takes the
  embedding as an input and covers only the "no embedding" outcome.
- `TemplateTracking` (template_tracker.dfy): the template-matching
  fallback tracker.
- `FrameTracking` (frame_tracker.dfy): `TrackedFace` and `FrameTracker`.
  - Each frame runs either a detection pass or a tracking pass.
  - A detection pass matches each track greedily, in insertion order, to
    its best free detection by IoU. Unmatched detections become new tracks
    with fresh ids.
  - A tracking pass updates every track's tracker and evicts the tracks
    that fail.
  - A recognition pass runs on detection frames (aligned) and every
    `recognition_interval` frames (cropped).
- `TrackerProperties` (tracker_properties.dfy): the invariants of the
  frame tracker.
  - Ids are increasing and never reissued while the tracker lives.
  - Live tracks have no failures.
  - The matching is sound and exact.
  - The eviction rule holds as written.
- `Attendance` (attendance.dfy): `AttendanceManager`. It covers the
  cooldown, `should_mark_attendance`, `mark_attendance`, and today's count
  and confidence statistics.
- `FaceValidation` (face_validator.dfy): `FaceValidator` of core/face_validator.py, the yaw
  estimate from three landmark x-coordinates and the quality check.
- `Capture` (capture.dfy): the enrolment capture state machine of
  `CaptureManager`, which walks through the poses front, left and right.

The code differs from the system's design description in several places.
In each case the model follows the code, and a lemma shows the behaviour:

- **Eviction on the first failure.** The design says a track is evicted
  once its consecutive tracking failures reach `max_tracking_failures`
  (default 3). The code drops a track on its first failed update
  (`not success or …`), and a non-positive limit drops every track
  (`TrackerProperties.FirstFailureEvicts`).
- **Greedy matching per track.** The design describes a global
  highest-IoU-first matching. The code lets each track, in insertion order,
  take its best detection among those not yet taken. A track can therefore
  be dropped although a one-to-one matching keeping it exists
  (`TrackerProperties.AssignIsGreedy`, `TrackerProperties.GreedyCanDropTrack`).
- **Ids reused after reset.** The design says track ids are never reused.
  `reset` sets the id counter back to 0, so ids are unique only between two
  resets (`TrackerProperties.ProcessFrameValid`,
  `TrackerProperties.ResetReusesIds`).
- **Stale thresholds in a docstring.** The docstring of
  `match_face_with_confidence` in backend/core/recognizer.py gives the
  thresholds as 0.65 and 0.45. The code uses the class constants 0.75 and
  0.50, and so does the model.
- **Off-frame crops wrap.** The padded crop of a box lying more than the
  padding off the top-left corner has negative slice ends. NumPy counts
  those from the far edge, so the crop is most of the frame rather than
  empty (`TrackerProperties.CropOffFrameWraps`).
- **"Too Small" lost on an empty region.** When the face region is empty,
  the quality check returns only "Invalid ROI" and drops a "Too Small"
  finding it has already made (`FaceValidation.QualityExamples`).
- **Rounding in the statistics.** The attendance log stores the confidence
  as two-decimal text, and the statistics read that text back. A 0.749 match
  therefore counts as high confidence (`Attendance.RoundingCountsAsHigh`).

## Model

| member | source | states |
|---|---|---|
| Geometry.IoU | core/frame_tracker.py:354-380 | IoU is never negative. It is 0 for boxes that do not share a positive-area region, and positive only for boxes that do. For boxes of non-negative size it is at most 1. |
| Geometry.InterBounded | core/frame_tracker.py:363-373 | For overlapping boxes, the intersection area is positive and no larger than either box's own area. |
| Geometry.IoUSymmetric | core/frame_tracker.py:354-380 | IoU does not depend on the order of the two boxes. |
| Geometry.IoUSelf | core/frame_tracker.py:354-380 | A box of positive area has IoU exactly 1 with itself. |
| Geometry.SliceLen | core/frame_tracker.py:347 | Number of elements a Python slice `[start:stop]` selects. It never exceeds the length, equals `stop - start` for in-range bounds, and is empty when `stop <= start`. |
| Geometry.PaddedCrop | core/frame_tracker.py:337-347 | A padded and clamped crop always lies inside the frame. For a box inside the frame, its corners are the clamped padded corners. |
| Geometry.PaddedCropContains | core/capture_manager.py:128-133 | A non-empty box inside the frame gives a non-empty crop that contains the whole box. |
| Recognizer.BestFrom | core/recognizer.py:109-113 | The running best is at least its start value and bounds every reference similarity. It is either the start value or one of those similarities. |
| Recognizer.BestScore | core/recognizer.py:108-115 | A student's score is at least 0.0 and bounds all its reference similarities. It is 0.0 or attained by one of them. |
| Recognizer.Scores | core/recognizer.py:107-115 | One row per enrolled student, in enrolment order. Each row holds that student's best score and its metadata (empty when missing). |
| Recognizer.Insert | core/recognizer.py:118 | One insertion step of the sort adds exactly the new row to the list's contents. |
| Recognizer.InsertDescending | core/recognizer.py:118 | Inserting into a descending list keeps it descending. |
| Recognizer.SortDescending | core/recognizer.py:118 | The sorted ranking is descending by score and a permutation of its input. |
| Recognizer.SortIsStable | core/recognizer.py:118 | The sort is stable: rows with equal scores keep their input order. |
| Recognizer.SortedHeadIsEarliestBest | core/recognizer.py:118 | The first sorted row is the earliest-enrolled student holding the top score, so ties go to the first enrolled. |
| Recognizer.ComputeAllScores | core/recognizer.py:99-119 | Empty without an embedding. Otherwise one row per student, a permutation of the per-student scores, in descending order. |
| Recognizer.Band | core/recognizer.py:162-171 | RECOGNIZED exactly at or above 0.75, MAYBE exactly in [0.50, 0.75), UNKNOWN exactly below 0.50. |
| Recognizer.BandMonotone | core/recognizer.py:162-171 | A higher top score never gives a lower band. |
| Recognizer.MatchFaceWithConfidence | core/recognizer.py:136-171 | Without a model, an embedding or any enrolled student, the answer is (None, UNKNOWN, 0.0, {}). Otherwise the confidence is the top score of the earliest best student. From 0.50 up, that student's identity and info are reported with its band. Below 0.50 the identity and info are suppressed. |
| Recognizer.SingleStudent | core/recognizer.py:136-171 | With one student and one reference, the confidence is that similarity floored at 0. The status is its band, and the student is named exactly from 0.50 up. |
| Recognizer.Recognize | core/recognizer.py:121-134 | `recognize` returns the identity, confidence and info of `match_face_with_confidence`. An identity is reported exactly from 0.50 up. |
| Recognizer.PrefixLen | core/recognizer.py:196 | Length of the Python prefix `[:n]`: never more than the list, never more than a non-negative `n`, and exactly `n` when `n` fits. |
| Recognizer.Take | core/recognizer.py:196 | The first `n` rows, or the whole list when shorter, unchanged and in order. |
| Recognizer.AtLeastMin | core/recognizer.py:196-198 | The filter keeps only rows scoring at least 0.40 and never lengthens the list. |
| Recognizer.AtLeastMinMembers | core/recognizer.py:196-198 | A row is kept exactly when it is in the input and scores at least 0.40. |
| Recognizer.AtLeastMinDescending | core/recognizer.py:196-198 | Filtering a descending list leaves it descending. |
| Recognizer.TopMatches | core/recognizer.py:173-200 | Empty without a model, an embedding or enrolled students. At most `top_n` rows, all scoring at least 0.40 and in descending order. Its members are exactly the rows of the ranking's `[:top_n]` prefix that score at least 0.40. For a non-negative `top_n` it equals the first `top_n` qualifying rows of the stable ranking, in ranking order. |
| Recognizer.TruncateThenFilter | core/recognizer.py:194-198 | On a descending ranking, truncating to `top_n` before filtering gives the same list as filtering first and truncating afterwards. |
| Recognizer.NoneAtLeastMin | core/recognizer.py:196-198 | When the top row of a descending ranking is below 0.40, no match is returned. |
| LegacyRecognizer.Recognize | backend/core/recognizer.py:109-136 | Without a model or an embedding the answer is (None, 0.0, {}). Otherwise the confidence is the best similarity floored at 0 and equals the top row of the ranking. An identity and its info are reported exactly when that score is positive and exceeds the threshold (0.6 by default). The identity is then the earliest best student. |
| LegacyRecognizer.Scan | backend/core/recognizer.py:120-131 | The scan's best bounds every student's score. It is 0.0 exactly when no student was picked, else the score of the earliest student holding it. |
| LegacyRecognizer.ScanRefs | backend/core/recognizer.py:127-131 | After one student's references, the running best is the larger of the previous best and that student's best score. |
| TemplateTracking.TemplateRect | core/frame_tracker.py:31-33 | The template's origin is moved into the frame, its size never grows, and a non-empty template ends inside the frame. |
| TemplateTracking.Init | core/frame_tracker.py:25-38 | `init` keeps the given box. It succeeds exactly when the clamped template is non-empty: always for a box inside the frame, never for one starting past the frame or with an empty size. |
| TemplateTracking.SearchWindow | core/frame_tracker.py:47-54 | The search window lies inside the frame. For a box inside the frame, the window contains the box. |
| TemplateTracking.Update | core/frame_tracker.py:40-74 | An update succeeds exactly when there is a template, the window is at least the box's size, correlation did not raise and the peak exceeds 0.4. On failure nothing changes. On success the box moves to the peak with its size kept, and stays in the frame when the peak lies in the window. |
| FrameTracking.InitTracker | core/frame_tracker.py:90-105 | KCF is chosen exactly when it is available, otherwise the template tracker as `init` leaves it. Nothing else about the track changes. |
| FrameTracking.UpdateTracker | core/frame_tracker.py:107-139 | Id, landmarks, cached result and detection frame are never touched. Without a tracker nothing changes. A success takes the tracker's box and clears the failure count; a failure adds one to it. |
| FrameTracking.BestDetection | core/frame_tracker.py:270-283 | The inner loop's pick is -1 (with IoU 0) or a detection index not yet taken. |
| FrameTracking.Assign | core/frame_tracker.py:269-292 | One choice per track, each -1 or a valid detection index. |
| FrameTracking.Rebind | core/frame_tracker.py:284-291 | A matched track keeps its id, result and failure count, and takes the detection's box and landmarks and the current frame number. |
| FrameTracking.Kept | core/frame_tracker.py:284-291 | The matched tracks are no more than the old ones, and each is marked as detected on this frame. |
| FrameTracking.NewFace | core/frame_tracker.py:297-301 | A new track has the given id, the detection's box and landmarks, no result, no failures and the current frame number. |
| FrameTracking.Fresh | core/frame_tracker.py:295-302 | New tracks get consecutive ids from the counter, no result, no failures and the current frame number. There are no more of them than detections. |
| FrameTracking.DetectionPass | core/frame_tracker.py:261-305 | The frame counter is unchanged, the id counter never goes back, and every live track is marked as detected on this frame. |
| FrameTracking.Track | core/frame_tracker.py:307-321 | The tracking pass never adds tracks, and every surviving track has a zero failure count. |
| FrameTracking.RecognizeFace | core/frame_tracker.py:329-352 | Only the cached result changes. With landmarks it is the aligned recognition. Without, it is the crop's recognition when the padded crop is non-empty, and unchanged otherwise. |
| FrameTracking.RecognitionPass | core/frame_tracker.py:323-352 | Every live track, in order, gets its own recognition step. |
| FrameTracking.Report | core/frame_tracker.py:238-257 | A track with a result reports its identity, status, confidence and name ("Unknown" when the info has no name). Otherwise it reports None, UNKNOWN, 0.0 and "Processing...". The box, id and tracked flag are always reported. |
| FrameTracking.ProcessFrame | core/frame_tracker.py:204-259 | The frame counter advances by one. Detection runs exactly on multiples of the detection interval or with no tracks. Recognition runs exactly on detection frames or multiples of the recognition interval. There is one output per live track, in order, flagged as tracked exactly on non-detection frames. After a detection frame the tracks are the aligned recognition pass over the detection pass. After a tracking frame no id is issued, and the tracks are the surviving updated tracks, passed through the cropped recognition exactly when recognition ran. |
| TrackerProperties.TrackFromOld | core/frame_tracker.py:307-321 | Every track left by the tracking pass is the updated tracker of some track that was live before it. |
| TrackerProperties.TrackingFrameResults | core/frame_tracker.py:220-234 | On a tracking frame every live track continues an earlier track with the same id. Without recognition it keeps its cached result. With recognition the result is either the old one or the recognizer's answer for the track's padded crop (core/frame_tracker.py:336-352). |
| FrameTracking.Reset | core/frame_tracker.py:386-390 | `reset` leaves a valid tracker with no tracks and the id counter at 0. |
| TrackerProperties.BestDetectionIsBest | core/frame_tracker.py:270-283 | The inner loop picks a free detection whose IoU exceeds 0.3, that no free detection beats and no earlier free one ties. It picks none exactly when no free detection exceeds 0.3. |
| TrackerProperties.AssignSound | core/frame_tracker.py:269-292 | Every matched track overlaps its detection by more than 0.3, and no detection goes to two tracks. |
| TrackerProperties.AssignKeeps | core/frame_tracker.py:269-292 | A later track never changes the choice of an earlier one. |
| TrackerProperties.AssignIsGreedy | core/frame_tracker.py:269-292 | Each track's choice is its best detection among those the earlier tracks left free. |
| TrackerProperties.KeptIds | core/frame_tracker.py:284-291 | Matched tracks carry only old ids and keep their relative order. |
| TrackerProperties.KeptExactly | core/frame_tracker.py:284-291 | A track whose choice is -1 is gone after the pass. A matched track is present, rebound to its detection. |
| TrackerProperties.KeptFromDetections | core/frame_tracker.py:286-288 | Every matched track sits on one of this frame's detections. |
| TrackerProperties.UntakenCovers | core/frame_tracker.py:295-302 | Every detection no track took is among the untaken ones. |
| TrackerProperties.UntakenMembers | core/frame_tracker.py:295-302 | Every untaken entry is a detection no track took. |
| TrackerProperties.FreshIsUntaken | core/frame_tracker.py:295-302 | The new tracks carry the untaken detections one-to-one, in detection order. |
| TrackerProperties.KeptFailures | core/frame_tracker.py:284-291 | Matching keeps failure counts, so tracks without failures stay without. |
| TrackerProperties.DetectionPassValid | core/frame_tracker.py:261-305 | A detection pass keeps the tracker invariant: increasing ids below the counter and no failures on live tracks. Every track it leaves is an old track or has a never-issued id. |
| TrackerProperties.TrackIds | core/frame_tracker.py:311-319 | Surviving tracks keep their ids and relative order. |
| TrackerProperties.TrackExactly | core/frame_tracker.py:311-319 | A track is present after the tracking pass exactly when its update succeeds with a count below the limit, and then as its updated self. |
| TrackerProperties.FirstFailureEvicts | core/frame_tracker.py:311-319 | A single failed update evicts the track whatever the limit. A non-positive limit evicts every track. A successful update under a positive limit keeps it. |
| TrackerProperties.CropOffFrameWraps | core/frame_tracker.py:337-347 | A 5x5 box at (-100, -100) in a 640x480 frame gives the 555x395 crop at the origin, not an empty one. |
| TrackerProperties.RecognitionKeepsIds | core/frame_tracker.py:329-352 | Recognition changes no id, order or failure count. |
| TrackerProperties.TrackingPassValid | core/frame_tracker.py:307-321 | A tracking pass keeps the tracker invariant and issues no id. |
| TrackerProperties.RecognitionPassValid | core/frame_tracker.py:323-352 | A recognition pass keeps the tracker invariant and the id history. |
| TrackerProperties.ProcessFrameOutcome | core/frame_tracker.py:220-234 | After a detection frame, every live track holds the aligned recognition of its own detection. A tracking frame issues no id and adds no track. |
| TrackerProperties.ProcessFrameValid | core/frame_tracker.py:204-259 | `process_frame` keeps the tracker invariant. Every track it reports is an earlier track or has a never-issued id. |
| TrackerProperties.AdvanceValid | core/frame_tracker.py:216-234 | The state after both passes of a frame is valid and reissues no id. |
| TrackerProperties.PassedValid | core/frame_tracker.py:220-232 | The state after the detection or tracking pass is valid and reissues no id. |
| TrackerProperties.ResetReusesIds | core/frame_tracker.py:386-390 | After `reset`, the first frame with a detection reports face id 0 again. |
| TrackerProperties.ExactRedetectionKeepsTrack | core/frame_tracker.py:269-304 | A lone track re-detected at exactly its own box keeps its id and takes the new detection, and no new track appears. |
| TrackerProperties.GreedyPicks | core/frame_tracker.py:269-292 | When the first track prefers detection 0 and the second overlaps detection 1 by at most 0.3, the choices are [0, -1]. |
| TrackerProperties.GreedyCanDropTrack | core/frame_tracker.py:269-292 | A concrete two-track case where the greedy order drops a track that a different one-to-one matching above 0.3 would keep. |
| Attendance.NewManager | core/attendance_manager.py:19-22 | A new manager has the given cooldown, an empty cooldown table and an empty log. |
| Attendance.WaitSeconds | core/attendance_manager.py:79-81 | During a cooldown, the reported wait is the remaining seconds rounded down, and never negative. |
| Attendance.ShouldMark | core/attendance_manager.py:48-104 | COOLDOWN exactly for a non-empty id still in its cooldown, with `can_mark` false and the wait. Otherwise `can_mark` holds, with AUTO_MARK exactly from 0.75, MAYBE exactly in [0.50, 0.75) and UNKNOWN below 0.50. Verification is required exactly when not AUTO_MARK. AUTO_MARK is RECOGNIZED with "High confidence - auto marking". MAYBE is MAYBE with the medium-confidence message. UNKNOWN is NOT_RECOGNIZED with "Unknown person". |
| Attendance.Round2 | core/attendance_manager.py:134 | The stored confidence is a whole number of hundredths within 0.005 of the input. On an exact tie between two hundredths, the even one is chosen. |
| Attendance.Round2Nearest | core/attendance_manager.py:134 | No hundredth is closer to the input than the rounded value. |
| Attendance.Round2Idempotent | core/attendance_manager.py:134 | Rounding an already rounded confidence leaves it unchanged. |
| Attendance.Mark | core/attendance_manager.py:106-142 | A mark succeeds exactly when the student is out of cooldown and no attached database refuses the write. On failure nothing changes. On success exactly one record with the rounded confidence is appended and the student's time becomes now. |
| Attendance.DecisionAgreesWithMark | core/attendance_manager.py:76-116 | For a real student id, the advisory decision reports a cooldown exactly when the mark is refused for one, with the same wait. |
| Attendance.FirstMarkPasses | core/attendance_manager.py:113-114 | A student never marked is out of cooldown once the clock reaches the cooldown length (the missing entry counts as time 0). |
| Attendance.CooldownExample | core/attendance_manager.py:112-116 | With the default 900 s, a second mark 10 s after the first is refused with 890 s to wait and changes nothing. |
| Attendance.Run | core/attendance_manager.py:138 | Over any sequence of calls, the log only grows at its end and the cooldown and database setting stay fixed. |
| Attendance.LogCountsSuccesses | core/attendance_manager.py:138 | The log grows by exactly the number of successful calls. |
| Attendance.MarksAreSpaced | core/attendance_manager.py:112-139 | Any two successful marks of the same student are at least the cooldown apart, whatever the clock does. |
| Attendance.MarkCounts | core/attendance_manager.py:138-145 | A successful mark adds one to today's count and a refused one adds nothing. |
| Attendance.TodaysCount | core/attendance_manager.py:144-145 | Today's count is the number of logged records. It is zero exactly when nothing is logged, and it bounds the high and low counts of the statistics together. |
| Attendance.ConfidenceStats | core/attendance_manager.py:151-169 | Zeros on an empty log. Otherwise the high and low counts of the log, and an average whose product with the log length is the sum of the logged confidences. |
| Attendance.HighLowDisjoint | core/attendance_manager.py:161-163 | No record counts as both high and low. |
| Attendance.AverageBounds | core/attendance_manager.py:168 | The average lies between any lower and upper bound of the logged confidences. |
| Attendance.MarkStats | core/attendance_manager.py:134-163 | A successful mark adds to the high or low count according to its rounded confidence. |
| Attendance.RoundingCountsAsHigh | core/attendance_manager.py:162 | A 0.749 match is logged as 0.75 and therefore counts as high. |
| FaceValidation.YawRatio | core/face_validator.py:39-47 | The asymmetry ratio lies in [-1, 1]. It is 0 when both distances are 0, and otherwise times the span gives the difference of the distances. |
| FaceValidation.CalculatePose | core/face_validator.py:12-52 | Yaw lies in [-1, 1]. It is positive, negative or zero exactly as the left-eye distance is greater than, less than or equal to the right-eye distance. |
| FaceValidation.YawSign | core/face_validator.py:47 | The ratio's sign is the sign of the difference of the two distances. |
| FaceValidation.YawAntisymmetric | core/face_validator.py:35-47 | Swapping the two eye distances negates the yaw. |
| FaceValidation.PoseUsesOnlyX | core/face_validator.py:35-36 | Yaw depends only on the x-coordinates of the right eye, left eye and nose. |
| FaceValidation.CheckQuality | core/face_validator.py:54-91 | An empty face region gives only "Invalid ROI". Otherwise "Too Small" appears exactly when a side is below 60, "Blurry" exactly below variance 100, "Too Dark" exactly below 40 and "Too Bright" exactly above 220. The face passes exactly when there are no issues, and is never both dark and bright. Issues are listed in the order of the checks, size then blur then brightness, with no repeats. That is the order the capture message joins them in (core/capture_manager.py:91). |
| FaceValidation.InFrameRoiNonEmpty | core/face_validator.py:70-75 | A non-empty box inside the frame always has a region to measure. |
| FaceValidation.QualityExamples | core/face_validator.py:62-91 | A good face passes. A box off the frame gives only "Invalid ROI". A small, blurry, dark face gets all three issues in order. |
| Capture.Reset | core/capture_manager.py:36-43 | `reset` leaves a waiting session with no student, no captures, index 0 and the "Ready" message. |
| Capture.CurrentTarget | core/capture_manager.py:52-55 | A target exists exactly while poses remain, and it is the next pose in front, left, right order. |
| Capture.UpdateStatus | core/capture_manager.py:57-68 | Only the message and state change. While poses remain, the message is the current pose's prompt. Otherwise the message is "All Captures Complete!" and the session becomes completed. |
| Capture.StartSession | core/capture_manager.py:45-50 | A new session is capturing for the student, with nothing captured, targeting the front pose and prompting "Look Straight Ahead". |
| Capture.Gate | core/capture_manager.py:101-115 | A yaw strictly inside ±0.2 passes only the front gate. A yaw above 0.4 passes only the left gate, and one below -0.4 only the right gate. A yaw in the bands between passes no gate. A turned pose that passes is left exactly when the yaw is positive. |
| Capture.GatesDisjoint | core/capture_manager.py:101-115 | No yaw passes the gates of two different poses. |
| Capture.Largest | core/capture_manager.py:86 | The chosen face has the largest area, and no earlier face has the same area. |
| Capture.CaptureCrop | core/capture_manager.py:122-133 | The saved crop never leaves the frame. Its corner and sides are non-negative, and a non-empty side ends within the frame. |
| Capture.CaptureCropBounds | core/capture_manager.py:122-133 | The padding is a fifth of each side, rounded down. The saved crop is the padded box clamped to the frame and contains the face. |
| Capture.FifthIsTrunc | core/capture_manager.py:124-125 | For non-negative sides, `int(side * 0.2)` is the side divided by 5, rounded down. |
| Capture.ProcessFrame | core/capture_manager.py:70-157 | Outside capturing, only the message and progress 1.0 are returned. With no face, or a face failing quality, only a message is returned and nothing changes. The session advances exactly when the largest face passes quality and the target's gate, more than a second after the last capture, and the save succeeds. It then records the path, moves to the next pose and crops the padded face. A wrong pose never advances: it sets the pose's correction ("Look Straight", "Turn MORE Left" or "Turn MORE Right") and changes nothing else. A frame that passes quality but does not advance for any other reason leaves the session unchanged, including its message. Past the quality check, the reply is the session's message after the frame. Progress is the captured fraction. |
| Capture.ResetValid | core/capture_manager.py:36-50 | `reset` and `start_session` establish the session invariant. |
| Capture.StartSessionValid | core/capture_manager.py:45-50 | A started session satisfies the invariant for every student id. |
| Capture.ProcessFrameValid | core/capture_manager.py:70-157 | Frames keep the invariant: captured poses are exactly the first `idx` required ones, with the state matching the index. Progress stays in [0, 1]. |
| Capture.FullSessionCompletes | core/capture_manager.py:97-152 | Three good frames for front, left and right, each more than a second apart, complete the session with all three paths stored. |
| Capture.WrongPoseStalls | core/capture_manager.py:101-118 | A face held at another pose's gate never advances the session. |

## Left out

- Camera, detector, embedding network (SFace), OpenCV image operations
  and storage are not modelled. Each frame's detections, tracker readings,
  recognition answers, Laplacian variance, mean brightness and save result
  are inputs.
- Database access is not modelled. That covers loading embeddings and
  student metadata, attendance history at construction, the attendance write
  (only whether it succeeded) and the enrolment embedding written after a
  capture. The constructor's history loading is left out: `NewManager`
  starts empty.
- Wall-clock time is the parameter `now`. The time and date strings are a
  parameter. The log's "status" field is always "Present" and is not
  stored. `get_todays_records` only returns a copy of the log.
- `FPSCounter` and `get_fps` are not modelled: they only measure the
  clock.
- Drawing on frames (`visualize`, the flash rectangle) and console output
  are not modelled.
- The detector's float boxes are taken as already truncated to integers
  (`astype(int)`, `map(int, …)`). Areas, IoU and crops are on integer
  boxes. `max(faces, key=w*h)` is compared on those integer boxes.
- Similarities, yaw and confidences are exact reals, not IEEE doubles.
- Attendance.Round2: rounds the exact real half-to-even to hundredths.
  Python formats the binary double, which can round differently near a tie.
- Recognizer.Recognize: core/recognizer.py embeds the face twice, once in
  `recognize` and again in `match_face_with_confidence`. The model assumes
  both calls give the same result and passes one probe.
- LegacyRecognizer.Recognize: `_generate_embedding` of
  backend/core/recognizer.py calls `cv2.resize` before its `try`, so an
  empty crop (the API slices the detector box out of the image) raises
  instead of returning `None, 0.0, {}`. The model's `probe.None?` branch
  covers only a failed embedding, not that exception. The same exception
  reaches the backend's `match_face_with_confidence` and
  `get_top_matches`, which the `Recognizer` members model without it.
- FrameTracking.ProcessFrame: a detection or recognition interval of 0
  raises `ZeroDivisionError` in Python. The model requires non-zero
  intervals (`ValidConfig`) instead of modelling the exception.
- FrameTracking.InitTracker: when creating a KCF tracker raises, the code
  falls back to the template tracker. The model takes KCF availability as
  one flag and does not model that fallback.
- FrameTracking.UpdateTracker: an exception inside a tracker's update is
  folded into a failed reading, which has the same effect (one more
  failure, no move).
- FrameTracking.RecognizeFace: `face_data` is never `None` for a live
  track, so the `face_data is not None` test is always true.
- The result of `init_tracker` is ignored by its callers, and so by the
  model.
