# Helmet-compliance monitor: the per-frame engine

This project models the deterministic engine inside the helmet-compliance
monitor's frame loop, and proves properties of it. The surrounding
application is YOLO inference, OpenCV drawing and a PyQt window. It exists as
two near-identical copies, `son.py` and `ArayuzIsGuvenligi.py`, which are
modelled once and cited from both.

- **Detections** (`detections.dfy`): tracked detections, each an id and an
  integer box `(x1, y1, x2, y2)`.
- **Geometry** (`geometry.dfy`): `get_bbox_center`, including Python's
  `int(...)` truncation toward zero, which is written out for negative sums.
  Also `is_on_shoulders`: the helmet centre lies strictly inside the person
  box horizontally, and strictly between the top edge and 30 % of the height
  vertically.
- **Association** (`association.dfy`): the per-person scan of one frame.
  - The first helmet in list order that passes `is_on_shoulders` marks the
    person compliant, and its id goes into `drawn_helmet_ids`. A claimed
    helmet can still be matched by another person.
  - It produces the compliant and non-compliant counts and the no-helmet id
    set.
  - Helmets never claimed are drawn as unassigned.
  - The spec functions describe each result. The `AssociateFrame` and
    `UnassignedHelmets` methods run the source's nested loops with `break`,
    and are proved equal to those spec functions.
- **Tracking** (`tracking.dfy`): the violation dictionary
  `ihlal_takip_listesi` as a pure state table.
  - The state is person id → `(start_time, warned)`, plus the dictionary's
    insertion order, which fixes the order of the cleanup loop's alerts.
  - A first-time violator gets a record and no alert.
  - A known, unwarned violator whose elapsed time is strictly greater than
    `UYARI_SURESI` (10 s) raises one CRITICAL alert and is marked warned.
  - After the person loop, every record of a person who is no longer
    violating is deleted. The deletion raises an INFO "resolved" alert if the
    record was warned.
  - Lemmas give the complete state table for one id, the key set after a
    frame, and the outcome of a whole uninterrupted violation streak.
    Over a whole run, CRITICAL and "resolved" alerts for an id pair up.
- **SingleModel** (`single_model.dfy`): `ikimodel.py`'s simpler
  `check_overlap`, which uses the exact midpoint and the whole person box,
  and its no-helmet counting loop. It also proves how this test relates to
  the shoulder test.
- **Counters** (`counters.dfy`): the every-30-frames FPS trigger, the
  session-clock decomposition, and the CRITICAL message counter.
- **Monitor** (`monitor.dfy`): the two objects that hold state.
  - `VideoThread` holds the violation dictionary as fields and updates them
    in place. Its `Observe`, `Cleanup`, `Tick`, `ProcessFrame` and `Run`
    methods are proved against the Tracking and Association functions.
  - `MainWindow` holds `total_violations` and the session start, and shows
    the session clock. Over a session its counter is the number of CRITICAL
    alerts the worker emitted.

Wall-clock time is a parameter (`now`). Detector output is an input sequence
of `(id, box)` pairs.

## Model

| member | source | states |
|---|---|---|
| Geometry.TruncHalf | son.py:41-42 | `int((a + b) / 2)` truncates toward zero: for a non-negative sum s the result r has 2r ≤ s ≤ 2r+1, and for a negative sum 2r−1 ≤ s ≤ 2r |
| Geometry.BoxCenter | son.py:39-43 | the centre is the truncated half of x1+x2 and of y1+y2 |
| Geometry.ShoulderLineExact | son.py:49-51 | the integer comparison `10·(y − y1) < 3·h` used by the model is exactly `y < y1 + h·0.3` over the rationals |
| Geometry.OnShouldersIffInsideBand | son.py:45-52 | is_on_shoulders holds iff x1 < cx < x2 and y1 < cy < y1 + (y2−y1)·0.3 (the source's shoulder line, over the rationals), for the truncated centre; a centre on any edge of the band, the shoulder line included, is rejected |
| Geometry.HorizontalIffEdges | ArayuzIsGuvenligi.py:48-51 | horizontal alignment of the truncated centre, stated on the helmet's own edges: 2·x1+2 ≤ hx1+hx2 < 2·x2 for a non-negative sum, and 2·x1 < hx1+hx2 ≤ 2·x2−2 otherwise |
| Geometry.ScenarioBand | ArayuzIsGuvenligi.py:42-55 | a helmet centred near the top of a 100×200 person is on the shoulders; one centred at 80 % of the height is not |
| Association.FirstMatch | son.py:156-161 | the index found is that of a helmet passing is_on_shoulders, every earlier helmet fails, and there is no index iff no helmet passes |
| Association.StatusOf | son.py:150-161 | the status belongs to this person; when compliant, the matched helmet is in the frame and passes is_on_shoulders |
| Association.CompliantIffSomeHelmet | ArayuzIsGuvenligi.py:150-159 | a person is compliant iff at least one helmet passes is_on_shoulders, and the matched helmet is the first one that passes |
| Association.CountsCoverPersons | ArayuzIsGuvenligi.py:145-173 | compliant count + non-compliant count = number of persons |
| Association.ViolatorsAreUnmatched | son.py:170-172 | an id is in the no-helmet set iff some person with that id matched no helmet |
| Association.DistinctViolatorCount | son.py:145-172 | with distinct person ids, the no-helmet set has exactly as many ids as there are non-compliant persons |
| Association.ClaimedAreMatched | son.py:156-161 | an id is in drawn_helmet_ids iff some person's first matching helmet carries it |
| Association.ClaimedAreHelmetIds | son.py:148 | drawn_helmet_ids is a subset of the frame's helmet ids |
| Association.SharedHelmet | ArayuzIsGuvenligi.py:152-159 | two persons under one helmet are both compliant: claiming a helmet does not stop a later person matching it |
| Association.UnassignedIff | son.py:201-202 | a helmet is drawn as unassigned iff it is in the frame and its id was never claimed |
| Association.FirstHelmetOnShoulders | son.py:156-161 | the inner loop, left at the first helmet that passes is_on_shoulders, finds exactly the first-match index, and nothing when no helmet passes |
| Association.ClassifyPerson | son.py:150-161 | the status starts "takmayan" and becomes "takan" with the helmet the scan found, so it is the person's first-match status |
| Association.AssociateFrame | son.py:145-172 | the scan returns each person's first-match status, the compliant count, the non-compliant ids in person order, the no-helmet set and the claimed set; the two counts sum to the number of persons |
| Association.UnassignedHelmets | ArayuzIsGuvenligi.py:194-196 | the loop returns exactly the unclaimed helmets, in order |
| Tracking.ObserveAt | son.py:179-191 | one non-compliant person: a new id gets (now, unwarned) and no alert; an existing unwarned record older than 10 s gets warned and one CRITICAL alert; anything else is unchanged and silent; other ids are untouched |
| Tracking.ObserveAllAt | ArayuzIsGuvenligi.py:175-184 | over a frame's violators, each id's record and CRITICAL count depend only on whether the id occurs and on its record before the frame; repeats of an id change nothing more |
| Tracking.CleanupAt | son.py:194-198 | the cleanup keeps a record iff its id is non-compliant this frame, leaves kept records unchanged, and emits one INFO alert iff it deletes a warned record |
| Tracking.ResolvedAlertsAt | ArayuzIsGuvenligi.py:187-191 | the "resolved" message is emitted once for a deleted warned record, never for an unwarned or kept one, and the cleanup never emits a CRITICAL alert |
| Tracking.TickAt | son.py:179-198 | the full one-frame state table for one id: record iff non-compliant this frame; first-time record (now, unwarned); start time kept and warned only goes false→true; one CRITICAL iff existing, unwarned and elapsed > 10 s; one INFO iff a warned record is deleted |
| Tracking.TickKeys | ArayuzIsGuvenligi.py:170-191 | after a frame the tracker's keys equal exactly that frame's no-helmet id set |
| Tracking.WarnedNeverResets | son.py:186-191 | a warned record of a person still violating keeps its start time and warned flag and raises no second CRITICAL |
| Tracking.ResetAfterAbsence | ArayuzIsGuvenligi.py:175-191 | one frame out of the no-helmet set deletes the record, so the next violation restarts the timer unwarned and silent |
| Tracking.Streak | ArayuzIsGuvenligi.py:175-184 | over an uninterrupted streak the record is (first frame's time, whether some later frame is more than 10 s after it), exactly one CRITICAL is raised iff that happened (at most one per record), and no INFO |
| Tracking.AlertsPairUp | son.py:179-198 | over any run, CRITICAL alerts for an id + (warned at the start) = resolved alerts for it + (warned at the end): every CRITICAL is later resolved unless the record is still warned |
| Tracking.ResolvedFollowsCritical | ArayuzIsGuvenligi.py:175-191 | from the empty tracker, at every prefix of a run the resolved alerts for an id never outnumber its CRITICAL alerts, and at the end CRITICAL = resolved + (record still warned) |
| Tracking.ScenarioWarnThenResolve | son.py:179-198 | violating at 0 s, 11 s and 15 s then leaving at 16 s: silent, CRITICAL, silent, then INFO with an empty tracker |
| SingleModel.OverlapIffDoubled | ikimodel.py:22-37 | check_overlap holds iff the exact helmet midpoint is strictly inside the person box on both axes; a midpoint on an edge gives false |
| SingleModel.LowHelmetCountsHere | ikimodel.py:35 | check_overlap uses the whole person box: a helmet centred in the lower part counts, where the shoulder test rejects it |
| SingleModel.ShouldersImpliesOverlap | ikimodel.py:22-37 | every helmet on the shoulders of a person of positive height also passes check_overlap |
| SingleModel.WithoutHelmetBound | ikimodel.py:86-97 | 0 ≤ baretsiz_insan_sayisi ≤ number of persons |
| SingleModel.NoHelmetsAllCounted | ikimodel.py:89-97 | with no helmet boxes every person is counted as without a helmet |
| SingleModel.HelmetOrderIrrelevant | ikimodel.py:90-94 | the count depends only on which helmet boxes occur, not on their order or repetition |
| SingleModel.CountWithoutHelmet | ikimodel.py:86-97 | toplam_insan is the number of person boxes; baretsiz_insan_sayisi is the number of persons for which no helmet passes check_overlap, and at most toplam_insan |
| Counters.FpsEmissionCount | son.py:121-125 | after n frames the FPS figure was emitted exactly n div 30 times |
| Counters.WholeSeconds | son.py:588 | `int(total_seconds())` truncates toward zero, within one second of the elapsed time |
| Counters.SessionClock | son.py:588-590 | hours·3600 + minutes·60 + seconds = elapsed, 0 ≤ minutes < 60, 0 ≤ seconds < 60, hours ≥ 0 for non-negative elapsed |
| Counters.CriticalCountAppend | son.py:681-685 | the CRITICAL count over consecutive messages is the sum of the counts over each stretch |
| Counters.CriticalCountBound | son.py:683-685 | total_violations never exceeds the number of messages logged |
| Monitor.VideoThread.constructor | son.py:66 | the violation dictionary starts empty |
| Monitor.VideoThread.Observe | son.py:179-191 | the in-place insert / warned update equals the state-table step, with the same alert |
| Monitor.VideoThread.Cleanup | son.py:194-198 | deleting over a snapshot of the keys equals the cleanup of the state table, alerts in key-insertion order |
| Monitor.VideoThread.Tick | ArayuzIsGuvenligi.py:175-191 | a frame's tracker updates equal the state-table tick; the keys become exactly the no-helmet ids |
| Monitor.VideoThread.ProcessFrame | son.py:145-202 | one frame: counts, unassigned helmets, alerts and FPS trigger as the spec functions give them, tracker advanced by one tick |
| Monitor.VideoThread.Run | son.py:112-202 | over a sequence of frames, the tracker equals the state table run over the frames' violators, each frame's report is as specified with the FPS trigger on every 30th frame, and the keys are the last frame's no-helmet set; all the reports' alerts, frame after frame, are the alerts of that run |
| Monitor.ReportsAlerts | son.py:112-202 | the alerts of the frames' reports, frame after frame, are exactly the alerts of the tracker's run over the frames' violators |
| Monitor.MainWindow.constructor | son.py:231-232 | total_violations starts at 0 and there is no session |
| Monitor.MainWindow.LogMessage | son.py:681-685 | only a CRITICAL message increments total_violations, by one |
| Monitor.MainWindow.ReceiveAlerts | son.py:613 | the tracker's alerts, logged in order, raise total_violations by the number of CRITICAL alerts among them |
| Monitor.MainWindow.Session | son.py:605-626 | after start_processing and the delivery of each frame's alerts to log_message (son.py:613, 681-685), total_violations is the number of CRITICAL alerts of the session |
| Monitor.MainWindow.StartProcessing | son.py:605-626 | while a worker runs nothing changes; otherwise the session starts now and total_violations is reset to 0 |
| Monitor.MainWindow.ProcessingFinished | son.py:692-702 | the session ends; total_violations is kept |
| Monitor.MainWindow.UpdateClock | son.py:583-592 | with no session the duration is not recomputed (the label keeps its last text); otherwise the new hours, minutes and seconds recompose the truncated elapsed seconds |

## Left out

- The float band limit: `is_on_shoulders` multiplies the height by the float `0.3`. The model compares exactly, `10·(cy − y1) < 3·h`. For integer boxes of pixel size both comparisons agree, because `0.3·h` rounds to the exact value whenever h is a multiple of 10, and is at least 0.1 away from an integer otherwise. Float rounding at astronomically large coordinates is not modelled.
- The `top_percentage` parameter: it is fixed at its only used value, 0.3.
- Time: the source re-reads `time.time()` for each non-compliant person. The model takes one `now` per frame, as a parameter. Wall-clock reads (`time.time()`, `datetime.now()`) are parameters throughout.
- The interleaving: the source updates the tracker inside the person loop, between association steps. The model associates the whole frame first, then updates the tracker over the non-compliant ids in person order. The two are equivalent, because association never reads the tracker.
- The FPS value itself (`30 / elapsed`): it is float arithmetic over wall-clock time. Only the every-30-frames trigger is modelled.
- YOLO model loading, `.track(...)`, the helmet class lookup and the tensor-to-int box conversion: these are foreign library calls. Detections are input sequences.
- All cv2 capture and drawing, and every PyQt widget, style, signal and thread: these are I/O, presentation and concurrency. The stop flag `_running` and the end-of-video exit are left out. `Run` processes a given finite sequence of frames.
- Logging to a file, and the colour and symbol tables of `log_message`: these are presentation. Only the level matters to the model.
- The alert message text: only the kind (CRITICAL or INFO "resolved") and the person id are modelled. `ArayuzIsGuvenligi.py` emits its alerts as plain strings, and its window's handling of them is not part of this model.
- `deneme.py` is not part of this model: it only runs the detector and draws.
- `ikimodel.py`'s boxes are floats. They are modelled as exact reals, without float32 rounding of the midpoint.
- SingleModel.CountWithoutHelmet: the drawing and the alarm banner that follow the count are left out.
