/** The two objects of the monitoring application that keep state: the video
    worker, whose frame loop runs the associator and updates the violation
    dictionary in place, and the main window, which counts CRITICAL messages
    and shows the session clock. */
module Monitor {
  import opened Detections
  import opened Association
  import Tracking
  import Counters

  /** One processed frame: the time it was processed and the tracked detections. */
  datatype Frame = Frame(now: real, persons: seq<Detection>, helmets: seq<Detection>)

  /** What one iteration of the frame loop hands to the window. */
  datatype FrameReport = FrameReport(
    compliant: nat,
    nonCompliant: nat,
    unassigned: seq<Detection>,
    alerts: seq<Tracking.Alert>,
    fpsDue: bool)

  /** The report of a frame processed with the tracker in state `before`, as
      the `FPS`, count, alert and unassigned-helmet signals carry it. */
  ghost function Expected(frame: Frame, frameCount: nat, before: Tracking.Table): (r: FrameReport)
    ensures r.compliant + r.nonCompliant == |frame.persons|
  {
    Association.CountsCoverPersons(frame.persons, frame.helmets);
    FrameReport(
      CompliantCount(frame.persons, frame.helmets),
      |Violators(frame.persons, frame.helmets)|,
      Unassigned(frame.helmets, Claimed(frame.persons, frame.helmets)),
      Tracking.Tick(before, frame.now, Violators(frame.persons, frame.helmets)).alerts,
      Counters.FpsDue(frameCount))
  }

  /** The tracker's input of each frame: its time and its non-compliant ids in person order. */
  function Observations(frames: seq<Frame>): (obs: seq<Tracking.Observation>)
    ensures |obs| == |frames|
    ensures forall i :: 0 <= i < |frames| ==>
      obs[i] == Tracking.Observation(frames[i].now, Violators(frames[i].persons, frames[i].helmets))
  {
    seq(|frames|, i requires 0 <= i < |frames| =>
      Tracking.Observation(frames[i].now, Violators(frames[i].persons, frames[i].helmets)))
  }

  /** The alerts of a sequence of frames, frame after frame. */
  function AllAlerts(reports: seq<FrameReport>): seq<Tracking.Alert>
  {
    if reports == [] then []
    else AllAlerts(reports[..|reports| - 1]) + reports[|reports| - 1].alerts
  }

  lemma AllAlertsSnoc(reports: seq<FrameReport>, report: FrameReport)
    ensures AllAlerts(reports + [report]) == AllAlerts(reports) + report.alerts
  {
    assert (reports + [report])[..|reports|] == reports;
  }

  /** The level an alert reaches log_message with. */
  function LevelOf(a: Tracking.Alert): Counters.Level
  {
    match a
    case Critical(_) => Counters.Critical
    case Resolved(_) => Counters.Info
  }

  function Levels(alerts: seq<Tracking.Alert>): (ls: seq<Counters.Level>)
    ensures |ls| == |alerts|
    ensures forall i :: 0 <= i < |alerts| ==> ls[i] == LevelOf(alerts[i])
  {
    seq(|alerts|, i requires 0 <= i < |alerts| => LevelOf(alerts[i]))
  }

  /** `f` applied to every element of `xs` together with the elements before it. */
  ghost function Scan<X, Y>(xs: seq<X>, f: (seq<X>, X) -> Y): (r: seq<Y>)
    ensures |r| == |xs|
  {
    if xs == [] then [] else Scan(xs[..|xs| - 1], f) + [f(xs[..|xs| - 1], xs[|xs| - 1])]
  }

  lemma ScanStep<X, Y>(xs: seq<X>, f: (seq<X>, X) -> Y, i: nat)
    requires i < |xs|
    ensures Scan(xs[..i + 1], f) == Scan(xs[..i], f) + [f(xs[..i], xs[i])]
  {
    assert xs[..i + 1][..i] == xs[..i];
  }

  lemma {:induction false} ScanAt<X, Y>(xs: seq<X>, f: (seq<X>, X) -> Y, i: nat)
    requires i < |xs|
    ensures Scan(xs, f)[i] == f(xs[..i], xs[i])
  {
    var n := |xs| - 1;
    if i < n {
      ScanAt(xs[..n], f, i);
      assert xs[..n][..i] == xs[..i];
    }
  }

  /** The reports of the frame loop over `frames`, from the tracker state `t`:
      each frame's report is made with the tracker as the frames before it left it. */
  ghost function Reports(t: Tracking.Table, frames: seq<Frame>): seq<FrameReport>
  {
    Scan(frames, ReportFn(t))
  }

  /** The report of a frame, given the frames before it. */
  ghost function ReportFn(t: Tracking.Table): (seq<Frame>, Frame) -> FrameReport
  {
    (before: seq<Frame>, frame: Frame) =>
      Expected(frame, |before| + 1, Tracking.Run(t, Observations(before)).table)
  }

  /** One more frame: one more tick of the tracker. */
  lemma RunStep(t: Tracking.Table, frames: seq<Frame>, i: nat)
    requires i < |frames|
    ensures var s := Tracking.Run(t, Observations(frames[..i]));
      var k := Tracking.Tick(s.table, frames[i].now, Violators(frames[i].persons, frames[i].helmets));
      Tracking.Run(t, Observations(frames[..i + 1])) == Tracking.Step(k.table, s.alerts + k.alerts)
  {
    assert Observations(frames[..i + 1])[..i] == Observations(frames[..i]);
  }

  /** The reports' alerts, frame after frame, are the alerts of the tracker's run. */
  lemma {:induction false} ReportsAlerts(t: Tracking.Table, frames: seq<Frame>)
    ensures AllAlerts(Reports(t, frames)) == Tracking.Run(t, Observations(frames)).alerts
  {
    if frames != [] {
      var n := |frames| - 1;
      ReportsAlerts(t, frames[..n]);
      assert frames[..n + 1] == frames;
      RunStep(t, frames, n);
      ScanStep(frames, ReportFn(t), n);
      AllAlertsSnoc(Reports(t, frames[..n]),
                    Expected(frames[n], n + 1, Tracking.Run(t, Observations(frames[..n])).table));
    }
  }

  class VideoThread {
    /** ihlal_takip_listesi: person id -> (start_time, warned). */
    var records: map<int, Tracking.Record>
    /** The dictionary's keys in insertion order. */
    var order: seq<int>

    function Table(): Tracking.Table
      reads this
    {
      Tracking.Table(records, order)
    }

    ghost predicate Valid()
      reads this
    {
      Tracking.WellFormed(Table())
    }

    constructor ()
      ensures Valid() && records == map[] && order == []
    {
      records := map[];
      order := [];
    }

    /** The tracking branch for one person without a helmet. */
    method Observe(now: real, id: int) returns (alerts: seq<Tracking.Alert>)
      requires Valid()
      modifies this
      ensures Valid()
      ensures Table() == Tracking.Observe(old(Table()), now, id).table
      ensures alerts == Tracking.Observe(old(Table()), now, id).alerts
    {
      Tracking.ObserveWellFormed(Table(), now, id);
      if id !in records {
        records := records[id := Tracking.Record(now, false)];
        order := order + [id];
        alerts := [];
      } else {
        var data := records[id];
        var elapsed := now - data.startTime;
        if elapsed > Tracking.WarnSeconds && !data.warned {
          alerts := [Tracking.Critical(id)];
          records := records[id := data.(warned := true)];
        } else {
          alerts := [];
        }
      }
    }

    /** The cleanup loop over a snapshot of the keys: delete every record
        whose id is not in `keep`, announcing the warned ones. */
    method Cleanup(keep: set<int>) returns (alerts: seq<Tracking.Alert>)
      requires Valid()
      modifies this
      ensures Valid()
      ensures Table() == Tracking.Cleanup(old(Table()), keep).table
      ensures alerts == Tracking.Cleanup(old(Table()), keep).alerts
    {
      ghost var t0 := Table();
      Tracking.CleanupWellFormed(t0, keep);
      Tracking.CleanupDone(t0, keep);
      var keys := order;
      var kept: seq<int> := [];
      alerts := [];
      for i := 0 to |keys|
        invariant records == Tracking.Drop(t0.records, keep, keys[..i])
        invariant kept == Tracking.Keep(keys[..i], keep)
        invariant alerts == Tracking.ResolvedAlerts(t0.records, keep, keys[..i])
      {
        var id := keys[i];
        Tracking.CleanupStep(t0, keep, i);
        if id !in keep {
          if records[id].warned {
            alerts := alerts + [Tracking.Resolved(id)];
          }
          records := records - {id};
        } else {
          kept := kept + [id];
        }
      }
      order := kept;
    }

    /** The tracker's part of one frame: the non-compliant persons in order,
        then the cleanup against this frame's no-helmet set. */
    method Tick(now: real, violators: seq<int>) returns (alerts: seq<Tracking.Alert>)
      requires Valid()
      modifies this
      ensures Valid()
      ensures Table() == Tracking.Tick(old(Table()), now, violators).table
      ensures alerts == Tracking.Tick(old(Table()), now, violators).alerts
      ensures records.Keys == IdSet(violators)
    {
      ghost var t0 := Table();
      alerts := [];
      for i := 0 to |violators|
        invariant Valid()
        invariant Table() == Tracking.ObserveAll(t0, now, violators[..i]).table
        invariant alerts == Tracking.ObserveAll(t0, now, violators[..i]).alerts
      {
        assert violators[..i + 1][..i] == violators[..i];
        var a := Observe(now, violators[i]);
        alerts := alerts + a;
      }
      assert violators[..|violators|] == violators;
      var resolved := Cleanup(IdSet(violators));
      alerts := alerts + resolved;
      Tracking.TickKeys(t0, now, violators);
    }

    /** One iteration of the frame loop after detection: association, the
        tracker and the unassigned helmets; `frameCount` is the FPS counter
        after its increment. */
    method ProcessFrame(frame: Frame, frameCount: nat) returns (report: FrameReport)
      requires Valid()
      modifies this
      ensures Valid()
      ensures Table() == Tracking.Tick(old(Table()), frame.now, Violators(frame.persons, frame.helmets)).table
      ensures records.Keys == IdSet(Violators(frame.persons, frame.helmets))
      ensures report == Expected(frame, frameCount, old(Table()))
    {
      var fpsDue := frameCount % Counters.FpsWindow == 0;
      var r := AssociateFrame(frame.persons, frame.helmets);
      var alerts := Tick(frame.now, r.violators);
      var unassigned := UnassignedHelmets(frame.helmets, r.drawn);
      report := FrameReport(r.compliant, r.nonCompliant, unassigned, alerts, fpsDue);
    }

    /** The frame loop of `run`, frame after frame, with its FPS counter. */
    method Run(frames: seq<Frame>) returns (reports: seq<FrameReport>)
      requires Valid()
      modifies this
      ensures Valid()
      ensures |reports| == |frames|
      ensures Table() == Tracking.Run(old(Table()), Observations(frames)).table
      ensures |frames| > 0 ==>
        records.Keys == IdSet(Violators(frames[|frames| - 1].persons, frames[|frames| - 1].helmets))
      ensures reports == Reports(old(Table()), frames)
      ensures forall i :: 0 <= i < |frames| ==>
        reports[i] == Expected(frames[i], i + 1, Tracking.Run(old(Table()), Observations(frames[..i])).table)
      ensures AllAlerts(reports) == Tracking.Run(old(Table()), Observations(frames)).alerts
    {
      ghost var t0 := Table();
      var fpsCounter: nat := 0;
      reports := [];
      for i := 0 to |frames|
        invariant Valid()
        invariant fpsCounter == i
        invariant Table() == Tracking.Run(t0, Observations(frames[..i])).table
        invariant reports == Reports(t0, frames[..i])
        invariant i > 0 ==>
          records.Keys == IdSet(Violators(frames[i - 1].persons, frames[i - 1].helmets))
      {
        RunStep(t0, frames, i);
        ScanStep(frames, ReportFn(t0), i);
        fpsCounter := fpsCounter + 1;
        var report := ProcessFrame(frames[i], fpsCounter);
        reports := reports + [report];
      }
      assert frames[..|frames|] == frames;
      forall i | 0 <= i < |frames|
        ensures reports[i] == Expected(frames[i], i + 1, Tracking.Run(t0, Observations(frames[..i])).table)
      {
        ScanAt(frames, ReportFn(t0), i);
      }
      ReportsAlerts(t0, frames);
    }
  }

  class MainWindow {
    /** Toplam İhlal: CRITICAL messages since the session started. */
    var totalViolations: nat
    /** Start of the current session, if one is running. */
    var sessionStart: Option<real>

    constructor ()
      ensures totalViolations == 0 && sessionStart == None
    {
      totalViolations := 0;
      sessionStart := None;
    }

    /** log_message: only CRITICAL messages are counted. */
    method LogMessage(level: Counters.Level)
      modifies this
      ensures totalViolations == old(totalViolations) + (if level == Counters.Critical then 1 else 0)
      ensures sessionStart == old(sessionStart)
    {
      if level == Counters.Error || level == Counters.Critical {
        if level == Counters.Critical {
          totalViolations := totalViolations + 1;
        }
      }
    }

    /** alert_signal connected to log_message: a frame's alerts are logged in
        the order they were emitted. */
    method ReceiveAlerts(alerts: seq<Tracking.Alert>)
      modifies this
      ensures totalViolations == old(totalViolations) + Counters.CriticalCount(Levels(alerts))
      ensures sessionStart == old(sessionStart)
    {
      for i := 0 to |alerts|
        invariant totalViolations == old(totalViolations) + Counters.CriticalCount(Levels(alerts[..i]))
        invariant sessionStart == old(sessionStart)
      {
        assert Levels(alerts[..i + 1])[..i] == Levels(alerts[..i]);
        LogMessage(LevelOf(alerts[i]));
      }
      assert alerts[..|alerts|] == alerts;
    }

    /** A whole session: start_processing with no worker running, then the
        alerts of each processed frame delivered to log_message in order.
        total_violations ends as the number of CRITICAL alerts of the session. */
    method Session(now: real, reports: seq<FrameReport>)
      modifies this
      ensures sessionStart == Some(now)
      ensures totalViolations == Counters.CriticalCount(Levels(AllAlerts(reports)))
    {
      StartProcessing(now, false);
      for i := 0 to |reports|
        invariant sessionStart == Some(now)
        invariant totalViolations == Counters.CriticalCount(Levels(AllAlerts(reports[..i])))
      {
        assert reports[..i + 1][..i] == reports[..i];
        ghost var before := AllAlerts(reports[..i]);
        assert Levels(before + reports[i].alerts) == Levels(before) + Levels(reports[i].alerts);
        Counters.CriticalCountAppend(Levels(before), Levels(reports[i].alerts));
        ReceiveAlerts(reports[i].alerts);
      }
      assert reports[..|reports|] == reports;
    }

    /** start_processing: refused with a WARNING while a worker is running,
        otherwise it starts a session and resets the violation counter. */
    method StartProcessing(now: real, workerRunning: bool)
      modifies this
      ensures workerRunning ==>
        totalViolations == old(totalViolations) && sessionStart == old(sessionStart)
      ensures !workerRunning ==> totalViolations == 0 && sessionStart == Some(now)
    {
      if workerRunning {
        LogMessage(Counters.Warning);
        return;
      }
      sessionStart := Some(now);
      totalViolations := 0;
    }

    /** processing_finished: an INFO message and the session ends; the counter stays. */
    method ProcessingFinished()
      modifies this
      ensures sessionStart == None && totalViolations == old(totalViolations)
    {
      LogMessage(Counters.Info);
      sessionStart := None;
    }

    /** update_clock: the session duration as hours, minutes and seconds. */
    method UpdateClock(now: real) returns (shown: Option<Counters.Clock>)
      ensures sessionStart.None? ==> shown.None?
      ensures sessionStart.Some? ==> shown.Some?
      ensures shown.Some? ==>
        && shown.value.hours * 3600 + shown.value.minutes * 60 + shown.value.seconds
           == Counters.WholeSeconds(now - sessionStart.value)
        && 0 <= shown.value.minutes < 60 && 0 <= shown.value.seconds < 60
    {
      if sessionStart.Some? {
        var elapsed := Counters.WholeSeconds(now - sessionStart.value);
        shown := Some(Counters.SessionClock(elapsed));
      } else {
        shown := None;
      }
    }
  }
}
