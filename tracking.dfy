/** The violation tracker of `VideoThread.run` as a pure state table. The
    state is the dictionary `ihlal_takip_listesi` (person id -> start time and
    warned flag) together with its insertion order, which is the order the
    cleanup loop visits the keys in. One frame is a `Tick`: every non-compliant
    person, in person order, is observed; afterwards every record whose id was
    not observed this frame is deleted. */
module Tracking {
  import opened Detections

  /** UYARI_SURESI, in seconds. */
  const WarnSeconds: real := 10.0

  datatype Record = Record(startTime: real, warned: bool)

  /** CRITICAL "not wearing a helmet for UYARI_SURESI seconds" and INFO
      "violation resolved". */
  datatype Alert = Critical(personId: int) | Resolved(personId: int)

  /** The dictionary: its entries and its keys in insertion order. */
  datatype Table = Table(records: map<int, Record>, order: seq<int>)

  datatype Step = Step(table: Table, alerts: seq<Alert>)

  /** The insertion order lists every key exactly once. */
  ghost predicate WellFormed(t: Table)
  {
    Distinct(t.order) && forall k :: k in t.records <==> k in t.order
  }

  /** The tracker before the first frame. */
  function Empty(): (t: Table)
    ensures WellFormed(t) && t.records == map[]
  {
    Table(map[], [])
  }

  /** One non-compliant person this frame (the `else` branch of the person loop). */
  function Observe(t: Table, now: real, id: int): Step
  {
    if id !in t.records then
      Step(Table(t.records[id := Record(now, false)], t.order + [id]), [])
    else
      var r := t.records[id];
      if now - r.startTime > WarnSeconds && !r.warned then
        Step(Table(t.records[id := r.(warned := true)], t.order), [Critical(id)])
      else
        Step(t, [])
  }

  /** Observing the non-compliant persons of a frame, in person order. */
  function ObserveAll(t: Table, now: real, ids: seq<int>): Step
  {
    if ids == [] then Step(t, [])
    else
      var s := ObserveAll(t, now, ids[..|ids| - 1]);
      var o := Observe(s.table, now, ids[|ids| - 1]);
      Step(o.table, s.alerts + o.alerts)
  }

  /** The keys of `ks` that stay, in order. */
  function Keep(ks: seq<int>, keep: set<int>): seq<int>
  {
    if ks == [] then []
    else
      Keep(ks[..|ks| - 1], keep) + (if ks[|ks| - 1] in keep then [ks[|ks| - 1]] else [])
  }

  /** The INFO alerts of the cleanup loop over the keys `ks`. */
  function ResolvedAlerts(records: map<int, Record>, keep: set<int>, ks: seq<int>): seq<Alert>
  {
    if ks == [] then []
    else
      var k := ks[|ks| - 1];
      ResolvedAlerts(records, keep, ks[..|ks| - 1])
      + (if k !in keep && k in records && records[k].warned then [Resolved(k)] else [])
  }

  /** The cleanup loop: delete every record whose id is not in `keep`. */
  function Cleanup(t: Table, keep: set<int>): Step
  {
    Step(Table(map k | k in t.records && k in keep :: t.records[k], Keep(t.order, keep)),
         ResolvedAlerts(t.records, keep, t.order))
  }

  /** The records left after the cleanup loop has visited the keys `ks`. */
  function Drop(records: map<int, Record>, keep: set<int>, ks: seq<int>): map<int, Record>
  {
    if ks == [] then records
    else
      var rest := Drop(records, keep, ks[..|ks| - 1]);
      var k := ks[|ks| - 1];
      if k in keep then rest else rest - {k}
  }

  /** Visiting `ks` deletes exactly the visited keys that are not kept and leaves the other records as they were. */
  lemma {:induction false} DropAt(records: map<int, Record>, keep: set<int>, ks: seq<int>)
    ensures forall k :: k in Drop(records, keep, ks) <==> k in records && (k in keep || k !in ks)
    ensures forall k :: k in Drop(records, keep, ks) ==> Drop(records, keep, ks)[k] == records[k]
  {
    if ks != [] {
      DropAt(records, keep, ks[..|ks| - 1]);
      assert ks == ks[..|ks| - 1] + [ks[|ks| - 1]];
    }
  }

  /** One more key of the cleanup loop: over distinct keys of the table, the
      key still has its original record, and the remaining records, the kept
      keys and the alerts grow by that key's outcome. */
  lemma CleanupStep(t: Table, keep: set<int>, i: nat)
    requires WellFormed(t) && i < |t.order|
    ensures var k := t.order[i];
      && k in Drop(t.records, keep, t.order[..i])
      && Drop(t.records, keep, t.order[..i])[k] == t.records[k]
      && Drop(t.records, keep, t.order[..i + 1])
         == (if k in keep then Drop(t.records, keep, t.order[..i]) else Drop(t.records, keep, t.order[..i]) - {k})
      && Keep(t.order[..i + 1], keep) == Keep(t.order[..i], keep) + (if k in keep then [k] else [])
      && ResolvedAlerts(t.records, keep, t.order[..i + 1])
         == ResolvedAlerts(t.records, keep, t.order[..i])
            + (if k !in keep && t.records[k].warned then [Resolved(k)] else [])
  {
    var ks := t.order;
    assert ks[..i + 1][..i] == ks[..i];
    assert ks[i] !in ks[..i];
    DropAt(t.records, keep, ks[..i]);
  }

  /** After all keys, the loop's state is the cleaned table. */
  lemma CleanupDone(t: Table, keep: set<int>)
    requires WellFormed(t)
    ensures t.order[..|t.order|] == t.order
    ensures Drop(t.records, keep, t.order) == Cleanup(t, keep).table.records
  {
    assert t.order[..|t.order|] == t.order;
    DropAt(t.records, keep, t.order);
    var d := Drop(t.records, keep, t.order);
    var expected := Cleanup(t, keep).table.records;
    assert forall k :: k in d <==> k in expected;
    assert forall k :: k in d ==> d[k] == expected[k];
  }

  /** One frame of the tracker; `ids` are the non-compliant person ids in person order. */
  function Tick(t: Table, now: real, ids: seq<int>): Step
  {
    var o := ObserveAll(t, now, ids);
    var c := Cleanup(o.table, IdSet(ids));
    Step(c.table, o.alerts + c.alerts)
  }

  /** The CRITICAL condition of the state table: an existing, unwarned record
      whose elapsed time is strictly greater than UYARI_SURESI. */
  predicate Fires(t: Table, now: real, id: int)
  {
    id in t.records && !t.records[id].warned && now - t.records[id].startTime > WarnSeconds
  }

  /** The record a violating person has after the frame: a fresh unwarned one
      started now, or the old one with the same start and warned set once the
      time is exceeded. */
  function Violating(t: Table, now: real, id: int): Record
  {
    if id in t.records then
      var r := t.records[id];
      Record(r.startTime, r.warned || now - r.startTime > WarnSeconds)
    else
      Record(now, false)
  }

  lemma ObserveWellFormed(t: Table, now: real, id: int)
    requires WellFormed(t)
    ensures WellFormed(Observe(t, now, id).table)
  {
    if id !in t.records {
      var o := t.order + [id];
      forall i, j | 0 <= i < j < |o| ensures o[i] != o[j] {
        if j == |o| - 1 {
          assert o[i] in t.order;
        }
      }
    }
  }

  lemma {:induction false} ObserveAllWellFormed(t: Table, now: real, ids: seq<int>)
    requires WellFormed(t)
    ensures WellFormed(ObserveAll(t, now, ids).table)
  {
    if ids != [] {
      ObserveAllWellFormed(t, now, ids[..|ids| - 1]);
      ObserveWellFormed(ObserveAll(t, now, ids[..|ids| - 1]).table, now, ids[|ids| - 1]);
    }
  }

  /** Observing `x` seen from the id `id`. */
  lemma ObserveAt(t: Table, now: real, x: int, id: int)
    ensures var o := Observe(t, now, x);
      && (id in o.table.records <==> id in t.records || id == x)
      && (id != x && id in t.records ==> o.table.records[id] == t.records[id])
      && (id == x ==> o.table.records[id] == Violating(t, now, id))
      && multiset(o.alerts)[Critical(id)] == (if id == x && Fires(t, now, id) then 1 else 0)
      && multiset(o.alerts)[Resolved(id)] == 0
  {
  }

  /** Observing the same person twice in one frame changes nothing the second time. */
  lemma ObserveTwice(t: Table, now: real, id: int)
    ensures var t' := Observe(t, now, id).table;
      Violating(t', now, id) == Violating(t, now, id) && !Fires(t', now, id)
  {
  }

  /** The person loop seen from one id: whether it has a record afterwards,
      what that record is, and how many alerts of each kind it caused. A
      person seen twice in one frame gets no second alert. */
  lemma {:induction false} ObserveAllAt(t: Table, now: real, ids: seq<int>, id: int)
    ensures var s := ObserveAll(t, now, ids);
      && (id in s.table.records <==> id in t.records || id in ids)
      && (id !in ids && id in t.records ==> s.table.records[id] == t.records[id])
      && (id in ids ==> s.table.records[id] == Violating(t, now, id))
      && multiset(s.alerts)[Critical(id)] == (if id in ids && Fires(t, now, id) then 1 else 0)
      && multiset(s.alerts)[Resolved(id)] == 0
  {
    if ids != [] {
      var pre := ids[..|ids| - 1];
      var x := ids[|ids| - 1];
      ObserveAllAt(t, now, pre, id);
      assert ids == pre + [x];
      assert id in ids <==> id in pre || id == x;
      var s := ObserveAll(t, now, pre);
      var o := Observe(s.table, now, x);
      ObserveAt(s.table, now, x, id);
      assert multiset(ObserveAll(t, now, ids).alerts) == multiset(s.alerts) + multiset(o.alerts);
      if id == x && id in pre {
        ObserveTwice(t, now, id);
        assert s.table.records[id] == Violating(t, now, id);
        assert Violating(s.table, now, id) == Violating(t, now, id);
        assert !Fires(s.table, now, id);
      } else if id == x {
        assert id in s.table.records <==> id in t.records;
        assert id in t.records ==> s.table.records[id] == t.records[id];
        assert Violating(s.table, now, id) == Violating(t, now, id);
        assert Fires(s.table, now, id) == Fires(t, now, id);
      }
    }
  }

  lemma {:induction false} KeepAt(ks: seq<int>, keep: set<int>)
    ensures forall x :: x in Keep(ks, keep) <==> x in ks && x in keep
    ensures Distinct(ks) ==> Distinct(Keep(ks, keep))
  {
    if ks != [] {
      var pre := ks[..|ks| - 1];
      var x := ks[|ks| - 1];
      KeepAt(pre, keep);
      assert ks == pre + [x];
      if Distinct(ks) {
        assert Distinct(pre);
        var r := Keep(ks, keep);
        if x in keep {
          assert x !in pre;
          forall i, j | 0 <= i < j < |r| ensures r[i] != r[j] {
            if j == |r| - 1 {
              assert r[i] in Keep(pre, keep);
            }
          }
        }
      }
    }
  }

  /** Over distinct keys, a key gets one INFO alert iff it is dropped and warned. */
  lemma {:induction false} ResolvedAlertsAt(records: map<int, Record>, keep: set<int>, ks: seq<int>, id: int)
    requires Distinct(ks)
    ensures multiset(ResolvedAlerts(records, keep, ks))[Resolved(id)]
      == (if id in ks && id in records && id !in keep && records[id].warned then 1 else 0)
    ensures multiset(ResolvedAlerts(records, keep, ks))[Critical(id)] == 0
  {
    if ks != [] {
      var pre := ks[..|ks| - 1];
      var x := ks[|ks| - 1];
      assert ks == pre + [x];
      assert Distinct(pre);
      assert x !in pre;
      ResolvedAlertsAt(records, keep, pre, id);
      assert id in ks <==> id in pre || id == x;
    }
  }

  lemma CleanupWellFormed(t: Table, keep: set<int>)
    requires WellFormed(t)
    ensures WellFormed(Cleanup(t, keep).table)
  {
    KeepAt(t.order, keep);
  }

  /** The cleanup loop seen from one id: it keeps the record iff the id is in
      `keep`, and it emits one INFO alert iff it deletes a warned record. */
  lemma CleanupAt(t: Table, keep: set<int>, id: int)
    requires WellFormed(t)
    ensures var c := Cleanup(t, keep);
      && (id in c.table.records <==> id in t.records && id in keep)
      && (id in c.table.records ==> c.table.records[id] == t.records[id])
      && multiset(c.alerts)[Resolved(id)]
         == (if id in t.records && id !in keep && t.records[id].warned then 1 else 0)
      && multiset(c.alerts)[Critical(id)] == 0
  {
    ResolvedAlertsAt(t.records, keep, t.order, id);
  }

  /** One frame seen from one person id, for a well-formed tracker: the
      complete state table. After the frame the id has a record iff it was
      non-compliant this frame; a first-time violator gets (now, unwarned); an
      existing record keeps its start time and its warned flag only ever goes
      from false to true; exactly one CRITICAL alert is emitted iff the record
      existed, was unwarned and its elapsed time exceeded UYARI_SURESI; exactly
      one INFO alert is emitted iff a warned record is deleted. */
  lemma TickAt(t: Table, now: real, ids: seq<int>, id: int)
    requires WellFormed(t)
    ensures var r := Tick(t, now, ids);
      && WellFormed(r.table)
      && (id in r.table.records <==> id in ids)
      && (id in ids ==> r.table.records[id] == Violating(t, now, id))
      && multiset(r.alerts)[Critical(id)] == (if id in ids && Fires(t, now, id) then 1 else 0)
      && multiset(r.alerts)[Resolved(id)]
         == (if id in t.records && id !in ids && t.records[id].warned then 1 else 0)
  {
    var o := ObserveAll(t, now, ids);
    ObserveAllWellFormed(t, now, ids);
    ObserveAllAt(t, now, ids, id);
    CleanupWellFormed(o.table, IdSet(ids));
    CleanupAt(o.table, IdSet(ids), id);
    var c := Cleanup(o.table, IdSet(ids));
    assert multiset(Tick(t, now, ids).alerts) == multiset(o.alerts) + multiset(c.alerts);
  }

  /** After a frame the tracker's keys are exactly the frame's no-helmet ids. */
  lemma TickKeys(t: Table, now: real, ids: seq<int>)
    requires WellFormed(t)
    ensures WellFormed(Tick(t, now, ids).table)
    ensures Tick(t, now, ids).table.records.Keys == IdSet(ids)
  {
    TickAt(t, now, ids, 0);
    forall id ensures id in Tick(t, now, ids).table.records <==> id in ids {
      TickAt(t, now, ids, id);
    }
  }

  /** A warned record stays warned, with its start time, while the person
      keeps violating. */
  lemma WarnedNeverResets(t: Table, now: real, ids: seq<int>, id: int)
    requires WellFormed(t) && id in t.records && t.records[id].warned && id in ids
    ensures id in Tick(t, now, ids).table.records
    ensures Tick(t, now, ids).table.records[id] == t.records[id]
    ensures multiset(Tick(t, now, ids).alerts)[Critical(id)] == 0
  {
    TickAt(t, now, ids, id);
  }

  /** Leaving the no-helmet set for a single frame deletes the record, so a
      later violation restarts the timer from that later frame. */
  lemma ResetAfterAbsence(t: Table, now1: real, ids1: seq<int>, now2: real, ids2: seq<int>, id: int)
    requires WellFormed(t) && id !in ids1 && id in ids2
    ensures id !in Tick(t, now1, ids1).table.records
    ensures id in Tick(Tick(t, now1, ids1).table, now2, ids2).table.records
    ensures Tick(Tick(t, now1, ids1).table, now2, ids2).table.records[id] == Record(now2, false)
    ensures multiset(Tick(Tick(t, now1, ids1).table, now2, ids2).alerts)[Critical(id)] == 0
  {
    TickAt(t, now1, ids1, id);
    TickAt(Tick(t, now1, ids1).table, now2, ids2, id);
  }

  /** One frame's input to the tracker. */
  datatype Observation = Observation(now: real, violators: seq<int>)

  /** The tracker over a sequence of frames. */
  function Run(t: Table, frames: seq<Observation>): Step
  {
    if frames == [] then Step(t, [])
    else
      var s := Run(t, frames[..|frames| - 1]);
      var f := frames[|frames| - 1];
      var k := Tick(s.table, f.now, f.violators);
      Step(k.table, s.alerts + k.alerts)
  }

  /** Running one more frame is one more tick, its alerts after the earlier ones. */
  lemma RunPrefix(t: Table, frames: seq<Observation>, i: nat)
    requires i < |frames|
    ensures var s := Run(t, frames[..i]);
      var k := Tick(s.table, frames[i].now, frames[i].violators);
      Run(t, frames[..i + 1]) == Step(k.table, s.alerts + k.alerts)
  {
    assert frames[..i + 1][..i] == frames[..i];
  }

  lemma {:induction false} RunWellFormed(t: Table, frames: seq<Observation>)
    requires WellFormed(t)
    ensures WellFormed(Run(t, frames).table)
  {
    if frames != [] {
      RunWellFormed(t, frames[..|frames| - 1]);
      TickKeys(Run(t, frames[..|frames| - 1]).table, frames[|frames| - 1].now, frames[|frames| - 1].violators);
    }
  }

  /** 1 when the tracker holds a warned record for `id`, otherwise 0. */
  function WarnedFlag(t: Table, id: int): nat
  {
    if id in t.records && t.records[id].warned then 1 else 0
  }

  /** Over any run, the CRITICAL and the INFO "resolved" alerts about one id
      pair up: every CRITICAL is matched by a later "resolved" except for a
      record still warned at the end, and every "resolved" by an earlier
      CRITICAL except for a record already warned at the start. */
  lemma {:induction false} AlertsPairUp(t: Table, frames: seq<Observation>, id: int)
    requires WellFormed(t)
    ensures var r := Run(t, frames);
      multiset(r.alerts)[Critical(id)] + WarnedFlag(t, id)
      == multiset(r.alerts)[Resolved(id)] + WarnedFlag(r.table, id)
  {
    if frames != [] {
      var pre := frames[..|frames| - 1];
      var f := frames[|frames| - 1];
      var s := Run(t, pre);
      var k := Tick(s.table, f.now, f.violators);
      AlertsPairUp(t, pre, id);
      RunWellFormed(t, pre);
      TickAt(s.table, f.now, f.violators, id);
      assert multiset(s.alerts + k.alerts) == multiset(s.alerts) + multiset(k.alerts);
    }
  }

  /** From the empty tracker, a "resolved" alert for an id only ever follows a
      CRITICAL alert for it: at every point of a run there are at most as many
      "resolved" as CRITICAL alerts, and one fewer exactly while the id's record
      is warned. */
  lemma ResolvedFollowsCritical(frames: seq<Observation>, id: int)
    ensures var r := Run(Empty(), frames);
      multiset(r.alerts)[Critical(id)] == multiset(r.alerts)[Resolved(id)] + WarnedFlag(r.table, id)
    ensures forall n :: 0 <= n <= |frames| ==>
      multiset(Run(Empty(), frames[..n]).alerts)[Resolved(id)]
      <= multiset(Run(Empty(), frames[..n]).alerts)[Critical(id)]
  {
    AlertsPairUp(Empty(), frames, id);
    forall n | 0 <= n <= |frames|
      ensures multiset(Run(Empty(), frames[..n]).alerts)[Resolved(id)]
           <= multiset(Run(Empty(), frames[..n]).alerts)[Critical(id)]
    {
      AlertsPairUp(Empty(), frames[..n], id);
    }
  }

  /** Some frame after the first of a streak is more than UYARI_SURESI after it. */
  predicate Exceeded(frames: seq<Observation>)
    requires |frames| >= 1
  {
    exists k :: 1 <= k < |frames| && frames[k].now - frames[0].now > WarnSeconds
  }

  lemma ExceededSnoc(frames: seq<Observation>)
    requires |frames| >= 2
    ensures Exceeded(frames) <==>
      Exceeded(frames[..|frames| - 1]) || frames[|frames| - 1].now - frames[0].now > WarnSeconds
  {
    var pre := frames[..|frames| - 1];
    if Exceeded(frames) {
      var j :| 1 <= j < |frames| && frames[j].now - frames[0].now > WarnSeconds;
      if j < |pre| {
        assert pre[j] == frames[j];
      }
    }
    if Exceeded(pre) {
      var j :| 1 <= j < |pre| && pre[j].now - pre[0].now > WarnSeconds;
      assert frames[j] == pre[j];
    }
  }

  /** One more violating frame of a streak started at `start`. */
  lemma StreakStep(t: Table, f: Observation, id: int, start: real, warned: bool)
    requires WellFormed(t) && id in t.records && t.records[id] == Record(start, warned)
    requires id in f.violators
    ensures var k := Tick(t, f.now, f.violators);
      && WellFormed(k.table)
      && id in k.table.records
      && k.table.records[id] == Record(start, warned || f.now - start > WarnSeconds)
      && multiset(k.alerts)[Critical(id)] == (if !warned && f.now - start > WarnSeconds then 1 else 0)
      && multiset(k.alerts)[Resolved(id)] == 0
  {
    TickAt(t, f.now, f.violators, id);
  }

  /** An unbroken violating streak: a person with no record who is
      non-compliant in every frame keeps the record started at the first
      frame, is warned exactly once the elapsed time has exceeded UYARI_SURESI
      in some frame, and receives exactly one CRITICAL alert in that case and
      none otherwise, however long the streak lasts; nothing is resolved. */
  lemma {:induction false} Streak(t: Table, frames: seq<Observation>, id: int)
    requires WellFormed(t) && id !in t.records && |frames| >= 1
    requires forall i :: 0 <= i < |frames| ==> id in frames[i].violators
    ensures var r := Run(t, frames);
      && WellFormed(r.table)
      && id in r.table.records
      && r.table.records[id] == Record(frames[0].now, Exceeded(frames))
      && multiset(r.alerts)[Critical(id)] == (if Exceeded(frames) then 1 else 0)
      && multiset(r.alerts)[Resolved(id)] == 0
  {
    var pre := frames[..|frames| - 1];
    var f := frames[|frames| - 1];
    var s := Run(t, pre);
    var k := Tick(s.table, f.now, f.violators);
    assert Run(t, frames) == Step(k.table, s.alerts + k.alerts);
    assert multiset(s.alerts + k.alerts) == multiset(s.alerts) + multiset(k.alerts);
    if |frames| == 1 {
      assert pre == [];
      assert s == Step(t, []);
      TickAt(t, f.now, f.violators, id);
      assert !Exceeded(frames);
    } else {
      Streak(t, pre, id);
      assert pre[0] == frames[0];
      ExceededSnoc(frames);
      StreakStep(s.table, f, id, frames[0].now, Exceeded(pre));
    }
  }

  /** Scenario: unwarned at t = 0, CRITICAL at t = 11, silent at t = 15, INFO
      "resolved" and no record when the person leaves at t = 16. */
  lemma ScenarioWarnThenResolve(e: Table)
    requires WellFormed(e) && 1 !in e.records
    ensures var t0 := Tick(e, 0.0, [1]);
      var t1 := Tick(t0.table, 11.0, [1]);
      var t2 := Tick(t1.table, 15.0, [1]);
      var t3 := Tick(t2.table, 16.0, []);
      && 1 in t0.table.records && t0.table.records[1] == Record(0.0, false)
      && multiset(t0.alerts)[Critical(1)] == 0
      && multiset(t1.alerts)[Critical(1)] == 1
      && multiset(t2.alerts)[Critical(1)] == 0
      && multiset(t3.alerts)[Resolved(1)] == 1 && t3.table.records.Keys == {}
  {
    TickAt(e, 0.0, [1], 1);
    var t0 := Tick(e, 0.0, [1]);
    TickAt(t0.table, 11.0, [1], 1);
    var t1 := Tick(t0.table, 11.0, [1]);
    TickAt(t1.table, 15.0, [1], 1);
    var t2 := Tick(t1.table, 15.0, [1]);
    TickAt(t2.table, 16.0, [], 1);
    TickKeys(t2.table, 16.0, []);
    assert IdSet([]) == {};
  }
}
