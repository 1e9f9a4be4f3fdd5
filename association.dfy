/** The per-frame spatial associator of `VideoThread.run`: each person is
    scanned against the helmets in list order and takes the first helmet that
    passes `IsOnShoulders`; that helmet's id is added to the drawn (claimed)
    set, which does not stop a later person from matching the same helmet. */
module Association {
  import opened Detections
  import opened Geometry

  /** Index of the first helmet that sits on the person's shoulders. */
  function FirstMatch(helmets: seq<Detection>, person: BBox): (r: Option<nat>)
    ensures r.Some? ==> r.value < |helmets| && IsOnShoulders(helmets[r.value].box, person)
    ensures r.Some? ==> forall j :: 0 <= j < r.value ==> !IsOnShoulders(helmets[j].box, person)
    ensures r.None? <==> forall j :: 0 <= j < |helmets| ==> !IsOnShoulders(helmets[j].box, person)
    decreases |helmets|
  {
    if helmets == [] then None
    else if IsOnShoulders(helmets[0].box, person) then Some(0)
    else match FirstMatch(helmets[1..], person)
      case None => None
      case Some(i) => Some(i + 1)
  }

  /** The frame status of one person: compliant iff a helmet was matched. */
  datatype PersonStatus = PersonStatus(personId: int, helmet: Option<Detection>)
  {
    predicate Compliant() { helmet.Some? }
  }

  function StatusOf(person: Detection, helmets: seq<Detection>): (s: PersonStatus)
    ensures s.personId == person.id
    ensures s.Compliant() ==> s.helmet.value in helmets && IsOnShoulders(s.helmet.value.box, person.box)
  {
    match FirstMatch(helmets, person.box)
    case None => PersonStatus(person.id, None)
    case Some(j) => PersonStatus(person.id, Some(helmets[j]))
  }

  /** A person is compliant iff at least one helmet passes the shoulder test,
      and the matched helmet is the first such helmet in list order. */
  lemma CompliantIffSomeHelmet(person: Detection, helmets: seq<Detection>)
    ensures StatusOf(person, helmets).Compliant() <==>
      exists j :: 0 <= j < |helmets| && IsOnShoulders(helmets[j].box, person.box)
    ensures StatusOf(person, helmets).Compliant() ==>
      exists j :: 0 <= j < |helmets| && StatusOf(person, helmets).helmet.value == helmets[j]
        && IsOnShoulders(helmets[j].box, person.box)
        && forall k :: 0 <= k < j ==> !IsOnShoulders(helmets[k].box, person.box)
  {
  }

  /** Number of persons with a helmet (baret_takan_sayisi). */
  function CompliantCount(persons: seq<Detection>, helmets: seq<Detection>): nat
  {
    if persons == [] then 0
    else
      CompliantCount(persons[..|persons| - 1], helmets)
      + (if StatusOf(persons[|persons| - 1], helmets).Compliant() then 1 else 0)
  }

  /** Ids of the persons without a helmet, in person order; their number is
      baret_takmayan_sayisi and their set current_frame_person_ids_no_helmet. */
  function Violators(persons: seq<Detection>, helmets: seq<Detection>): seq<int>
  {
    if persons == [] then []
    else
      var last := persons[|persons| - 1];
      Violators(persons[..|persons| - 1], helmets)
      + (if StatusOf(last, helmets).Compliant() then [] else [last.id])
  }

  /** drawn_helmet_ids: ids of the helmets some person matched. */
  function Claimed(persons: seq<Detection>, helmets: seq<Detection>): set<int>
  {
    if persons == [] then {}
    else
      var s := StatusOf(persons[|persons| - 1], helmets);
      Claimed(persons[..|persons| - 1], helmets)
      + (if s.Compliant() then {s.helmet.value.id} else {})
  }

  /** Helmets drawn as unassigned: those whose id was never claimed, in list order. */
  function Unassigned(helmets: seq<Detection>, claimed: set<int>): seq<Detection>
  {
    if helmets == [] then []
    else
      var last := helmets[|helmets| - 1];
      Unassigned(helmets[..|helmets| - 1], claimed)
      + (if last.id in claimed then [] else [last])
  }

  /** Every person is counted exactly once, as compliant or as a violator. */
  lemma {:induction false} CountsCoverPersons(persons: seq<Detection>, helmets: seq<Detection>)
    ensures CompliantCount(persons, helmets) + |Violators(persons, helmets)| == |persons|
  {
    if persons != [] {
      CountsCoverPersons(persons[..|persons| - 1], helmets);
    }
  }

  /** An id is in the no-helmet list iff some person with that id matched no helmet. */
  lemma {:induction false} ViolatorsAreUnmatched(persons: seq<Detection>, helmets: seq<Detection>, id: int)
    ensures id in Violators(persons, helmets) <==>
      exists i :: 0 <= i < |persons| && persons[i].id == id && !StatusOf(persons[i], helmets).Compliant()
  {
    if persons != [] {
      var pre := persons[..|persons| - 1];
      ViolatorsAreUnmatched(pre, helmets, id);
      if exists i :: 0 <= i < |persons| && persons[i].id == id && !StatusOf(persons[i], helmets).Compliant() {
        var i :| 0 <= i < |persons| && persons[i].id == id && !StatusOf(persons[i], helmets).Compliant();
        if i < |pre| {
          assert pre[i] == persons[i];
        }
      }
      if id in Violators(pre, helmets) {
        var i :| 0 <= i < |pre| && pre[i].id == id && !StatusOf(pre[i], helmets).Compliant();
        assert persons[i] == pre[i];
      }
    }
  }

  /** With distinct person ids, the no-helmet count equals the size of the no-helmet id set. */
  lemma {:induction false} DistinctViolatorCount(persons: seq<Detection>, helmets: seq<Detection>)
    requires DistinctIds(persons)
    ensures |IdSet(Violators(persons, helmets))| == |Violators(persons, helmets)|
  {
    if persons != [] {
      var pre := persons[..|persons| - 1];
      var last := persons[|persons| - 1];
      assert DistinctIds(pre);
      DistinctViolatorCount(pre, helmets);
      if !StatusOf(last, helmets).Compliant() {
        ViolatorsAreUnmatched(pre, helmets, last.id);
        assert last.id !in Violators(pre, helmets);
        assert IdSet(Violators(persons, helmets)) == IdSet(Violators(pre, helmets)) + {last.id};
      } else {
        assert IdSet(Violators(persons, helmets)) == IdSet(Violators(pre, helmets));
      }
    }
  }

  /** The person claims the helmet id `id` this frame. */
  predicate ClaimsId(person: Detection, helmets: seq<Detection>, id: int)
  {
    var s := StatusOf(person, helmets);
    s.Compliant() && s.helmet.value.id == id
  }

  /** A helmet id is claimed iff some person's matched helmet carries it. */
  lemma {:induction false} ClaimedAreMatched(persons: seq<Detection>, helmets: seq<Detection>, id: int)
    ensures id in Claimed(persons, helmets) ==>
      exists i :: 0 <= i < |persons| && ClaimsId(persons[i], helmets, id)
    ensures forall i :: 0 <= i < |persons| && ClaimsId(persons[i], helmets, id) ==>
      id in Claimed(persons, helmets)
  {
    if persons != [] {
      var pre := persons[..|persons| - 1];
      var last := persons[|persons| - 1];
      ClaimedAreMatched(pre, helmets, id);
      if id in Claimed(persons, helmets) {
        if id in Claimed(pre, helmets) {
          var i :| 0 <= i < |pre| && ClaimsId(pre[i], helmets, id);
          assert persons[i] == pre[i];
        } else {
          assert ClaimsId(persons[|persons| - 1], helmets, id);
        }
      }
      forall i | 0 <= i < |persons| && ClaimsId(persons[i], helmets, id)
        ensures id in Claimed(persons, helmets)
      {
        if i < |pre| {
          assert pre[i] == persons[i];
        }
      }
    }
  }

  /** drawn_helmet_ids is a subset of the frame's helmet ids. */
  lemma {:induction false} ClaimedAreHelmetIds(persons: seq<Detection>, helmets: seq<Detection>)
    ensures Claimed(persons, helmets) <= Ids(helmets)
  {
    if persons != [] {
      ClaimedAreHelmetIds(persons[..|persons| - 1], helmets);
      var s := StatusOf(persons[|persons| - 1], helmets);
      if s.Compliant() {
        var k :| 0 <= k < |helmets| && helmets[k] == s.helmet.value;
        assert helmets[k].id in Ids(helmets);
      }
    }
  }

  /** A helmet is drawn as unassigned iff its id was never claimed. */
  lemma {:induction false} UnassignedIff(helmets: seq<Detection>, claimed: set<int>, h: Detection)
    ensures h in Unassigned(helmets, claimed) <==> h in helmets && h.id !in claimed
  {
    if helmets != [] {
      var pre := helmets[..|helmets| - 1];
      UnassignedIff(pre, claimed, h);
      assert helmets == pre + [helmets[|helmets| - 1]];
    }
  }

  /** Claiming is not exclusive: two overlapping persons both match the one
      helmet, and that helmet is claimed once. */
  lemma SharedHelmet()
    ensures var h := Detection(7, BBox(140, 110, 160, 130));
      var p1 := Detection(1, BBox(100, 100, 200, 300));
      var p2 := Detection(2, BBox(120, 100, 220, 300));
      && StatusOf(p1, [h]).helmet == Some(h)
      && StatusOf(p2, [h]).helmet == Some(h)
      && Claimed([p1, p2], [h]) == {7}
      && Violators([p1, p2], [h]) == []
  {
    var h := Detection(7, BBox(140, 110, 160, 130));
    var p1 := Detection(1, BBox(100, 100, 200, 300));
    var p2 := Detection(2, BBox(120, 100, 220, 300));
    assert BoxCenter(h.box) == Point(150, 120);
    assert IsOnShoulders(h.box, p1.box) && IsOnShoulders(h.box, p2.box);
    assert FirstMatch([h], p1.box) == Some(0) && FirstMatch([h], p2.box) == Some(0);
    assert StatusOf(p1, [h]) == PersonStatus(1, Some(h));
    assert StatusOf(p2, [h]) == PersonStatus(2, Some(h));
    assert [p1, p2][..1] == [p1];
    assert [p1][..0] == [];
    assert Claimed([p1], [h]) == {7};
    assert Violators([p1], [h]) == [];
  }

  /** One more person extends the counts, the violator list and the claimed set by that person's status. */
  lemma PrefixStep(persons: seq<Detection>, helmets: seq<Detection>, i: nat)
    requires i < |persons|
    ensures var st := StatusOf(persons[i], helmets);
      && CompliantCount(persons[..i + 1], helmets)
         == CompliantCount(persons[..i], helmets) + (if st.Compliant() then 1 else 0)
      && Violators(persons[..i + 1], helmets)
         == Violators(persons[..i], helmets) + (if st.Compliant() then [] else [persons[i].id])
      && Claimed(persons[..i + 1], helmets)
         == Claimed(persons[..i], helmets) + (if st.Compliant() then {st.helmet.value.id} else {})
  {
    assert persons[..i + 1][..i] == persons[..i];
  }

  /** The inner helmet loop of one person: scan in list order and `break` on
      the first helmet on the person's shoulders. */
  method FirstHelmetOnShoulders(helmets: seq<Detection>, person: BBox) returns (found: Option<nat>)
    ensures found == FirstMatch(helmets, person)
  {
    found := None;
    var j := 0;
    while j < |helmets|
      invariant 0 <= j <= |helmets|
      invariant found == None
      invariant forall k :: 0 <= k < j ==> !IsOnShoulders(helmets[k].box, person)
    {
      if IsOnShoulders(helmets[j].box, person) {
        found := Some(j);
        break;
      }
      j := j + 1;
    }
  }

  /** One person of the person loop: the status the helmet scan gives, with the
      matched helmet, if any. */
  method ClassifyPerson(person: Detection, helmets: seq<Detection>) returns (status: PersonStatus)
    ensures status == StatusOf(person, helmets)
  {
    var found := FirstHelmetOnShoulders(helmets, person.box);
    status := PersonStatus(person.id, if found.Some? then Some(helmets[found.value]) else None);
  }

  /** What the person loop of one frame produces. */
  datatype FrameResult = FrameResult(
    statuses: seq<PersonStatus>,
    compliant: nat,
    nonCompliant: nat,
    violators: seq<int>,
    noHelmet: set<int>,
    drawn: set<int>)

  /** The person loop (persons outer, helmets inner with `break`) and its counters. */
  method AssociateFrame(persons: seq<Detection>, helmets: seq<Detection>) returns (r: FrameResult)
    ensures |r.statuses| == |persons|
    ensures forall i :: 0 <= i < |persons| ==> r.statuses[i] == StatusOf(persons[i], helmets)
    ensures r.compliant == CompliantCount(persons, helmets)
    ensures r.violators == Violators(persons, helmets)
    ensures r.nonCompliant == |r.violators|
    ensures r.noHelmet == IdSet(r.violators)
    ensures r.drawn == Claimed(persons, helmets)
    ensures r.compliant + r.nonCompliant == |persons|
  {
    var compliant, nonCompliant := 0, 0;
    var noHelmet: set<int> := {};
    var drawn: set<int> := {};
    var violators: seq<int> := [];
    var statuses: seq<PersonStatus> := [];
    for i := 0 to |persons|
      invariant |statuses| == i
      invariant forall k :: 0 <= k < i ==> statuses[k] == StatusOf(persons[k], helmets)
      invariant compliant == CompliantCount(persons[..i], helmets)
      invariant violators == Violators(persons[..i], helmets)
      invariant nonCompliant == |violators|
      invariant noHelmet == IdSet(violators)
      invariant drawn == Claimed(persons[..i], helmets)
    {
      var person := persons[i];
      var status := ClassifyPerson(person, helmets);
      PrefixStep(persons, helmets, i);
      if status.Compliant() {
        compliant := compliant + 1;
        drawn := drawn + {status.helmet.value.id};
      } else {
        nonCompliant := nonCompliant + 1;
        noHelmet := noHelmet + {person.id};
        violators := violators + [person.id];
      }
      statuses := statuses + [status];
    }
    assert persons[..|persons|] == persons;
    CountsCoverPersons(persons, helmets);
    r := FrameResult(statuses, compliant, nonCompliant, violators, noHelmet, drawn);
  }

  /** The unassigned-helmet loop: every helmet whose id is not in `drawn`, in order. */
  method UnassignedHelmets(helmets: seq<Detection>, drawn: set<int>) returns (r: seq<Detection>)
    ensures r == Unassigned(helmets, drawn)
    ensures forall h :: h in r <==> h in helmets && h.id !in drawn
  {
    r := [];
    for i := 0 to |helmets|
      invariant r == Unassigned(helmets[..i], drawn)
    {
      assert helmets[..i + 1][..i] == helmets[..i];
      if helmets[i].id !in drawn {
        r := r + [helmets[i]];
      }
    }
    assert helmets[..|helmets|] == helmets;
    forall h ensures h in r <==> h in helmets && h.id !in drawn {
      UnassignedIff(helmets, drawn, h);
    }
  }
}
