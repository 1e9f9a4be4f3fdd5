/** The simpler single-frame check of the two-model webcam script: a person
    counts as wearing a helmet when the exact midpoint of some helmet box lies
    strictly inside the whole person box. Boxes are the detector's
    floating-point coordinates, modelled as reals. */
module SingleModel {
  import opened Detections
  import opened Geometry

  datatype Box = Box(x1: real, y1: real, x2: real, y2: real)

  /** check_overlap(insan_box, baret_box). */
  predicate CheckOverlap(person: Box, helmet: Box)
  {
    var cx := (helmet.x1 + helmet.x2) / 2.0;
    var cy := (helmet.y1 + helmet.y2) / 2.0;
    person.x1 < cx < person.x2 && person.y1 < cy < person.y2
  }

  /** The test on the helmet's edges, without division: the doubled centre is
      strictly between the doubled person edges on both axes, so a midpoint on
      an edge gives false. */
  lemma OverlapIffDoubled(person: Box, helmet: Box)
    ensures CheckOverlap(person, helmet) <==>
      && 2.0 * person.x1 < helmet.x1 + helmet.x2 < 2.0 * person.x2
      && 2.0 * person.y1 < helmet.y1 + helmet.y2 < 2.0 * person.y2
  {
  }

  /** baretli_mi after the inner loop. */
  predicate HasHelmet(person: Box, helmets: seq<Box>)
  {
    exists h :: h in helmets && CheckOverlap(person, h)
  }

  /** baretsiz_insan_sayisi: persons for which no helmet passes check_overlap. */
  function WithoutHelmet(persons: seq<Box>, helmets: seq<Box>): nat
  {
    if persons == [] then 0
    else
      WithoutHelmet(persons[..|persons| - 1], helmets)
      + (if HasHelmet(persons[|persons| - 1], helmets) then 0 else 1)
  }

  lemma {:induction false} WithoutHelmetBound(persons: seq<Box>, helmets: seq<Box>)
    ensures 0 <= WithoutHelmet(persons, helmets) <= |persons|
  {
    if persons != [] {
      WithoutHelmetBound(persons[..|persons| - 1], helmets);
    }
  }

  /** With no helmet detected, every person is counted as without a helmet. */
  lemma {:induction false} NoHelmetsAllCounted(persons: seq<Box>)
    ensures WithoutHelmet(persons, []) == |persons|
  {
    if persons != [] {
      NoHelmetsAllCounted(persons[..|persons| - 1]);
    }
  }

  /** The count does not depend on the order (or repetition) of the helmet
      boxes: each person's test is an existence test. */
  lemma {:induction false} HelmetOrderIrrelevant(persons: seq<Box>, helmets: seq<Box>, helmets': seq<Box>)
    requires forall h :: h in helmets <==> h in helmets'
    ensures WithoutHelmet(persons, helmets) == WithoutHelmet(persons, helmets')
  {
    if persons != [] {
      HelmetOrderIrrelevant(persons[..|persons| - 1], helmets, helmets');
      var p := persons[|persons| - 1];
      assert HasHelmet(p, helmets) == HasHelmet(p, helmets');
    }
  }

  /** The module-level loop over one frame: total persons and persons without
      a helmet, with the `baretli_mi` flag and an early `break`. */
  method CountWithoutHelmet(persons: seq<Box>, helmets: seq<Box>) returns (total: nat, withoutHelmet: nat)
    ensures total == |persons|
    ensures withoutHelmet == WithoutHelmet(persons, helmets)
    ensures withoutHelmet <= total
  {
    total := |persons|;
    withoutHelmet := 0;
    for i := 0 to |persons|
      invariant withoutHelmet == WithoutHelmet(persons[..i], helmets)
    {
      var hasHelmet := false;
      var j := 0;
      while j < |helmets|
        invariant 0 <= j <= |helmets|
        invariant !hasHelmet
        invariant forall k :: 0 <= k < j ==> !CheckOverlap(persons[i], helmets[k])
      {
        if CheckOverlap(persons[i], helmets[j]) {
          hasHelmet := true;
          break;
        }
        j := j + 1;
      }
      assert hasHelmet == HasHelmet(persons[i], helmets);
      assert persons[..i + 1][..i] == persons[..i];
      if !hasHelmet {
        withoutHelmet := withoutHelmet + 1;
      }
    }
    assert persons[..|persons|] == persons;
    WithoutHelmetBound(persons, helmets);
  }

  /** An integer box seen as the detector's real coordinates. */
  function ToReal(b: BBox): Box
  {
    Box(b.x1 as real, b.y1 as real, b.x2 as real, b.y2 as real)
  }

  /** The shoulder test of the tracking monitor is stricter than this one: a
      helmet on a person's shoulders also has its exact midpoint strictly
      inside the whole person box (for a person box of positive height). */
  lemma ShouldersImpliesOverlap(helmet: BBox, person: BBox)
    requires person.y1 < person.y2
    requires IsOnShoulders(helmet, person)
    ensures CheckOverlap(ToReal(person), ToReal(helmet))
  {
    var c := BoxCenter(helmet);
    var sx := helmet.x1 + helmet.x2;
    var sy := helmet.y1 + helmet.y2;
    assert 2 * person.x1 < sx < 2 * person.x2;
    assert 10 * (c.y - person.y1) <= 3 * (person.y2 - person.y1) - 1;
    assert 2 * person.y1 < sy < 2 * person.y2;
    OverlapIffDoubled(ToReal(person), ToReal(helmet));
  }

  /** The converse fails: the whole-box test accepts a helmet centred low in
      the person box, (150, 260) in (100, 100, 200, 300), which the shoulder
      test rejects. */
  lemma LowHelmetCountsHere()
    ensures CheckOverlap(ToReal(BBox(100, 100, 200, 300)), ToReal(BBox(140, 250, 160, 270)))
    ensures !IsOnShoulders(BBox(140, 250, 160, 270), BBox(100, 100, 200, 300))
  {
    assert BoxCenter(BBox(140, 250, 160, 270)) == Point(150, 260);
  }
}
