/** The per-pair geometric test of the two-model monitor: a helmet is worn by a
    person when the helmet's (truncated) centre lies strictly inside the person
    box horizontally and strictly inside the top 30% of it vertically. */
module Geometry {
  import opened Detections

  datatype Point = Point(x: int, y: int)

  /** `r` is `s / 2` truncated toward zero, as Python's `int(s / 2)` gives it:
      the floor for a non-negative `s`, the ceiling for a negative one. */
  predicate TruncatedHalf(s: int, r: int)
  {
    (s >= 0 ==> 2 * r <= s <= 2 * r + 1) && (s < 0 ==> 2 * r - 1 <= s <= 2 * r)
  }

  /** `int((a + b) / 2)` on an integer sum. Dafny's `/` is Euclidean, so the
      negative case is written out. */
  function TruncHalf(s: int): (r: int)
    ensures TruncatedHalf(s, r)
    ensures -1 <= s - 2 * r <= 1
  {
    if s >= 0 then s / 2 else -((-s) / 2)
  }

  /** Truncation toward zero has exactly one result. */
  lemma TruncatedHalfUnique(s: int, r: int, r': int)
    requires TruncatedHalf(s, r) && TruncatedHalf(s, r')
    ensures r == r'
  {
  }

  /** get_bbox_center: the midpoint of the box, each coordinate truncated. */
  function BoxCenter(b: BBox): (c: Point)
    ensures TruncatedHalf(b.x1 + b.x2, c.x) && TruncatedHalf(b.y1 + b.y2, c.y)
  {
    Point(TruncHalf(b.x1 + b.x2), TruncHalf(b.y1 + b.y2))
  }

  /** The helmet centre's row `y` lies above the person's shoulder line (image
      rows grow downward), top_percentage = 0.3, compared exactly:
      `y < y1 + 0.3 * (y2 - y1)` is `10 * (y - y1) < 3 * (y2 - y1)`. */
  predicate InShoulderBand(y: int, person: BBox)
  {
    10 * (y - person.y1) < 3 * (person.y2 - person.y1)
  }

  /** The exact comparison is the source's comparison against the shoulder
      line `y1 + height * 0.3`, taken over the rationals. */
  lemma ShoulderLineExact(y: int, person: BBox)
    ensures InShoulderBand(y, person) <==>
      (y as real) < (person.y1 as real) + ((person.y2 - person.y1) as real) * 0.3
  {
  }

  /** is_on_shoulders(helmet, person). */
  predicate IsOnShoulders(helmet: BBox, person: BBox)
  {
    var c := BoxCenter(helmet);
    var horizontallyAligned := person.x1 < c.x < person.x2;
    var verticallyAligned := person.y1 < c.y && InShoulderBand(c.y, person);
    horizontallyAligned && verticallyAligned
  }

  /** The test holds exactly when the truncated centre is strictly inside the
      box horizontally and strictly between the top edge and the shoulder line
      `y1 + height * 0.3` vertically; a centre on any of the four edges of that
      band is rejected. */
  lemma OnShouldersIffInsideBand(helmet: BBox, person: BBox)
    ensures var c := BoxCenter(helmet);
      IsOnShoulders(helmet, person) <==>
        && person.x1 < c.x < person.x2
        && person.y1 < c.y
        && (c.y as real) < (person.y1 as real) + ((person.y2 - person.y1) as real) * 0.3
    ensures var c := BoxCenter(helmet);
      (c.x == person.x1 || c.x == person.x2 || c.y == person.y1
       || (c.y as real) == (person.y1 as real) + ((person.y2 - person.y1) as real) * 0.3)
      ==> !IsOnShoulders(helmet, person)
  {
    ShoulderLineExact(BoxCenter(helmet).y, person);
  }

  /** Horizontal alignment stated on the helmet's edges, without the
      truncation: for a non-negative sum the centre must lie at least one whole
      pixel right of x1, so a midpoint at x1 + 0.5 is rejected although it is
      strictly inside. */
  lemma {:induction false} HorizontalIffEdges(helmet: BBox, person: BBox)
    ensures var s := helmet.x1 + helmet.x2;
      var c := BoxCenter(helmet);
      (person.x1 < c.x < person.x2) <==>
        (if s >= 0 then 2 * person.x1 + 2 <= s < 2 * person.x2
         else 2 * person.x1 < s <= 2 * person.x2 - 2)
  {
    var s := helmet.x1 + helmet.x2;
    var c := BoxCenter(helmet);
    assert TruncatedHalf(s, c.x);
  }

  /** Scenario: person (100,100,200,300), helmet (140,110,160,130): the centre
      (150,120) is inside the band [100,160), the helmet is worn. A helmet at
      (140,250,160,270), centre (150,260), is below the band. */
  lemma ScenarioBand()
    ensures IsOnShoulders(BBox(140, 110, 160, 130), BBox(100, 100, 200, 300))
    ensures !IsOnShoulders(BBox(140, 250, 160, 270), BBox(100, 100, 200, 300))
  {
    assert BoxCenter(BBox(140, 110, 160, 130)) == Point(150, 120);
    assert BoxCenter(BBox(140, 250, 160, 270)) == Point(150, 260);
  }
}
