/** Line-crossing detection (DetectionFilter::_CheckLineIntersection): each
    track not yet counted and with at least two buffered positions is
    compared against the horizontal reference row, using its oldest and
    newest buffered positions. */
module LineIntersection {
  import opened Geometry
  import opened Detectable

  /** The three session counters _tCounter, _uCounter and _dCounter. */
  datatype Counters = Counters(total: nat, up: nat, down: nat)
  {
    /** Every crossing counted is counted in exactly one direction. */
    predicate Balanced() {
      total == up + down
    }

    /** No counter is below the same counter of an earlier value. */
    predicate AtLeast(earlier: Counters) {
      total >= earlier.total && up >= earlier.up && down >= earlier.down
    }
  }

  /** The track is tested this frame: not counted yet, two positions or more. */
  predicate Eligible(o: DetectableObj) {
    !o.isChecked && |o.posBuffer| > 1
  }

  /** ucheck: the oldest position is below the line (larger y) and the
      newest on or above it. */
  predicate CrossesUp(o: DetectableObj, hLine: int)
    requires |o.posBuffer| > 0
  {
    o.Oldest().y > hLine && o.Newest().y <= hLine
  }

  /** dcheck: the oldest position is above the line and the newest on or
      below it. */
  predicate CrossesDown(o: DetectableObj, hLine: int)
    requires |o.posBuffer| > 0
  {
    o.Oldest().y < hLine && o.Newest().y >= hLine
  }

  /** The track is counted this frame. */
  predicate Counted(o: DetectableObj, hLine: int) {
    Eligible(o) && (CrossesUp(o, hLine) || CrossesDown(o, hLine))
  }

  /** The body of the loop of _CheckLineIntersection for one track. Only the
      isChecked flag may change, and it becomes true exactly when the track
      is counted; the total grows by one exactly then, and the growth goes
      to the up counter or to the down counter according to which side of
      the line the oldest position lies on. */
  function CheckOne(o: DetectableObj, hLine: int, c: Counters): (r: (DetectableObj, Counters))
    ensures r.0 == o.(isChecked := o.isChecked || Counted(o, hLine))
    ensures !Eligible(o) ==> r.1 == c
    ensures r.1.AtLeast(c)
    ensures r.1.total == c.total + (if r.0.isChecked && !o.isChecked then 1 else 0)
    ensures (r.1.up - c.up) + (r.1.down - c.down) == r.1.total - c.total
    ensures r.1.up > c.up ==> o.Oldest().y > hLine >= o.Newest().y
    ensures r.1.down > c.down ==> o.Oldest().y < hLine <= o.Newest().y
  {
    if o.isChecked || |o.posBuffer| <= 1 then (o, c)
    else
      var ucheck := CrossesUp(o, hLine);
      var dcheck := CrossesDown(o, hLine);
      (o.(isChecked := ucheck || dcheck),
       Counters(c.total + (if ucheck || dcheck then 1 else 0),
                c.up + (if ucheck then 1 else 0),
                c.down + (if dcheck then 1 else 0)))
  }

  /** The two direction tests never both hold, so a counted track adds to
      exactly one of the direction counters. */
  lemma DirectionsExclusive(o: DetectableObj, hLine: int, c: Counters)
    requires c.Balanced()
    ensures !(|o.posBuffer| > 0 && CrossesUp(o, hLine) && CrossesDown(o, hLine))
    ensures CheckOne(o, hLine, c).1.Balanced()
  {
  }

  /** How many tracks of objs are counted this frame. */
  function NumCounted(objs: seq<DetectableObj>, hLine: int): nat
    decreases |objs|
  {
    if |objs| == 0 then 0
    else (if Counted(objs[0], hLine) then 1 else 0) + NumCounted(objs[1..], hLine)
  }

  /** How many tracks of objs are counted this frame as crossing upward. */
  function NumUp(objs: seq<DetectableObj>, hLine: int): nat
    decreases |objs|
  {
    if |objs| == 0 then 0
    else (if Eligible(objs[0]) && CrossesUp(objs[0], hLine) then 1 else 0) + NumUp(objs[1..], hLine)
  }

  /** How many tracks of objs are counted this frame as crossing downward. */
  function NumDown(objs: seq<DetectableObj>, hLine: int): nat
    decreases |objs|
  {
    if |objs| == 0 then 0
    else (if Eligible(objs[0]) && CrossesDown(objs[0], hLine) then 1 else 0) + NumDown(objs[1..], hLine)
  }

  /** How many tracks of after are checked but were not in before. */
  function NewlyChecked(before: seq<DetectableObj>, after: seq<DetectableObj>): nat
    requires |before| == |after|
    decreases |before|
  {
    if |before| == 0 then 0
    else (if after[0].isChecked && !before[0].isChecked then 1 else 0) + NewlyChecked(before[1..], after[1..])
  }

  /** _CheckLineIntersection: every track is tested once, in order. The
      tracks keep their order, positions and inactivity counts; the total
      grows by the number of tracks that became checked in this pass, which
      is the number of tracks counted; the up and down counters grow by the
      number of tracks crossing in that direction; and the balance of the
      counters is kept. */
  function CheckLine(objs: seq<DetectableObj>, hLine: int, c: Counters): (r: (seq<DetectableObj>, Counters))
    ensures |r.0| == |objs|
    ensures forall i :: 0 <= i < |objs| ==> r.0[i] == objs[i].(isChecked := objs[i].isChecked || Counted(objs[i], hLine))
    ensures r.1.AtLeast(c)
    ensures r.1.total == c.total + NewlyChecked(objs, r.0)
    ensures r.1.total == c.total + NumCounted(objs, hLine)
    ensures r.1.up == c.up + NumUp(objs, hLine)
    ensures r.1.down == c.down + NumDown(objs, hLine)
    ensures c.Balanced() ==> r.1.Balanced()
    decreases |objs|
  {
    if |objs| == 0 then ([], c)
    else
      var first := CheckOne(objs[0], hLine, c);
      var rest := CheckLine(objs[1..], hLine, first.1);
      assert ([first.0] + rest.0)[1..] == rest.0;
      ([first.0] + rest.0, rest.1)
  }

  /** Running the pass a second time on its own output with the same line
      counts nothing: every track it counted is now checked, and every track
      it left unchecked still does not cross. */
  lemma {:induction false} CheckLineIdempotent(objs: seq<DetectableObj>, hLine: int, c: Counters)
    ensures CheckLine(CheckLine(objs, hLine, c).0, hLine, CheckLine(objs, hLine, c).1).1
      == CheckLine(objs, hLine, c).1
    decreases |objs|
  {
    if |objs| > 0 {
      var first := CheckOne(objs[0], hLine, c);
      var rest := CheckLine(objs[1..], hLine, first.1);
      var out := CheckLine(objs, hLine, c);
      assert out == ([first.0] + rest.0, rest.1);
      assert ([first.0] + rest.0)[1..] == rest.0;
      assert !Counted(first.0, hLine);
      CheckLineIdempotent(objs[1..], hLine, first.1);
      NoNewCountsAfterCheck(rest.0, hLine, rest.1);
    }
  }

  lemma {:induction false} NoNewCountsAfterCheck(objs: seq<DetectableObj>, hLine: int, c: Counters)
    requires forall i :: 0 <= i < |objs| ==> !Counted(objs[i], hLine)
    ensures CheckLine(objs, hLine, c).1 == c
    decreases |objs|
  {
    if |objs| > 0 {
      NoNewCountsAfterCheck(objs[1..], hLine, CheckOne(objs[0], hLine, c).1);
    }
  }

  // Worked examples with the reference row at 100.

  lemma CrossingDownward(c: Counters)
    ensures CheckOne(DetectableObj(false, 0, [Point(10, 90), Point(10, 110)]), 100, c).1
      == Counters(c.total + 1, c.up, c.down + 1)
  {
  }

  lemma CrossingUpward(c: Counters)
    ensures CheckOne(DetectableObj(false, 0, [Point(10, 110), Point(10, 90)]), 100, c).1
      == Counters(c.total + 1, c.up + 1, c.down)
  {
  }

  lemma NoCrossing(c: Counters)
    ensures CheckOne(DetectableObj(false, 0, [Point(10, 50), Point(10, 60)]), 100, c)
      == (DetectableObj(false, 0, [Point(10, 50), Point(10, 60)]), c)
  {
  }
}
