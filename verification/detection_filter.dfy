/** The per-frame entry point DetectionFilter::FrameProcessing with the
    image pipeline abstracted away: the bounding rectangles of the frame's
    foreground blobs are given, and the frame height fixes the reference
    line. */
module DetectionFilter {
  import opened Wrappers
  import opened Geometry
  import opened Detectable
  import opened FindObjects
  import opened TrackObjects
  import opened LineIntersection

  /** The tracking state of a session: _detectedObjs and the counters. */
  datatype State = State(detectedObjs: seq<DetectableObj>, counters: Counters)

  /** What holds of every state a session can reach. */
  predicate Invariant(s: State) {
    && AllValid(s.detectedObjs)
    && AllActive(s.detectedObjs)
    && s.counters.Balanced()
  }

  /** A freshly constructed filter: no tracks, every counter zero. */
  function Init(): (s: State)
    ensures Invariant(s)
    ensures |s.detectedObjs| == 0
    ensures s.counters.total == 0 && s.counters.up == 0 && s.counters.down == 0
  {
    State([], Counters(0, 0, 0))
  }

  /** The reference row: half the frame height, rounded down. */
  function ReferenceLine(rows: nat): (hLine: nat)
    ensures 2 * hLine <= rows < 2 * hLine + 2
  {
    rows / 2
  }

  /** One frame: candidates from the rectangles, association, then the line
      test against the middle row. The counters never decrease and stay
      balanced, every track keeps a non-empty history of at most
      MAX_HISTORY positions, and no surviving track has reached the
      inactivity limit. */
  function FrameProcessing(s: State, rects: seq<Rect>, rows: nat): (r: State)
    requires AllValid(s.detectedObjs)
    ensures AllValid(r.detectedObjs) && AllActive(r.detectedObjs)
    ensures r.counters.AtLeast(s.counters)
    ensures s.counters.Balanced() ==> r.counters.Balanced()
    ensures |r.detectedObjs| <= |s.detectedObjs| + |rects|
  {
    var tracked := Track(s.detectedObjs, Candidates(rects));
    var checked := CheckLine(tracked, ReferenceLine(rows), s.counters);
    State(checked.0, checked.1)
  }

  /** One frame as the video player delivers it. */
  datatype Frame = Frame(rects: seq<Rect>, rows: nat)

  /** A session: the frames processed in order. */
  function Run(s: State, frames: seq<Frame>): (r: State)
    requires Invariant(s)
    ensures Invariant(r)
    ensures r.counters.AtLeast(s.counters)
    decreases |frames|
  {
    if |frames| == 0 then s
    else Run(FrameProcessing(s, frames[0].rects, frames[0].rows), frames[1..])
  }

  /** A whole session from construction: whatever frames arrive, the
      counters stay balanced, so every counted crossing is either upward or
      downward, and the track store stays well formed. */
  function Session(frames: seq<Frame>): (r: State)
    ensures Invariant(r)
    ensures r.counters.total == r.counters.up + r.counters.down
  {
    Run(Init(), frames)
  }

  /** What one frame does to a single track that survives it: it is given
      a candidate position or not, then tested against that frame's line. */
  datatype Sighting = Sighting(hit: Option<Point>, hLine: int)

  /** A track followed across frames, with the counters it alone moves. */
  function Follow(o: DetectableObj, sightings: seq<Sighting>, c: Counters): (r: (DetectableObj, Counters))
    decreases |sightings|
  {
    if |sightings| == 0 then (o, c)
    else
      var checked := CheckOne(Advance(o, sightings[0].hit), sightings[0].hLine, c);
      Follow(checked.0, sightings[1..], checked.1)
  }

  /** One-shot counting: over its whole lifetime a track adds at most one to
      the total, none at all if it was already checked, and once it has
      added one it stays checked. */
  lemma {:induction false} CountedAtMostOnce(o: DetectableObj, sightings: seq<Sighting>, c: Counters)
    ensures Follow(o, sightings, c).1.total <= c.total + (if o.isChecked then 0 else 1)
    ensures Follow(o, sightings, c).1.total > c.total ==> Follow(o, sightings, c).0.isChecked
    ensures o.isChecked ==> Follow(o, sightings, c).1 == c && Follow(o, sightings, c).0.isChecked
    decreases |sightings|
  {
    if |sightings| > 0 {
      var advanced := Advance(o, sightings[0].hit);
      assert advanced.isChecked == o.isChecked;
      var checked := CheckOne(advanced, sightings[0].hLine, c);
      assert checked.1.total == c.total + (if checked.0.isChecked && !o.isChecked then 1 else 0);
      CountedAtMostOnce(checked.0, sightings[1..], checked.1);
      assert Follow(o, sightings, c) == Follow(checked.0, sightings[1..], checked.1);
    }
  }
}
