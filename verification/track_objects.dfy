/** Frame-to-frame association (DetectionFilter::_TrackObjects): greedy
    nearest-neighbour matching of each track, in order, against the pool of
    this frame's candidates, eviction of stale tracks, and promotion of
    leftover candidates to new tracks. */
module TrackObjects {
  import opened Wrappers
  import opened Geometry
  import opened Detectable

  /** A track unmatched for this many consecutive frames is removed. */
  const MAX_INACTIVE_FRAME: nat := 8

  /** Association gate: a candidate must lie strictly closer than this. */
  const MIN_DIST_BETWEEN_POINTS: nat := 35

  /** The gate on squared distances: 35 * 35 = 1225. */
  const MAX_MATCH_SQ_DIST: nat := MIN_DIST_BETWEEN_POINTS * MIN_DIST_BETWEEN_POINTS

  predicate AllValid(objs: seq<DetectableObj>) {
    forall i :: 0 <= i < |objs| ==> objs[i].Valid()
  }

  predicate AllActive(objs: seq<DetectableObj>) {
    forall i :: 0 <= i < |objs| ==> objs[i].inactiveFrames < MAX_INACTIVE_FRAME
  }

  /** pool[k] is the candidate the scan must choose for position p: inside
      the gate, no farther than any candidate, and strictly nearer than
      every earlier one (ties go to the earliest, as the comparison is a
      strict less-than). */
  predicate IsNearest(pool: seq<Point>, p: Point, k: nat) {
    && k < |pool|
    && SqDist(pool[k], p) < MAX_MATCH_SQ_DIST
    && (forall j :: 0 <= j < |pool| ==> SqDist(pool[k], p) <= SqDist(pool[j], p))
    && (forall j :: 0 <= j < k ==> SqDist(pool[k], p) < SqDist(pool[j], p))
  }

  /** No candidate lies inside the gate around p. */
  predicate NoneInRange(pool: seq<Point>, p: Point) {
    forall j :: 0 <= j < |pool| ==> SqDist(pool[j], p) >= MAX_MATCH_SQ_DIST
  }

  /** The inner loop of _TrackObjects from index j on: best is the candidate
      chosen so far and minDist its squared distance (the gate while none is
      chosen); a candidate replaces it only when strictly nearer. */
  function Scan(pool: seq<Point>, p: Point, j: nat, best: Option<nat>, minDist: nat): (r: Option<nat>)
    requires j <= |pool|
    requires best.None? ==> minDist == MAX_MATCH_SQ_DIST
    requires best.Some? ==> best.value < j && minDist == SqDist(pool[best.value], p) < MAX_MATCH_SQ_DIST
    requires forall i :: 0 <= i < j ==> minDist <= SqDist(pool[i], p)
    requires best.Some? ==> forall i :: 0 <= i < best.value ==> minDist < SqDist(pool[i], p)
    ensures r.Some? ==> IsNearest(pool, p, r.value)
    ensures r.None? ==> NoneInRange(pool, p)
    decreases |pool| - j
  {
    if j == |pool| then best
    else if SqDist(pool[j], p) < minDist then Scan(pool, p, j + 1, Some(j), SqDist(pool[j], p))
    else Scan(pool, p, j + 1, best, minDist)
  }

  /** The candidate a track at position p is matched to, if any. */
  function Nearest(pool: seq<Point>, p: Point): (r: Option<nat>)
    ensures r.Some? ==> IsNearest(pool, p, r.value)
    ensures r.None? ==> NoneInRange(pool, p)
  {
    Scan(pool, p, 0, None, MAX_MATCH_SQ_DIST)
  }

  /** The choice is determined: at most one index is the nearest. (That
      one exists exactly when some candidate lies inside the gate follows
      from the contract of Nearest.) */
  lemma NearestIsUnique(pool: seq<Point>, p: Point, k1: nat, k2: nat)
    requires IsNearest(pool, p, k1) && IsNearest(pool, p, k2)
    ensures k1 == k2
  {
  }

  /** vector::erase of one element. */
  function RemoveAt(pool: seq<Point>, k: nat): (r: seq<Point>)
    requires k < |pool|
    ensures |r| == |pool| - 1
    ensures multiset(r) + multiset{pool[k]} == multiset(pool)
    ensures forall i :: 0 <= i < k ==> r[i] == pool[i]
    ensures forall i :: k <= i < |r| ==> r[i] == pool[i + 1]
  {
    assert pool == pool[..k] + [pool[k]] + pool[k + 1..];
    pool[..k] + pool[k + 1..]
  }

  /** The per-frame update of one track: a match appends the position and
      resets the inactivity count, no match counts one more idle frame. */
  function Advance(o: DetectableObj, hit: Option<Point>): (r: DetectableObj)
    ensures r.isChecked == o.isChecked
    ensures o.Valid() ==> r.Valid()
    ensures hit.Some? ==> r.posBuffer == Push(o.posBuffer, hit.value)
    ensures hit.Some? ==> r.inactiveFrames == 0 && r.Newest() == hit.value
    ensures hit.None? ==> r.inactiveFrames == o.inactiveFrames + 1 && r.posBuffer == o.posBuffer
  {
    match hit
    case Some(p) => o.(posBuffer := Push(o.posBuffer, p), inactiveFrames := 0)
    case None => o.(inactiveFrames := o.inactiveFrames + 1)
  }

  /** A track whose inactivity count reached the limit. */
  predicate Evicted(o: DetectableObj) {
    o.inactiveFrames >= MAX_INACTIVE_FRAME
  }

  /** One iteration of the outer loop of _TrackObjects, before the eviction
      test: match the track against the pool and consume the chosen
      candidate. A matched track (inactivity count 0) received a candidate
      from inside the gate, and exactly that candidate left the pool; an
      unmatched one aged by one frame and left the pool alone. */
  function Associate(o: DetectableObj, pool: seq<Point>): (r: (DetectableObj, seq<Point>))
    requires o.Valid()
    ensures r.0.Valid() && r.0.isChecked == o.isChecked
    ensures r.0.inactiveFrames == 0 ==>
      && SqDist(r.0.Newest(), o.Newest()) < MAX_MATCH_SQ_DIST
      && r.0.posBuffer == Push(o.posBuffer, r.0.Newest())
      && multiset(r.1) + multiset{r.0.Newest()} == multiset(pool)
      && |r.1| + 1 == |pool|
    ensures r.0.inactiveFrames != 0 ==>
      r.0 == o.(inactiveFrames := o.inactiveFrames + 1) && r.1 == pool
  {
    match Nearest(pool, o.Newest())
    case Some(k) => (Advance(o, Some(pool[k])), RemoveAt(pool, k))
    case None => (Advance(o, None), pool)
  }

  /** Which candidate Associate takes: the nearest one inside the gate
      (earliest on ties), removed from the pool in place. */
  lemma AssociateTakesNearest(o: DetectableObj, pool: seq<Point>, k: nat)
    requires o.Valid() && IsNearest(pool, o.Newest(), k)
    ensures Associate(o, pool).0.inactiveFrames == 0
    ensures Associate(o, pool).0.Newest() == pool[k]
    ensures Associate(o, pool).1 == RemoveAt(pool, k)
  {
    var n := Nearest(pool, o.Newest());
    if n.Some? {
      NearestIsUnique(pool, o.Newest(), k, n.value);
    }
  }

  /** A track goes unmatched exactly when every candidate is at or beyond
      the gate. */
  lemma AssociateMatchesIffInRange(o: DetectableObj, pool: seq<Point>)
    requires o.Valid()
    ensures NoneInRange(pool, o.Newest()) <==> Associate(o, pool).0.inactiveFrames != 0
  {
    var n := Nearest(pool, o.Newest());
    if n.Some? {
      assert SqDist(pool[n.value], o.Newest()) < MAX_MATCH_SQ_DIST;
    }
  }

  /** The outer loop of _TrackObjects as written: each track in order is
      associated, then dropped at once if its inactivity count reached the
      limit; the candidates still in the pool are returned alongside. */
  function Step(objs: seq<DetectableObj>, pool: seq<Point>): (r: (seq<DetectableObj>, seq<Point>))
    requires AllValid(objs)
    ensures |r.0| <= |objs|
    ensures AllValid(r.0) && AllActive(r.0)
    ensures |r.1| <= |pool| <= |r.1| + |objs|
    decreases |objs|
  {
    if |objs| == 0 then ([], pool)
    else
      var (o', pool') := Associate(objs[0], pool);
      var (rest, left) := Step(objs[1..], pool');
      (if Evicted(o') then rest else [o'] + rest, left)
  }

  /** A track created from a candidate left over in the pool. */
  function Fresh(ps: seq<Point>): (r: seq<DetectableObj>)
    ensures |r| == |ps|
    ensures forall i :: 0 <= i < |ps| ==> r[i] == New(ps[i])
    ensures AllValid(r) && AllActive(r)
  {
    seq(|ps|, i requires 0 <= i < |ps| => New(ps[i]))
  }

  /** _TrackObjects: with no tracks yet the candidates seed the store
      directly; otherwise the tracks are associated in order and the
      leftover candidates appended as new tracks. */
  function Track(objs: seq<DetectableObj>, frameObjs: seq<Point>): (r: seq<DetectableObj>)
    requires AllValid(objs)
    ensures AllValid(r) && AllActive(r)
    ensures |objs| == 0 ==> r == Fresh(frameObjs)
    ensures |r| <= |objs| + |frameObjs|
    ensures |r| >= |frameObjs| - |objs|
  {
    if |objs| == 0 && |frameObjs| > 0 then Fresh(frameObjs)
    else
      var (kept, left) := Step(objs, frameObjs);
      kept + Fresh(left)
  }

  // ---------------------------------------------------------------------
  // The same step seen in two phases: associate every track, then evict.

  /** Association of all tracks in order, with no eviction. */
  ghost function UpdateAll(objs: seq<DetectableObj>, pool: seq<Point>): (r: (seq<DetectableObj>, seq<Point>))
    requires AllValid(objs)
    ensures |r.0| == |objs| && AllValid(r.0)
    decreases |objs|
  {
    if |objs| == 0 then ([], pool)
    else
      var (o', pool') := Associate(objs[0], pool);
      var (rest, left) := UpdateAll(objs[1..], pool');
      ([o'] + rest, left)
  }

  /** Keep the tracks that are not evicted, in their order. */
  function Evict(objs: seq<DetectableObj>): (r: seq<DetectableObj>)
    ensures |r| <= |objs|
    ensures forall o :: o in r <==> o in objs && !Evicted(o)
    decreases |objs|
  {
    if |objs| == 0 then []
    else (if Evicted(objs[0]) then [] else [objs[0]]) + Evict(objs[1..])
  }

  /** Eviction keeps relative order: it acts on each part of a sequence
      separately. */
  lemma {:induction false} EvictDistributes(a: seq<DetectableObj>, b: seq<DetectableObj>)
    ensures Evict(a + b) == Evict(a) + Evict(b)
    decreases |a|
  {
    if |a| == 0 {
      assert a + b == b;
    } else {
      assert (a + b)[1..] == a[1..] + b;
      EvictDistributes(a[1..], b);
    }
  }

  /** The newest positions of the tracks matched in this frame (those whose
      inactivity count was reset), in track order. */
  ghost function MatchedPositions(objs: seq<DetectableObj>): seq<Point>
    requires AllValid(objs)
    decreases |objs|
  {
    if |objs| == 0 then []
    else (if objs[0].inactiveFrames == 0 then [objs[0].Newest()] else []) + MatchedPositions(objs[1..])
  }

  /** Every candidate is consumed by at most one track: the candidates taken
      out of the pool are exactly the positions the matched tracks received,
      with multiplicity; every matched track appended its new position to
      its own history, and the unmatched tracks only aged by one frame. */
  lemma {:induction false} ConsumedExactlyOnce(objs: seq<DetectableObj>, pool: seq<Point>)
    requires AllValid(objs)
    ensures multiset(UpdateAll(objs, pool).1) + multiset(MatchedPositions(UpdateAll(objs, pool).0)) == multiset(pool)
    ensures forall i :: 0 <= i < |objs| ==>
      var u := UpdateAll(objs, pool).0[i];
      u.isChecked == objs[i].isChecked
      && (u.inactiveFrames == 0 ==> u.posBuffer == Push(objs[i].posBuffer, u.Newest()))
      && (u.inactiveFrames == 0 || (u.inactiveFrames == objs[i].inactiveFrames + 1 && u.posBuffer == objs[i].posBuffer))
    decreases |objs|
  {
    if |objs| > 0 {
      var (o', pool') := Associate(objs[0], pool);
      var (rest, left) := UpdateAll(objs[1..], pool');
      ConsumedExactlyOnce(objs[1..], pool');
      assert UpdateAll(objs, pool) == ([o'] + rest, left);
      assert ([o'] + rest)[1..] == rest;
      forall i | 0 <= i < |objs|
        ensures var u := UpdateAll(objs, pool).0[i];
          u.isChecked == objs[i].isChecked
          && (u.inactiveFrames == 0 ==> u.posBuffer == Push(objs[i].posBuffer, u.Newest()))
          && (u.inactiveFrames == 0 || (u.inactiveFrames == objs[i].inactiveFrames + 1 && u.posBuffer == objs[i].posBuffer))
      {
        if i > 0 {
          assert UpdateAll(objs, pool).0[i] == rest[i - 1];
          assert objs[1..][i - 1] == objs[i];
        }
      }
    }
  }

  /** The interleaved loop of the source equals association followed by
      eviction, and the pool it leaves is the same. */
  lemma {:induction false} StepIsUpdateThenEvict(objs: seq<DetectableObj>, pool: seq<Point>)
    requires AllValid(objs)
    ensures Step(objs, pool) == (Evict(UpdateAll(objs, pool).0), UpdateAll(objs, pool).1)
    decreases |objs|
  {
    if |objs| > 0 {
      var a := Associate(objs[0], pool);
      var s := Step(objs[1..], a.1);
      var u := UpdateAll(objs[1..], a.1);
      StepIsUpdateThenEvict(objs[1..], a.1);
      assert s == (Evict(u.0), u.1);
      assert UpdateAll(objs, pool) == ([a.0] + u.0, u.1);
      assert ([a.0] + u.0)[1..] == u.0;
      assert Evict([a.0] + u.0) == (if Evicted(a.0) then [] else [a.0]) + Evict(u.0);
      assert Step(objs, pool) == (if Evicted(a.0) then s.0 else [a.0] + s.0, s.1);
      assert Step(objs, pool).0 == Evict(UpdateAll(objs, pool).0);
      assert Step(objs, pool).1 == UpdateAll(objs, pool).1;
    } else {
      assert UpdateAll(objs, pool).0 == [];
      assert Evict([]) == [];
    }
  }

  /** Ordering after one call of _TrackObjects: the surviving old tracks
      come first in their original relative order, then one new track per
      unconsumed candidate in candidate order, so the track count is the
      number of survivors plus the number of unconsumed candidates. */
  lemma TrackIsSurvivorsThenFresh(objs: seq<DetectableObj>, frameObjs: seq<Point>)
    requires AllValid(objs)
    ensures Track(objs, frameObjs)
      == Evict(UpdateAll(objs, frameObjs).0) + Fresh(UpdateAll(objs, frameObjs).1)
  {
    StepIsUpdateThenEvict(objs, frameObjs);
  }

  /** Counting after one call of _TrackObjects: the candidates consumed are
      as many as the tracks matched. */
  lemma ConsumedCount(objs: seq<DetectableObj>, frameObjs: seq<Point>)
    requires AllValid(objs)
    ensures |frameObjs| == |UpdateAll(objs, frameObjs).1| + |MatchedPositions(UpdateAll(objs, frameObjs).0)|
  {
    var u := UpdateAll(objs, frameObjs);
    ConsumedExactlyOnce(objs, frameObjs);
    assert |multiset(frameObjs)| == |multiset(u.1)| + |multiset(MatchedPositions(u.0))|;
  }

  /** The seeding shortcut taken when there are no tracks is not a separate
      behaviour: the general path would produce the same store. */
  lemma SeedingAgreesWithGeneralPath(frameObjs: seq<Point>)
    ensures Track([], frameObjs) == Step([], frameObjs).0 + Fresh(Step([], frameObjs).1)
  {
  }

  /** A candidate at or beyond the gate is never attached to a track, however
      few other candidates there are. */
  lemma FarCandidateNeverMatched(o: DetectableObj, pool: seq<Point>, k: nat)
    requires o.Valid() && k < |pool|
    requires SqDist(pool[k], o.Newest()) >= MAX_MATCH_SQ_DIST
    ensures !IsNearest(pool, o.Newest(), k)
    ensures Associate(o, pool).0.inactiveFrames == 0 ==> Associate(o, pool).0.Newest() != pool[k]
  {
  }

  /** n consecutive frames without a match for one track, with the eviction
      test after each: None once the track has been removed. */
  function Idle(o: DetectableObj, n: nat): Option<DetectableObj>
    decreases n
  {
    if n == 0 then Some(o)
    else
      var o' := Advance(o, None);
      if Evicted(o') then None else Idle(o', n - 1)
  }

  /** Eviction timing: an active track that goes unmatched survives exactly
      while its inactivity count stays below MAX_INACTIVE_FRAME. In
      particular a track just matched or created is still present after 7
      idle frames and gone after the 8th. */
  lemma {:induction false} EvictionTiming(o: DetectableObj, n: nat)
    requires o.inactiveFrames < MAX_INACTIVE_FRAME
    ensures Idle(o, n).Some? <==> o.inactiveFrames + n < MAX_INACTIVE_FRAME
    ensures Idle(o, n).Some? ==> Idle(o, n).value == o.(inactiveFrames := o.inactiveFrames + n)
    decreases n
  {
    if n > 0 {
      var o' := Advance(o, None);
      if !Evicted(o') {
        EvictionTiming(o', n - 1);
      }
    }
  }
}
