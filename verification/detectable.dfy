/** One tracked object (DetectionFilter::DetectableObj) and its bounded
    position history. */
module Detectable {
  import opened Geometry

  /** Threshold above which the oldest buffered position is dropped before a
      new one is appended (MAX_POS_BUFFER_SIZE). */
  const MAX_POS_BUFFER_SIZE: nat := 2

  /** Because the buffer is trimmed only when it already holds MORE than
      MAX_POS_BUFFER_SIZE entries, it can reach one entry more than that. */
  const MAX_HISTORY: nat := MAX_POS_BUFFER_SIZE + 1

  /** A track: whether it has already been counted as crossing the line, how
      many consecutive frames it went unmatched, and its recent positions,
      oldest first. */
  datatype DetectableObj = DetectableObj(isChecked: bool, inactiveFrames: nat, posBuffer: seq<Point>)
  {
    /** The representation invariant every track of the filter keeps. */
    predicate Valid() {
      1 <= |posBuffer| <= MAX_HISTORY
    }

    /** posBuffer.back() */
    function Newest(): Point
      requires |posBuffer| > 0
    {
      posBuffer[|posBuffer| - 1]
    }

    /** posBuffer.front() */
    function Oldest(): Point
      requires |posBuffer| > 0
    {
      posBuffer[0]
    }
  }

  function Min(a: nat, b: nat): nat {
    if a <= b then a else b
  }

  /** The last n elements of s, in order. */
  function Last<T>(s: seq<T>, n: nat): (r: seq<T>)
    requires n <= |s|
    ensures |r| == n
  {
    s[|s| - n..]
  }

  /** The constructor DetectableObj(cv::Point): a fresh, unchecked, active
      track whose history is the single given position. */
  function New(point: Point): (o: DetectableObj)
    ensures o.Valid() && |o.posBuffer| == 1
    ensures o.Newest() == point && o.Oldest() == point
    ensures !o.isChecked && o.inactiveFrames == 0
  {
    DetectableObj(false, 0, [point])
  }

  /** Append a position to a history, first dropping the oldest entry when
      the history is longer than MAX_POS_BUFFER_SIZE. The result is always
      the most recent entries of buf + [p], in chronological order. */
  function Push(buf: seq<Point>, p: Point): (r: seq<Point>)
    ensures |r| == (if |buf| > MAX_POS_BUFFER_SIZE then |buf| else |buf| + 1)
    ensures r == Last(buf + [p], |r|)
    ensures |buf| <= MAX_HISTORY ==> |r| == Min(|buf| + 1, MAX_HISTORY)
  {
    (if |buf| > MAX_POS_BUFFER_SIZE then buf[1..] else buf) + [p]
  }

  /** The history after a run of matches, one Push per matched position. */
  function PushAll(buf: seq<Point>, ps: seq<Point>): seq<Point>
    decreases |ps|
  {
    if |ps| == 0 then buf else PushAll(Push(buf, ps[0]), ps[1..])
  }

  lemma LastOfLast<T>(s: seq<T>, a: nat, b: nat)
    requires b <= a <= |s|
    ensures Last(Last(s, a), b) == Last(s, b)
  {
  }

  lemma LastThenAppend<T>(s: seq<T>, a: nat, t: seq<T>)
    requires a <= |s|
    ensures Last(s, a) + t == Last(s + t, a + |t|)
  {
  }

  /** However many positions a track is given, its history is exactly the
      most recent MAX_HISTORY of them (fewer if it has seen fewer), oldest
      first: nothing is reordered and only the oldest are ever dropped. */
  lemma {:induction false} HistoryIsMostRecent(buf: seq<Point>, ps: seq<Point>)
    requires |buf| <= MAX_HISTORY
    ensures PushAll(buf, ps) == Last(buf + ps, Min(|buf| + |ps|, MAX_HISTORY))
    decreases |ps|
  {
    if |ps| == 0 {
      assert buf + ps == buf;
    } else {
      var b1 := Push(buf, ps[0]);
      var m := Min(|buf| + |ps|, MAX_HISTORY);
      HistoryIsMostRecent(b1, ps[1..]);
      assert Min(|b1| + |ps[1..]|, MAX_HISTORY) == m;
      LastThenAppend(buf + [ps[0]], |b1|, ps[1..]);
      assert buf + [ps[0]] + ps[1..] == buf + ps;
      LastOfLast(buf + ps, |b1| + |ps| - 1, m);
    }
  }

  /** Consequence for the track invariant: a valid history stays valid under
      any number of appends. */
  lemma {:induction false} HistoryStaysBounded(buf: seq<Point>, ps: seq<Point>)
    requires 1 <= |buf| <= MAX_HISTORY
    ensures 1 <= |PushAll(buf, ps)| <= MAX_HISTORY
    ensures |ps| > 0 ==> PushAll(buf, ps)[|PushAll(buf, ps)| - 1] == ps[|ps| - 1]
  {
    HistoryIsMostRecent(buf, ps);
  }
}
