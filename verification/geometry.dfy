/** Small optional-value wrapper used for "no candidate found". */
module Wrappers {

  datatype Option<+T> = None | Some(value: T)
}

/** The integer plane geometry the tracker borrows from OpenCV: pixel points,
    bounding rectangles, their centres and squared distances. */
module Geometry {

  /** A pixel position (cv::Point, int coordinates; y grows downward). */
  datatype Point = Point(x: int, y: int)

  /** An axis-aligned bounding box as produced by cv::boundingRect: the
      top-left corner and a non-negative extent. */
  datatype Rect = Rect(x: int, y: int, width: nat, height: nat)

  /** The int obtained when C++ converts the double value n * 0.5 to int:
      the conversion truncates toward zero. */
  function HalfTowardZero(n: int): (r: int)
    ensures 0 <= n ==> 2 * r <= n <= 2 * r + 1
    ensures n < 0 ==> 2 * r - 1 <= n <= 2 * r
  {
    if n >= 0 then n / 2 else -((-n) / 2)
  }

  /** The centre of a rectangle as the cv::Point built from x + width * 0.5
      and y + height * 0.5: the exact value is (2x + w) / 2, then truncated. */
  function Centroid(r: Rect): (c: Point)
    ensures 2 * r.x + r.width >= 0 ==> c.x == r.x + r.width / 2
    ensures 2 * r.x + r.width < 0 ==> c.x == r.x + (r.width + 1) / 2
    ensures 2 * r.y + r.height >= 0 ==> c.y == r.y + r.height / 2
    ensures 2 * r.y + r.height < 0 ==> c.y == r.y + (r.height + 1) / 2
  {
    Point(HalfTowardZero(2 * r.x + r.width), HalfTowardZero(2 * r.y + r.height))
  }

  /** Squared Euclidean distance. The source compares sqrt of this value with
      a threshold and with earlier distances; on integers, comparing the
      squares orders candidates the same way. */
  function SqDist(a: Point, b: Point): (d: nat)
    ensures a == b ==> d == 0
  {
    (a.x - b.x) * (a.x - b.x) + (a.y - b.y) * (a.y - b.y)
  }

  /** The distance does not depend on which point is the track and which
      the candidate, and it is zero only for the same point. */
  lemma SqDistProperties(a: Point, b: Point)
    ensures SqDist(a, b) == SqDist(b, a)
    ensures SqDist(a, b) == 0 <==> a == b
  {
  }
}
