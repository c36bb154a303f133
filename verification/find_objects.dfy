/** The size filter and centroid step of DetectionFilter::_FindObjects: the
    bounding rectangles found in the foreground mask become candidate
    positions. */
module FindObjects {
  import opened Geometry

  const MIN_RECT_W: nat := 25
  const MIN_RECT_H: nat := 25

  /** A rectangle is large enough to be an object. */
  predicate Qualifies(r: Rect) {
    r.width >= MIN_RECT_W && r.height >= MIN_RECT_H
  }

  /** The candidate positions of one frame: the centre of every qualifying
      rectangle, in the order the rectangles were found. */
  function Candidates(rects: seq<Rect>): (ps: seq<Point>)
    ensures |ps| <= |rects|
    ensures forall p :: p in ps ==> exists r :: r in rects && Qualifies(r) && Centroid(r) == p
    decreases |rects|
  {
    if |rects| == 0 then []
    else (if Qualifies(rects[0]) then [Centroid(rects[0])] else []) + Candidates(rects[1..])
  }

  /** Candidates is determined rectangle by rectangle: it distributes over
      concatenation, and a single rectangle yields its centre exactly when it
      qualifies. Together these say the candidates are the centres of the
      qualifying rectangles, in order, and nothing else. */
  lemma {:induction false} CandidatesDistribute(a: seq<Rect>, b: seq<Rect>)
    ensures Candidates(a + b) == Candidates(a) + Candidates(b)
    decreases |a|
  {
    if |a| == 0 {
      assert a + b == b;
    } else {
      assert (a + b)[1..] == a[1..] + b;
      CandidatesDistribute(a[1..], b);
    }
  }

  lemma CandidatesOfOne(r: Rect)
    ensures Qualifies(r) ==> Candidates([r]) == [Centroid(r)]
    ensures !Qualifies(r) ==> Candidates([r]) == []
  {
  }

  /** A rectangle narrower or lower than the minimum never contributes a
      candidate, wherever it appears. */
  lemma SmallRectIgnored(a: seq<Rect>, r: Rect, b: seq<Rect>)
    requires !Qualifies(r)
    ensures Candidates(a + [r] + b) == Candidates(a + b)
  {
    CandidatesDistribute(a + [r], b);
    CandidatesDistribute(a, [r]);
    CandidatesDistribute(a, b);
  }

  /** For the non-negative coordinates boundingRect produces, the centre is
      (x + w/2, y + h/2) with integer division. */
  lemma CentroidOfImageRect(r: Rect)
    requires r.x >= 0 && r.y >= 0
    ensures Centroid(r) == Point(r.x + r.width / 2, r.y + r.height / 2)
  {
  }
}
