/** Integer plane geometry used by the grid editor (editor/edit.cpp): the
    orientation test and the collinear-overlap test that the portal linker
    relies on, plus the lexicographic point order it normalises walls with. */
module Geometry {
  import opened Base

  /** A grid-editor coordinate pair. */
  datatype Point = Point(x: int, y: int)

  /** Signed cross product of (b - a) and (c - a). The source returns it as a
      float, but it is computed on ints, so it is exactly this integer. */
  function Cross(a: Point, b: Point, c: Point): int
  {
    (b.x - a.x) * (c.y - a.y) - (b.y - a.y) * (c.x - a.x)
  }

  /** The source rejects when |cross| > 0.1; for an integer cross product
      that is exactly "cross is not zero". */
  predicate Collinear(a: Point, b: Point, c: Point)
  {
    Cross(a, b, c) == 0
  }

  /** v lies between e1 and e2, whichever order they come in. */
  predicate InSpan(v: int, e1: int, e2: int)
  {
    Min(e1, e2) <= v <= Max(e1, e2)
  }

  /** The per-axis bounding-box test of the source: the spans [a1,a2] and
      [b1,b2] are not strictly apart. */
  predicate SpansMeet(a1: int, a2: int, b1: int, b2: int)
  {
    !(Max(a1, a2) < Min(b1, b2) || Min(a1, a2) > Max(b1, b2))
  }

  /** Both endpoints of p2-q2 are collinear with p1-q1 and the two bounding
      boxes meet on both axes. */
  predicate SegmentsOverlap(p1: Point, q1: Point, p2: Point, q2: Point)
  {
    if !Collinear(p1, q1, p2) then false
    else if !Collinear(p1, q1, q2) then false
    else SpansMeet(p1.x, q1.x, p2.x, q2.x) && SpansMeet(p1.y, q1.y, p2.y, q2.y)
  }

  /** Reversing the reference segment negates every cross product against it. */
  lemma CrossReversed(a: Point, b: Point, c: Point)
    ensures Cross(b, a, c) == -Cross(a, b, c)
  {
    var dx, dy := b.x - a.x, b.y - a.y;
    var cx, cy := c.x - a.x, c.y - a.y;
    calc {
      Cross(b, a, c);
      (a.x - b.x) * (c.y - b.y) - (a.y - b.y) * (c.x - b.x);
      (-dx) * (cy - dy) - (-dy) * (cx - dx);
      -(dx * cy - dy * cx);
    }
  }

  /** Two integer spans meet exactly when some integer lies in both. */
  lemma SpansMeetIffCommonPoint(a1: int, a2: int, b1: int, b2: int)
    ensures SpansMeet(a1, a2, b1, b2) <==> exists v :: InSpan(v, a1, a2) && InSpan(v, b1, b2)
  {
    if SpansMeet(a1, a2, b1, b2) {
      var v := Max(Min(a1, a2), Min(b1, b2));
      assert InSpan(v, a1, a2) && InSpan(v, b1, b2);
    }
  }

  /** The overlap test, restated with an independent meaning for the box
      test: the first segment's line passes through both ends of the second
      segment and the two segments share an x value and a y value. */
  lemma SegmentsOverlapMeaning(p1: Point, q1: Point, p2: Point, q2: Point)
    ensures SegmentsOverlap(p1, q1, p2, q2) <==>
      && Collinear(p1, q1, p2) && Collinear(p1, q1, q2)
      && (exists x :: InSpan(x, p1.x, q1.x) && InSpan(x, p2.x, q2.x))
      && (exists y :: InSpan(y, p1.y, q1.y) && InSpan(y, p2.y, q2.y))
  {
    SpansMeetIffCommonPoint(p1.x, q1.x, p2.x, q2.x);
    SpansMeetIffCommonPoint(p1.y, q1.y, p2.y, q2.y);
  }

  /** The overlap test does not depend on the direction of either segment. */
  lemma SegmentsOverlapIgnoresDirection(p1: Point, q1: Point, p2: Point, q2: Point)
    ensures SegmentsOverlap(p1, q1, p2, q2) == SegmentsOverlap(q1, p1, p2, q2)
    ensures SegmentsOverlap(p1, q1, p2, q2) == SegmentsOverlap(p1, q1, q2, p2)
  {
    CrossReversed(p1, q1, p2);
    CrossReversed(p1, q1, q2);
  }

  /** Strict lexicographic order on points: by x, then by y. */
  predicate LexLess(a: Point, b: Point)
  {
    a.x < b.x || (a.x == b.x && a.y < b.y)
  }

  /** The endpoints of a segment in lexicographic order, as the linker swaps
      them ("normalize to same direction"). */
  function Ordered(a: Point, b: Point): (r: (Point, Point))
    ensures (r.0 == a && r.1 == b) || (r.0 == b && r.1 == a)
    ensures !LexLess(r.1, r.0)
  {
    if LexLess(b, a) then (b, a) else (a, b)
  }

  function LexMax(a: Point, b: Point): (r: Point)
    ensures r == a || r == b
    ensures !LexLess(r, a) && !LexLess(r, b)
  {
    if LexLess(a, b) then b else a
  }

  function LexMin(a: Point, b: Point): (r: Point)
    ensures r == a || r == b
    ensures !LexLess(a, r) && !LexLess(b, r)
  {
    if LexLess(b, a) then b else a
  }
}
