/** The part of one road segment that is drawn for a given build fraction. */
module PartialLine {
  import opened Wrappers
  import opened Geometry

  /** A road geometry: a simple LineString, or a MultiLineString of several parts. */
  datatype Shape = LineString(coords: seq<Point>) | MultiLineString(parts: seq<seq<Point>>)

  /** What the frame shows for one segment: nothing, or a shape. */
  datatype Drawing = Skipped | Drawn(shape: Shape)

  /**
   * The geometry drawn for a segment built to fraction `frac`. Nothing is
   * drawn unless `frac` is positive. A LineString still under construction
   * becomes the two-point line from its first vertex to the point at arc
   * length `frac * length`; every other case draws the shape unchanged. An
   * empty LineString has no first vertex and raises IndexError.
   */
  function PartialGeometry(dist: (Point, Point) -> real, shape: Shape, frac: real): (r: Result<Drawing>)
    ensures frac <= 0.0 ==> r == Ok(Skipped)
    ensures r.Err? <==> 0.0 < frac && shape == LineString([])
    ensures r.Err? ==> r.error == IndexError
    ensures 0.0 < frac && shape.MultiLineString? ==> r == Ok(Drawn(shape))
    ensures 1.0 <= frac && shape.LineString? && shape.coords != [] ==> r == Ok(Drawn(shape))
    ensures 0.0 < frac < 1.0 && shape.LineString? && shape.coords != [] ==>
      r == Ok(Drawn(LineString(CutLine(dist, shape.coords, frac))))
  {
    if frac <= 0.0 then Ok(Skipped)
    else match shape
      case MultiLineString(_) => Ok(Drawn(shape))
      case LineString(coords) =>
        if coords == [] then Err(IndexError)
        else if frac < 1.0 then
          Ok(Drawn(LineString(CutLine(dist, coords, frac))))
        else Ok(Drawn(shape))
  }

  /**
   * `partial_length`: the arc length up to which a line of length `total`
   * built to fraction `frac` is drawn.
   */
  function PartialLength(frac: real, total: real): (r: real)
    ensures 0.0 < frac < 1.0 && 0.0 < total ==> 0.0 < r < total
    ensures total == 0.0 ==> r == 0.0
  {
    frac * total
  }

  /** The drawn arc length is the fraction `frac` of the whole. */
  lemma PartialLengthShare(frac: real, total: real)
    requires 0.0 < total
    ensures PartialLength(frac, total) / total == frac
  {
  }

  /**
   * The two-point line the source draws for a LineString under
   * construction: from its first vertex to the point at arc length
   * `frac * length`, dropping every vertex in between.
   */
  function CutLine(dist: (Point, Point) -> real, coords: seq<Point>, frac: real): (r: seq<Point>)
    requires coords != []
    ensures |r| == 2 && r[0] == coords[0]
    ensures r[1] == Interpolate(dist, coords, PartialLength(frac, Length(dist, coords)))
  {
    [coords[0], Interpolate(dist, coords, PartialLength(frac, Length(dist, coords)))]
  }

  /**
   * For a LineString of positive length under construction, the far end of
   * the drawn line lies on the segment whose cumulative-length bracket
   * contains `frac * length`, at that arc length along the original line.
   */
  lemma CutLineEndsAtArcLength(dist: (Point, Point) -> real, coords: seq<Point>, frac: real)
    requires IsDistance(dist)
    requires 0.0 < frac < 1.0 && coords != [] && 0.0 < Length(dist, coords)
    ensures AtArcLength(dist, coords, PartialLength(frac, Length(dist, coords)), CutLine(dist, coords, frac)[1])
  {
    InterpolateOnBracket(dist, coords, PartialLength(frac, Length(dist, coords)));
  }

  /** On a single straight segment of positive length the cut ends at the same share of the segment. */
  lemma CutLineOfSegment(dist: (Point, Point) -> real, a: Point, b: Point, frac: real)
    requires 0.0 < frac < 1.0 && 0.0 < dist(a, b)
    ensures CutLine(dist, [a, b], frac) == [a, Lerp(a, b, frac)]
  {
    var c := [a, b];
    assert Length(dist, c) == SegmentLength(dist, c, 0) by {
      assert Cumulative(dist, c, 1) == Cumulative(dist, c, 0) + SegmentLength(dist, c, 0);
    }
    var t := PartialLength(frac, Length(dist, c));
    PartialLengthShare(frac, Length(dist, c));
    assert c[0] == a && c[1] == b && Cumulative(dist, c, 0) == 0.0;
    assert (t - Cumulative(dist, c, 0)) / SegmentLength(dist, c, 0) == t / Length(dist, c);
    assert PointFrom(dist, c, 0, t) == Lerp(c[0], c[1], (t - Cumulative(dist, c, 0)) / SegmentLength(dist, c, 0));
    var cut := CutLine(dist, c, frac);
    assert |cut| == 2 && cut[0] == a && cut[1] == Lerp(a, b, frac);
  }

  /** A line of zero length (all vertices at distance zero) is cut at its first vertex. */
  lemma PartialLineOfZeroLength(dist: (Point, Point) -> real, coords: seq<Point>, frac: real)
    requires 0.0 < frac < 1.0 && coords != [] && Length(dist, coords) == 0.0
    ensures PartialGeometry(dist, LineString(coords), frac) == Ok(Drawn(LineString([coords[0], coords[0]])))
  {
    assert CutLine(dist, coords, frac) == [coords[0], coords[0]];
  }
}
