/**
 * Planar polylines and linear referencing: the length of a LineString and
 * the point at a given arc length along it, as shapely's `length` and
 * `interpolate` compute them.
 *
 * Euclidean distance needs a square root, which real arithmetic here does
 * not have, so distance is a parameter `dist` constrained by IsDistance.
 */
module Geometry {

  /** A planar coordinate. */
  datatype Point = Point(x: real, y: real)

  /** The point a share `s` of the way from `a` to `b`. */
  function Lerp(a: Point, b: Point, s: real): (p: Point)
    ensures s == 0.0 ==> p == a
    ensures s == 1.0 ==> p == b
  {
    Point(a.x + s * (b.x - a.x), a.y + s * (b.y - a.y))
  }

  /**
   * What the model relies on about the planar distance: it is never
   * negative, a point is at distance zero from itself, and walking a share
   * `s` of a straight segment covers that share of its length.
   */
  ghost predicate IsDistance(dist: (Point, Point) -> real) {
    && (forall p, q :: 0.0 <= dist(p, q))
    && (forall p :: dist(p, p) == 0.0)
    && (forall a, b, s :: 0.0 <= s <= 1.0 ==> dist(a, Lerp(a, b, s)) == s * dist(a, b))
  }

  function Abs(v: real): (r: real)
    ensures 0.0 <= r && (r == v || r == -v)
  {
    if v < 0.0 then -v else v
  }

  /** The taxicab distance, a witness that IsDistance can be met. */
  function Taxicab(p: Point, q: Point): (r: real) {
    Abs(p.x - q.x) + Abs(p.y - q.y)
  }

  /** The hypotheses are consistent: the taxicab distance meets all three. */
  lemma TaxicabIsDistance()
    ensures IsDistance(Taxicab)
  {
    forall a: Point, b: Point, s: real | 0.0 <= s <= 1.0
      ensures Taxicab(a, Lerp(a, b, s)) == s * Taxicab(a, b)
    {
      TaxicabScales(a, b, s);
    }
  }

  /** Walking a share `s` of a segment covers that share of its taxicab length. */
  lemma TaxicabScales(a: Point, b: Point, s: real)
    requires 0.0 <= s
    ensures Taxicab(a, Lerp(a, b, s)) == s * Taxicab(a, b)
  {
    var q := Lerp(a, b, s);
    assert a.x - q.x == s * (a.x - b.x);
    assert a.y - q.y == s * (a.y - b.y);
    ScaledAbs(a.x - b.x, s);
    ScaledAbs(a.y - b.y, s);
    assert s * Abs(a.x - b.x) + s * Abs(a.y - b.y) == s * (Abs(a.x - b.x) + Abs(a.y - b.y));
  }

  /** Scaling by a non-negative factor scales the absolute value. */
  lemma ScaledAbs(w: real, s: real)
    requires 0.0 <= s
    ensures Abs(s * w) == s * Abs(w)
  {
    if w < 0.0 {
      assert s * w == -(s * -w);
      assert 0.0 <= s * -w;
    } else {
      assert 0.0 <= s * w;
    }
  }

  /** The point a share `s` of the way along the `k`-th segment. */
  function SegmentPoint(c: seq<Point>, k: nat, s: real): (r: Point)
    requires k + 1 < |c|
  {
    Lerp(c[k], c[k + 1], s)
  }

  /** Length of the `i`-th segment, from vertex `i` to vertex `i + 1`. */
  function SegmentLength(dist: (Point, Point) -> real, c: seq<Point>, i: nat): (r: real)
    requires i + 1 < |c|
  {
    dist(c[i], c[i + 1])
  }

  /** Arc length from the first vertex to vertex `i`. */
  function Cumulative(dist: (Point, Point) -> real, c: seq<Point>, i: nat): (r: real)
    requires i < |c|
    decreases i
  {
    if i == 0 then 0.0 else Cumulative(dist, c, i - 1) + SegmentLength(dist, c, i - 1)
  }

  /** The `length` of a LineString: the sum of its segment lengths. */
  function Length(dist: (Point, Point) -> real, c: seq<Point>): (r: real) {
    if |c| == 0 then 0.0 else Cumulative(dist, c, |c| - 1)
  }

  /** Arc length only grows along the line; in particular it is never negative. */
  lemma {:induction false} CumulativeMonotone(dist: (Point, Point) -> real, c: seq<Point>, i: nat, j: nat)
    requires IsDistance(dist)
    requires i <= j < |c|
    ensures 0.0 <= Cumulative(dist, c, i) <= Cumulative(dist, c, j)
    decreases j
  {
    if i < j {
      CumulativeMonotone(dist, c, i, j - 1);
      assert 0.0 <= SegmentLength(dist, c, j - 1);
    } else if 0 < i {
      CumulativeMonotone(dist, c, 0, i - 1);
      assert 0.0 <= SegmentLength(dist, c, i - 1);
    }
  }

  /**
   * The linear-referencing walk: starting at vertex `i`, with the arc length
   * to it not beyond `t`, stop in the first segment whose far end lies
   * beyond `t` and interpolate inside it; run off the last vertex when there
   * is none.
   */
  function PointFrom(dist: (Point, Point) -> real, c: seq<Point>, i: nat, t: real): (r: Point)
    requires i < |c| && Cumulative(dist, c, i) <= t
    decreases |c| - i
  {
    if i + 1 == |c| then c[i]
    else if Cumulative(dist, c, i) + SegmentLength(dist, c, i) > t then
      Lerp(c[i], c[i + 1], (t - Cumulative(dist, c, i)) / SegmentLength(dist, c, i))
    else PointFrom(dist, c, i + 1, t)
  }

  /**
   * shapely's `interpolate(t)` on a LineString: the point at arc length `t`
   * from the first vertex, the first vertex when `t` is not positive, and the
   * last vertex when `t` is the whole length or more.
   */
  function Interpolate(dist: (Point, Point) -> real, c: seq<Point>, t: real): (r: Point)
    requires |c| > 0
  {
    if t <= 0.0 then c[0] else PointFrom(dist, c, 0, t)
  }

  /**
   * The same walk written as the loop over cumulative segment lengths that
   * linear referencing runs.
   */
  method LocatePoint(dist: (Point, Point) -> real, c: seq<Point>, t: real) returns (p: Point)
    requires |c| > 0
    ensures p == Interpolate(dist, c, t)
  {
    if t <= 0.0 {
      return c[0];
    }
    var total := 0.0;
    var i := 0;
    while i + 1 < |c|
      invariant 0 <= i < |c|
      invariant total == Cumulative(dist, c, i)
      invariant total <= t
      invariant PointFrom(dist, c, 0, t) == PointFrom(dist, c, i, t)
    {
      var segment := dist(c[i], c[i + 1]);
      if total + segment > t {
        return Lerp(c[i], c[i + 1], (t - total) / segment);
      }
      total := total + segment;
      i := i + 1;
    }
    return c[i];
  }

  /**
   * A walk from vertex `i` towards a target short of the line's end stops on
   * a segment `k` whose cumulative-length bracket contains `t`, at the share
   * `s` of it that covers the rest of the distance.
   */
  lemma {:induction false} PointFromOnBracket(dist: (Point, Point) -> real, c: seq<Point>, i: nat, t: real)
    requires i < |c| && Cumulative(dist, c, i) <= t < Length(dist, c)
    ensures exists k: nat, s: real ::
      && i <= k && k + 1 < |c|
      && Cumulative(dist, c, k) <= t < Cumulative(dist, c, k + 1)
      && 0.0 <= s < 1.0 && s * SegmentLength(dist, c, k) == t - Cumulative(dist, c, k)
      && PointFrom(dist, c, i, t) == SegmentPoint(c, k, s)
    decreases |c| - i
  {
    var base := Cumulative(dist, c, i);
    if i + 1 == |c| {
      assert false;
    } else if base + SegmentLength(dist, c, i) > t {
      var segment := SegmentLength(dist, c, i);
      assert Cumulative(dist, c, i + 1) == base + segment;
      var s := (t - base) / segment;
      UnitShare(t - base, segment);
      assert PointFrom(dist, c, i, t) == SegmentPoint(c, i, s);
    } else {
      assert Cumulative(dist, c, i + 1) == base + SegmentLength(dist, c, i);
      PointFromOnBracket(dist, c, i + 1, t);
      var k: nat, s: real :|
        && i + 1 <= k && k + 1 < |c|
        && Cumulative(dist, c, k) <= t < Cumulative(dist, c, k + 1)
        && 0.0 <= s < 1.0 && s * SegmentLength(dist, c, k) == t - Cumulative(dist, c, k)
        && PointFrom(dist, c, i + 1, t) == SegmentPoint(c, k, s);
      assert PointFrom(dist, c, i, t) == SegmentPoint(c, k, s);
    }
  }

  /** Cutting the line after vertex `k` and appending a point keeps the arc lengths up to `k`. */
  lemma {:induction false} CumulativeOfCut(dist: (Point, Point) -> real, c: seq<Point>, k: nat, p: Point, i: nat)
    requires k < |c| && i <= k
    ensures i < |c[..k + 1] + [p]|
    ensures Cumulative(dist, c[..k + 1] + [p], i) == Cumulative(dist, c, i)
    decreases i
  {
    if i > 0 {
      CumulativeOfCut(dist, c, k, p, i - 1);
    }
  }

  /**
   * `p` is the point at arc length `t` along `c`: it lies on a segment `k`
   * whose cumulative-length bracket contains `t`, and the line cut after
   * vertex `k` and closed at `p` is exactly `t` long.
   */
  ghost predicate AtArcLength(dist: (Point, Point) -> real, c: seq<Point>, t: real, p: Point) {
    exists k: nat, s: real ::
      && k + 1 < |c|
      && Cumulative(dist, c, k) <= t < Cumulative(dist, c, k + 1)
      && 0.0 <= s < 1.0
      && p == SegmentPoint(c, k, s)
      && Length(dist, c[..k + 1] + [p]) == t
  }

  /**
   * Strictly inside the line, the interpolated point lies on the segment
   * whose cumulative-length bracket contains `t`, and the line cut at that
   * point has arc length exactly `t`.
   */
  lemma InterpolateOnBracket(dist: (Point, Point) -> real, c: seq<Point>, t: real)
    requires IsDistance(dist)
    requires |c| > 0 && 0.0 < t < Length(dist, c)
    ensures AtArcLength(dist, c, t, Interpolate(dist, c, t))
  {
    PointFromOnBracket(dist, c, 0, t);
    var k: nat, s: real :|
      && k + 1 < |c|
      && Cumulative(dist, c, k) <= t < Cumulative(dist, c, k + 1)
      && 0.0 <= s < 1.0 && s * SegmentLength(dist, c, k) == t - Cumulative(dist, c, k)
      && PointFrom(dist, c, 0, t) == SegmentPoint(c, k, s);
    assert Interpolate(dist, c, t) == SegmentPoint(c, k, s);
    CutAtSegmentPoint(dist, c, k, s);
  }

  /** Cutting the line at a share `s` of segment `k` gives the arc to vertex `k` plus that share of the segment. */
  lemma CutAtSegmentPoint(dist: (Point, Point) -> real, c: seq<Point>, k: nat, s: real)
    requires IsDistance(dist)
    requires k + 1 < |c| && 0.0 <= s <= 1.0
    ensures Length(dist, c[..k + 1] + [SegmentPoint(c, k, s)])
      == Cumulative(dist, c, k) + s * SegmentLength(dist, c, k)
  {
    var p := SegmentPoint(c, k, s);
    assert dist(c[k], p) == s * SegmentLength(dist, c, k) by {
      assert p == Lerp(c[k], c[k + 1], s);
    }
    CutLength(dist, c, k, p);
  }

  /** The line cut after vertex `k` and closed at `p` is as long as the arc to `k` plus the last step. */
  lemma CutLength(dist: (Point, Point) -> real, c: seq<Point>, k: nat, p: Point)
    requires k < |c|
    ensures Length(dist, c[..k + 1] + [p]) == Cumulative(dist, c, k) + dist(c[k], p)
  {
    var cut := c[..k + 1] + [p];
    CumulativeOfCut(dist, c, k, p, k);
    assert cut[k] == c[k] && cut[k + 1] == p;
  }

  /** A part of a positive whole is a share in [0, 1) of it. */
  lemma UnitShare(part: real, whole: real)
    requires 0.0 <= part < whole
    ensures 0.0 <= part / whole < 1.0
    ensures part / whole * whole == part
  {
  }
}
