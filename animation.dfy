/**
 * The frame loop: for every year from 1850 to 1950 the drawn part of each
 * road segment and the city's population, numbered from frame 0.
 */
module Animation {
  import opened Wrappers
  import opened Geometry
  import opened Construction
  import opened PartialLine
  import opened Population

  /** One feature of the road layer: its construction interval and its geometry. */
  datatype Road = Road(startYear: int, endYear: int, shape: Shape)

  /** What one saved frame shows. */
  datatype Frame = Frame(index: nat, year: int, population: real, roads: seq<Shape>)

  /** Frames are numbered by the years elapsed since 1850: 0 to 100, one per year. */
  function FrameIndex(year: int): (k: nat)
    requires FIRST_YEAR <= year <= LAST_YEAR
    ensures k < YEAR_COUNT && FIRST_YEAR + k == year
  {
    year - FIRST_YEAR
  }

  /** No two years share a frame number. */
  lemma FrameIndexInjective(year1: int, year2: int)
    requires FIRST_YEAR <= year1 <= LAST_YEAR && FIRST_YEAR <= year2 <= LAST_YEAR
    requires FrameIndex(year1) == FrameIndex(year2)
    ensures year1 == year2
  {
  }

  /** Every frame number from 0 to 100 belongs to a year. */
  lemma FrameIndexOnto(k: nat)
    requires k < YEAR_COUNT
    ensures FIRST_YEAR <= FIRST_YEAR + k <= LAST_YEAR && FrameIndex(FIRST_YEAR + k) == k
  {
  }

  /** The drawing of one road in `year`: its build fraction, then the partial geometry. */
  function RoadGeometry(dist: (Point, Point) -> real, road: Road, year: int): (r: Result<Drawing>)
    // nothing is drawn before construction begins, nor in its first year
    ensures year < road.startYear ==> r == Ok(Skipped)
    ensures year == road.startYear < road.endYear ==> r == Ok(Skipped)
    // the two ways the script can fail on one road
    ensures r.Err? <==>
      || year == road.startYear == road.endYear
      || (road.shape == LineString([]) && (road.startYear < year || road.endYear < road.startYear == year))
    ensures r.Err? ==> r.error == (if year == road.startYear == road.endYear then ZeroDivisionError else IndexError)
    // a finished road is drawn whole
    ensures road.startYear <= year && road.endYear < year && road.shape != LineString([]) ==>
      r == Ok(Drawn(road.shape))
  {
    var frac :- BuildFraction(year, road.startYear, road.endYear);
    PartialGeometry(dist, road.shape, frac)
  }

  /** A LineString under construction is cut at the elapsed share of its interval. */
  lemma RoadGeometryUnderConstruction(dist: (Point, Point) -> real, road: Road, year: int)
    requires road.startYear < year < road.endYear
    requires road.shape.LineString? && road.shape.coords != []
    ensures RoadGeometry(dist, road, year) == Ok(Drawn(LineString(CutLine(dist, road.shape.coords,
      (year - road.startYear) as real / (road.endYear - road.startYear) as real))))
  {
    var frac := BuildFraction(year, road.startYear, road.endYear).value;
    assert frac == (year - road.startYear) as real / (road.endYear - road.startYear) as real;
    assert 0.0 < frac < 1.0;
  }

  /**
   * The red lines of the frame for `year`, road by road. The first road
   * that raises an exception aborts the frame, and with it the run.
   */
  function FrameGeometry(dist: (Point, Point) -> real, roads: seq<Road>, year: int): (r: Result<seq<Shape>>)
    ensures r.Ok? ==> |r.value| <= |roads|
    decreases |roads|
  {
    if |roads| == 0 then Ok([])
    else
      var init := FrameGeometry(dist, roads[..|roads| - 1], year);
      assert forall i :: 0 <= i < |roads| - 1 ==> roads[..|roads| - 1][i] == roads[i];
      if init.Err? then init.PropagateFailure()
      else
        var d :- RoadGeometry(dist, roads[|roads| - 1], year);
        Ok(if d.Drawn? then init.value + [d.shape] else init.value)
  }

  /**
   * A frame fails exactly when one of its roads fails, and then with the
   * exception of the first such road; otherwise every line it shows is the
   * drawing of one of the roads.
   */
  lemma {:induction false} FrameGeometryFailure(dist: (Point, Point) -> real, roads: seq<Road>, year: int)
    ensures FrameGeometry(dist, roads, year).Err? <==>
      exists i :: 0 <= i < |roads| && RoadGeometry(dist, roads[i], year).Err?
    ensures FrameGeometry(dist, roads, year).Err? ==> exists i ::
      && 0 <= i < |roads|
      && (forall j :: 0 <= j < i ==> RoadGeometry(dist, roads[j], year).Ok?)
      && RoadGeometry(dist, roads[i], year).Err?
      && FrameGeometry(dist, roads, year).error == RoadGeometry(dist, roads[i], year).error
    ensures FrameGeometry(dist, roads, year).Ok? ==> forall s :: s in FrameGeometry(dist, roads, year).value ==>
      exists i :: 0 <= i < |roads| && RoadGeometry(dist, roads[i], year) == Ok(Drawn(s))
    decreases |roads|
  {
    if |roads| > 0 {
      var init := roads[..|roads| - 1];
      FrameGeometryFailure(dist, init, year);
      assert forall i :: 0 <= i < |init| ==> init[i] == roads[i];
    }
  }

  /** Conversely, a frame that succeeds shows the line of every road that is drawn. */
  lemma FrameGeometryShowsDrawn(dist: (Point, Point) -> real, roads: seq<Road>, year: int)
    requires FrameGeometry(dist, roads, year).Ok?
    ensures forall i, s :: 0 <= i < |roads| && RoadGeometry(dist, roads[i], year) == Ok(Drawn(s)) ==>
      s in FrameGeometry(dist, roads, year).value
  {
    FrameGeometryInOrder(dist, roads, year);
    var idx, v := DrawnIndices(dist, roads, year), FrameGeometry(dist, roads, year).value;
    forall i, s | 0 <= i < |roads| && RoadGeometry(dist, roads[i], year) == Ok(Drawn(s))
      ensures s in v
    {
      var j :| 0 <= j < |idx| && idx[j] == i;
      assert RoadGeometry(dist, roads[idx[j]], year) == Ok(Drawn(v[j]));
    }
  }

  /** The positions, in layer order, of the roads that the frame for `year` draws. */
  function DrawnIndices(dist: (Point, Point) -> real, roads: seq<Road>, year: int): (r: seq<nat>)
    ensures forall j :: 0 <= j < |r| ==> r[j] < |roads|
    ensures forall j, j' :: 0 <= j < j' < |r| ==> r[j] < r[j']
    decreases |roads|
  {
    if |roads| == 0 then []
    else
      var init := DrawnIndices(dist, roads[..|roads| - 1], year);
      var d := RoadGeometry(dist, roads[|roads| - 1], year);
      if d.Ok? && d.value.Drawn? then init + [|roads| - 1] else init
  }

  /**
   * A frame that succeeds shows exactly the lines of the roads that are
   * drawn, one per such road, in layer order.
   */
  lemma {:induction false} FrameGeometryInOrder(dist: (Point, Point) -> real, roads: seq<Road>, year: int)
    requires FrameGeometry(dist, roads, year).Ok?
    ensures |DrawnIndices(dist, roads, year)| == |FrameGeometry(dist, roads, year).value|
    ensures forall j :: 0 <= j < |DrawnIndices(dist, roads, year)| ==>
      RoadGeometry(dist, roads[DrawnIndices(dist, roads, year)[j]], year) == Ok(Drawn(FrameGeometry(dist, roads, year).value[j]))
    ensures forall i :: 0 <= i < |roads| && RoadGeometry(dist, roads[i], year).Ok? && RoadGeometry(dist, roads[i], year).value.Drawn? ==>
      i in DrawnIndices(dist, roads, year)
    decreases |roads|
  {
    if |roads| > 0 {
      var init := roads[..|roads| - 1];
      assert forall i :: 0 <= i < |init| ==> init[i] == roads[i];
      FrameGeometryInOrder(dist, init, year);
      var idx0, v0 := DrawnIndices(dist, init, year), FrameGeometry(dist, init, year).value;
      var d := RoadGeometry(dist, roads[|roads| - 1], year);
      if d.value.Drawn? {
        assert DrawnIndices(dist, roads, year) == idx0 + [|roads| - 1];
        assert FrameGeometry(dist, roads, year).value == v0 + [d.value.shape];
      } else {
        assert DrawnIndices(dist, roads, year) == idx0;
        assert FrameGeometry(dist, roads, year).value == v0;
      }
    }
  }

  /**
   * A straight road from (0, 0) to (10, 0) built from 1860 to 1880 is not
   * drawn up to 1860, is drawn to its midpoint in 1870 and whole from 1881.
   */
  lemma RoadGeometryScenario(dist: (Point, Point) -> real)
    requires 0.0 < dist(Point(0.0, 0.0), Point(10.0, 0.0))
    ensures RoadGeometry(dist, Road(1860, 1880, LineString([Point(0.0, 0.0), Point(10.0, 0.0)])), 1859) == Ok(Skipped)
    ensures RoadGeometry(dist, Road(1860, 1880, LineString([Point(0.0, 0.0), Point(10.0, 0.0)])), 1860) == Ok(Skipped)
    ensures RoadGeometry(dist, Road(1860, 1880, LineString([Point(0.0, 0.0), Point(10.0, 0.0)])), 1870)
      == Ok(Drawn(LineString([Point(0.0, 0.0), Point(5.0, 0.0)])))
    ensures RoadGeometry(dist, Road(1860, 1880, LineString([Point(0.0, 0.0), Point(10.0, 0.0)])), 1881)
      == Ok(Drawn(LineString([Point(0.0, 0.0), Point(10.0, 0.0)])))
  {
    var a, b := Point(0.0, 0.0), Point(10.0, 0.0);
    var road := Road(1860, 1880, LineString([a, b]));
    assert RoadGeometry(dist, road, 1870) == Ok(Drawn(LineString([a, Point(5.0, 0.0)]))) by {
      RoadGeometryUnderConstruction(dist, road, 1870);
      assert (1870 - 1860) as real / (1880 - 1860) as real == 0.5;
      CutLineOfSegment(dist, a, b, 0.5);
      assert Lerp(a, b, 0.5) == Point(5.0, 0.0);
    }
  }

  /** A frame in which every road is finished shows every road whole, in order. */
  lemma {:induction false} FrameGeometryAllBuilt(dist: (Point, Point) -> real, roads: seq<Road>, year: int)
    requires forall i :: 0 <= i < |roads| ==>
      roads[i].startYear <= year && roads[i].endYear < year && roads[i].shape != LineString([])
    ensures FrameGeometry(dist, roads, year) == Ok(seq(|roads|, i requires 0 <= i < |roads| => roads[i].shape))
    decreases |roads|
  {
    if |roads| > 0 {
      var init := roads[..|roads| - 1];
      FrameGeometryAllBuilt(dist, init, year);
      var shapes := seq(|init|, i requires 0 <= i < |init| => init[i].shape);
      var last := roads[|roads| - 1];
      assert FrameGeometry(dist, init, year) == Ok(shapes);
      assert RoadGeometry(dist, last, year) == Ok(Drawn(last.shape));
      assert FrameGeometry(dist, roads, year) == Ok(shapes + [last.shape]);
      assert shapes + [last.shape] == seq(|roads|, i requires 0 <= i < |roads| => roads[i].shape);
    } else {
      assert seq(|roads|, i requires 0 <= i < |roads| => roads[i].shape) == [];
    }
  }

  /** Before any construction has begun the frame has no red lines at all. */
  lemma {:induction false} FrameGeometryNoneStarted(dist: (Point, Point) -> real, roads: seq<Road>, year: int)
    requires forall i :: 0 <= i < |roads| ==> year < roads[i].startYear
    ensures FrameGeometry(dist, roads, year) == Ok([])
    decreases |roads|
  {
    if |roads| > 0 {
      FrameGeometryNoneStarted(dist, roads[..|roads| - 1], year);
    }
  }

  /** Once a prefix of the roads has failed, the whole frame fails with the same exception. */
  lemma {:induction false} FrameGeometryFailsAt(dist: (Point, Point) -> real, roads: seq<Road>, i: nat, year: int)
    requires i < |roads| && FrameGeometry(dist, roads[..i], year).Ok?
    requires RoadGeometry(dist, roads[i], year).Err?
    ensures FrameGeometry(dist, roads, year) == Err(RoadGeometry(dist, roads[i], year).error)
    decreases |roads|
  {
    var init := roads[..|roads| - 1];
    if i + 1 == |roads| {
      assert init == roads[..i];
    } else {
      assert init[..i] == roads[..i] && init[i] == roads[i];
      FrameGeometryFailsAt(dist, init, i, year);
    }
  }

  /**
   * Frame number `k` of a run with population table `table`: the roads
   * drawn in year 1850 + k and the population label. A missing population
   * cannot be formatted as an integer and raises ValueError.
   */
  function FrameAt(dist: (Point, Point) -> real, table: seq<Option<real>>, roads: seq<Road>, k: nat): (r: Result<Frame>)
    requires |table| == YEAR_COUNT && k < YEAR_COUNT
    ensures r.Ok? ==> r.value.index == k && r.value.year == FIRST_YEAR + k
    ensures r.Ok? ==> table[k] == Some(r.value.population)
    ensures r.Ok? ==> FrameGeometry(dist, roads, FIRST_YEAR + k) == Ok(r.value.roads)
    ensures r.Err? <==> FrameGeometry(dist, roads, FIRST_YEAR + k).Err? || table[k].None?
    ensures r.Err? ==> r.error == (if FrameGeometry(dist, roads, FIRST_YEAR + k).Err?
      then FrameGeometry(dist, roads, FIRST_YEAR + k).error else ValueError)
  {
    var shapes :- FrameGeometry(dist, roads, FIRST_YEAR + k);
    if table[k].None? then Err(ValueError)
    else Ok(Frame(FrameIndex(FIRST_YEAR + k), FIRST_YEAR + k, table[k].value, shapes))
  }

  /** The first `n` frames, or the exception of the first frame that fails. */
  function FramesUpTo(dist: (Point, Point) -> real, table: seq<Option<real>>, roads: seq<Road>, n: nat): (r: Result<seq<Frame>>)
    requires |table| == YEAR_COUNT && n <= YEAR_COUNT
    ensures r.Ok? ==> |r.value| == n
    ensures r.Ok? ==> forall k :: 0 <= k < n ==> FrameAt(dist, table, roads, k) == Ok(r.value[k])
  {
    if n == 0 then Ok([])
    else
      var init :- FramesUpTo(dist, table, roads, n - 1);
      var frame :- FrameAt(dist, table, roads, n - 1);
      Ok(init + [frame])
  }

  /** Once frame `k` fails, every longer run fails with its exception. */
  lemma {:induction false} FramesUpToFailsAt(dist: (Point, Point) -> real, table: seq<Option<real>>, roads: seq<Road>, k: nat, n: nat)
    requires |table| == YEAR_COUNT && k < n <= YEAR_COUNT
    requires FramesUpTo(dist, table, roads, k).Ok? && FrameAt(dist, table, roads, k).Err?
    ensures FramesUpTo(dist, table, roads, n) == Err(FrameAt(dist, table, roads, k).error)
    decreases n
  {
    if k + 1 < n {
      FramesUpToFailsAt(dist, table, roads, k, n - 1);
      FramesUpToStep(dist, table, roads, n - 1, n);
    } else {
      FramesUpToStep(dist, table, roads, k, n);
    }
  }

  /** A run fails exactly when one of its frames fails, and then with the exception of the first. */
  lemma {:induction false} FramesUpToFailure(dist: (Point, Point) -> real, table: seq<Option<real>>, roads: seq<Road>, n: nat)
    requires |table| == YEAR_COUNT && n <= YEAR_COUNT
    ensures FramesUpTo(dist, table, roads, n).Err? <==> exists k :: 0 <= k < n && FrameAt(dist, table, roads, k).Err?
    ensures FramesUpTo(dist, table, roads, n).Err? ==> exists k ::
      && 0 <= k < n
      && (forall j :: 0 <= j < k ==> FrameAt(dist, table, roads, j).Ok?)
      && FrameAt(dist, table, roads, k).Err?
      && FramesUpTo(dist, table, roads, n).error == FrameAt(dist, table, roads, k).error
    decreases n
  {
    if n > 0 {
      var m := n - 1;
      FramesUpToFailure(dist, table, roads, m);
      FramesUpToStep(dist, table, roads, m, n);
      if FramesUpTo(dist, table, roads, m).Err? {
        var k :| && 0 <= k < m
                 && (forall j :: 0 <= j < k ==> FrameAt(dist, table, roads, j).Ok?)
                 && FrameAt(dist, table, roads, k).Err?
                 && FramesUpTo(dist, table, roads, m).error == FrameAt(dist, table, roads, k).error;
        assert FramesUpTo(dist, table, roads, n).error == FrameAt(dist, table, roads, k).error;
      } else if FrameAt(dist, table, roads, m).Err? {
        assert forall j :: 0 <= j < m ==> FrameAt(dist, table, roads, j).Ok?;
        assert FramesUpTo(dist, table, roads, n).error == FrameAt(dist, table, roads, m).error;
      } else {
        assert forall k :: 0 <= k < n ==> FrameAt(dist, table, roads, k).Ok?;
      }
    }
  }

  /** One more frame: an earlier exception is kept, else this frame's exception is raised. */
  lemma FramesUpToStep(dist: (Point, Point) -> real, table: seq<Option<real>>, roads: seq<Road>, m: nat, n: nat)
    requires |table| == YEAR_COUNT && n == m + 1 <= YEAR_COUNT
    ensures FramesUpTo(dist, table, roads, m).Err? ==>
      FramesUpTo(dist, table, roads, n) == Err(FramesUpTo(dist, table, roads, m).error)
    ensures FramesUpTo(dist, table, roads, m).Ok? && FrameAt(dist, table, roads, m).Err? ==>
      FramesUpTo(dist, table, roads, n) == Err(FrameAt(dist, table, roads, m).error)
    ensures FramesUpTo(dist, table, roads, m).Ok? && FrameAt(dist, table, roads, m).Ok? ==>
      FramesUpTo(dist, table, roads, n).Ok?
  {
  }

  /**
   * The whole run: read the city's coordinates from its first row (a city
   * table without rows raises IndexError), build the population table,
   * then one frame per year from 1850 to 1950. The first exception ends
   * the run.
   */
  function Frames(dist: (Point, Point) -> real, samples: seq<Sample>, roads: seq<Road>): (r: Result<seq<Frame>>)
    // the city's coordinates are read from its first row
    ensures samples == [] ==> r == Err(IndexError)
    ensures !UniqueYears(samples) ==> r == Err(ValueError)
    // one frame per year, numbered by the years since 1850
    ensures r.Ok? ==> |r.value| == YEAR_COUNT
    ensures r.Ok? ==> forall k :: 0 <= k < YEAR_COUNT ==>
      r.value[k].index == k && r.value[k].year == FIRST_YEAR + k && FrameIndex(r.value[k].year) == k
    // each frame shows that year's roads and population
    ensures r.Ok? ==> forall k :: 0 <= k < YEAR_COUNT ==>
      && FrameGeometry(dist, roads, FIRST_YEAR + k) == Ok(r.value[k].roads)
      && Table(samples).value[k] == Some(r.value[k].population)
    ensures samples != [] && UniqueYears(samples) ==>
      (r.Err? <==> exists k :: 0 <= k < YEAR_COUNT && FrameAt(dist, Table(samples).value, roads, k).Err?)
  {
    if samples == [] then Err(IndexError)
    else
      var table :- Table(samples);
      FramesUpToFailure(dist, table, roads, YEAR_COUNT);
      FramesUpTo(dist, table, roads, YEAR_COUNT)
  }

  /**
   * The driver as the script runs it: read the city's first row, reindex,
   * overwrite the population column by interpolation, then loop over the
   * years, stopping at the first exception.
   */
  method RenderFrames(dist: (Point, Point) -> real, samples: seq<Sample>, roads: seq<Road>) returns (r: Result<seq<Frame>>)
    ensures r == Frames(dist, samples, roads)
  {
    if samples == [] {
      return Err(IndexError);
    }
    var tableResult := BuildTable(samples);
    if tableResult.Err? {
      return Err(tableResult.error);
    }
    var table := tableResult.value;
    var frames: seq<Frame> := [];
    var k := 0;
    while k < YEAR_COUNT
      invariant 0 <= k <= YEAR_COUNT
      invariant FramesUpTo(dist, table, roads, k) == Ok(frames)
    {
      var year := FIRST_YEAR + k;
      var shapes := DrawRoads(dist, roads, year);
      if shapes.Err? {
        FramesUpToFailsAt(dist, table, roads, k, YEAR_COUNT);
        return Err(shapes.error);
      }
      if table[k].None? {
        FramesUpToFailsAt(dist, table, roads, k, YEAR_COUNT);
        return Err(ValueError);
      }
      frames := frames + [Frame(FrameIndex(year), year, table[k].value, shapes.value)];
      k := k + 1;
    }
    return Ok(frames);
  }

  /** The population column as the script builds it: reindexed, then interpolated in place. */
  method BuildTable(samples: seq<Sample>) returns (r: Result<seq<Option<real>>>)
    ensures r == Table(samples)
  {
    var reindexed := Reindex(samples);
    if reindexed.Err? {
      return Err(reindexed.error);
    }
    var col := reindexed.value;
    var a := new Option<real>[YEAR_COUNT](k requires 0 <= k < YEAR_COUNT => col[k]);
    assert a[..] == col;
    InterpolateInPlace(a);
    return Ok(a[..]);
  }

  /**
   * The inner loop over the road layer for one year: the build fraction and
   * the partial geometry of each road in turn, stopping at the first
   * exception.
   */
  method DrawRoads(dist: (Point, Point) -> real, roads: seq<Road>, year: int) returns (r: Result<seq<Shape>>)
    ensures r == FrameGeometry(dist, roads, year)
  {
    var shapes: seq<Shape> := [];
    var i := 0;
    while i < |roads|
      invariant 0 <= i <= |roads|
      invariant FrameGeometry(dist, roads[..i], year) == Ok(shapes)
    {
      var road := roads[i];
      var frac := BuildFraction(year, road.startYear, road.endYear);
      var drawing := if frac.Err? then Err(frac.error) else PartialGeometry(dist, road.shape, frac.value);
      assert drawing == RoadGeometry(dist, road, year);
      if drawing.Err? {
        FrameGeometryFailsAt(dist, roads, i, year);
        return Err(drawing.error);
      }
      if drawing.value.Drawn? {
        shapes := shapes + [drawing.value.shape];
      }
      assert roads[..i + 1][..i] == roads[..i];
      i := i + 1;
    }
    assert roads[..|roads|] == roads;
    return Ok(shapes);
  }
}
