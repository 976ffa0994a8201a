# Growing-road animation: build fractions, partial lines and the population table

This project models the computational core of `scripts/mvp_animation.py` in
geoviz. That script renders one map per year from 1850 to 1950. On each map,
every road segment of the National Road is drawn as far as it was built in
that year, and a dot shows Chicago's population.

The model covers:

- **Construction fraction** (module `Construction`). `get_build_fraction`
  gives 0 before a segment's construction interval and 1 after it. Inside
  the interval it gives the elapsed share of the interval. When the interval
  is a single year and the query is that year, the division is by zero;
  the model returns `ZeroDivisionError` there.
- **Linear referencing** (module `Geometry`). This covers the length of a
  LineString and the point at a given arc length along it. It is written as
  a function (`Interpolate`) and as the loop over cumulative segment lengths
  (`LocatePoint`).
- **Partial geometry** (module `PartialLine`). This is the per-segment
  branch of the frame loop:
  - nothing is drawn unless the fraction is positive;
  - a LineString under construction becomes the two-point line from its
    first vertex to the point at `frac * length`;
  - a finished LineString and any MultiLineString are drawn unchanged;
  - an empty LineString raises `IndexError` at its first vertex (the model
    assumes the `interpolate` call before it returns normally).
- **Population table** (module `Population`):
  - `reindex(range(1850, 1951))` keeps one slot per year and drops samples
    outside that range; duplicate years make it raise `ValueError`;
  - `interpolate(method='linear')` then rewrites the column in place. The
    model has it as a function (`Interpolated`) and as the in-place array
    method (`InterpolateInPlace`).
- **Frame loop** (module `Animation`). It reads the city's coordinates
  from the first row of its table, so a table without rows raises
  `IndexError`. It then runs the year loop and the road loop, numbers each frame `year - 1850`, and stops at the first exception.
  It is written as specification functions (`FrameGeometry`, `FramesUpTo`,
  `Frames`) and as the driver methods (`DrawRoads`, `BuildTable`,
  `RenderFrames`). Each method is proved equal to its function.

Planar distance needs a square root, which Dafny's reals do not have.
Distance is therefore a parameter `dist`, and the lemmas that need its
properties require `Geometry.IsDistance(dist)`:

- distances are never negative;
- the distance from a point to itself is zero;
- walking a share `s` of a straight segment covers share `s` of its length.

`Geometry.TaxicabIsDistance` shows that these assumptions can be met.

## Model

| member | source | states |
|---|---|---|
| Construction.BuildFraction | scripts/mvp_animation.py:59-66 | The fraction is 0 before `start` and 1 after `end`. Inside a proper interval it is the elapsed share: `frac * (end - start) == year - start`. The only failure is `ZeroDivisionError`, and it happens exactly when `year == start == end`. Every result lies in [0, 1]. A reversed interval gives only 0 or 1. The result is 0 exactly when year < start, or year == start and start < end. The result is 1 exactly when the segment is finished. |
| Construction.BuildFractionMonotone | scripts/mvp_animation.py:59-66 | Construction never goes backwards: a later year never has a smaller fraction. |
| Geometry.LocatePoint | scripts/mvp_animation.py:91-93 | The loop over cumulative segment lengths returns exactly `Interpolate(dist, c, t)`. It stops in the first segment whose far end lies beyond `t`, and falls back to the first vertex for t <= 0 and to the last vertex past the end. |
| Geometry.InterpolateOnBracket | scripts/mvp_animation.py:91-93 | For 0 < t < length, the interpolated point lies at a share in [0, 1) of the segment whose cumulative-length bracket contains `t`. Cutting the line at that point gives a line of length exactly `t`. |
| Geometry.PointFromOnBracket | scripts/mvp_animation.py:91-93 | A walk that starts at a vertex not beyond `t`, with `t` short of the line's end, stops on a later segment that brackets `t`. It stops at the share that covers the remaining distance. |
| Geometry.CumulativeMonotone | scripts/mvp_animation.py:91 | Arc length to a vertex is never negative and grows along the line. |
| PartialLine.PartialGeometry | scripts/mvp_animation.py:84-112 | If frac <= 0, nothing is drawn. A MultiLineString is drawn unchanged. A non-empty LineString with frac >= 1 is drawn unchanged. A non-empty LineString with 0 < frac < 1 becomes `CutLine`. The result is an error exactly when frac > 0 and the geometry is an empty LineString, and that error is `IndexError`. |
| PartialLine.PartialLength | scripts/mvp_animation.py:91-92 | For 0 < frac < 1 on a line of positive length, the arc length reached lies strictly between 0 and the whole length. On a line of zero length it is 0. |
| PartialLine.CutLineEndsAtArcLength | scripts/mvp_animation.py:91-108 | For a line of positive length and 0 < frac < 1, the far end of the cut line lies on the segment whose bracket contains `frac * length`. It sits at arc length `frac * length` from the start. |
| PartialLine.CutLineOfSegment | scripts/mvp_animation.py:91-108 | On one straight segment of positive length, the cut ends at share `frac` of the segment. |
| PartialLine.PartialLineOfZeroLength | scripts/mvp_animation.py:91-108 | A line of zero length under construction is drawn as its first vertex twice. |
| Population.LookupFound | scripts/mvp_animation.py:41 | The lookup finds a value exactly when some row has that year, and the value found belongs to a row of that year. |
| Population.LookupUnique | scripts/mvp_animation.py:36-41 | With unique years, the value found is that of the row carrying that year. |
| Population.Reindex | scripts/mvp_animation.py:39-41 | Duplicate years give `ValueError`, and that is the only failure. Otherwise the column has 101 slots. Every sample in 1850..1950 lands in the slot of its year. |
| Population.ReindexFilled | scripts/mvp_animation.py:39-41 | Every filled slot of the reindexed column comes from a sample of that slot's year. |
| Population.ReindexMissing | scripts/mvp_animation.py:39-41 | A slot whose year no sample carries is missing. |
| Population.PrevKnown | scripts/mvp_animation.py:42 | The result is the latest present slot before `k`, or none when every earlier slot is missing. |
| Population.NextKnown | scripts/mvp_animation.py:42 | The result is the earliest present slot from `k` on, or none when every later slot is missing. |
| Population.Blend | scripts/mvp_animation.py:42 | The linear blend equals `v0` at the left end and `v1` at the right end, and stays between the two values in between. |
| Population.BlendMonotone | scripts/mvp_animation.py:42 | When the values rise, the blend never decreases along the gap. |
| Population.InterpolatedKeepsKnown | scripts/mvp_animation.py:42 | A slot that holds a value keeps it. |
| Population.InterpolatedInGap | scripts/mvp_animation.py:42 | A missing slot between two present slots gets the linear blend of their values by position. |
| Population.InterpolatedAfterLast | scripts/mvp_animation.py:42 | Every slot after the last present value carries that value. |
| Population.InterpolatedBeforeFirst | scripts/mvp_animation.py:42 | A slot with no present value at or before it stays missing. |
| Population.InterpolateInPlace | scripts/mvp_animation.py:42 | Overwriting the array in place produces exactly `Interpolated` of its old contents. |
| Population.FillGap | scripts/mvp_animation.py:42 | Exactly the slots strictly inside one gap are overwritten with the blend. All other slots are unchanged. |
| Population.CarryForward | scripts/mvp_animation.py:42 | Exactly the slots after `i` are overwritten with the value at `i`. All other slots are unchanged. |
| Population.Table | scripts/mvp_animation.py:39-42 | The table fails exactly on duplicate years, and then with `ValueError`. Otherwise it has 101 entries. |
| Population.TableAtSample | scripts/mvp_animation.py:39-42 | At a sample's year within 1850..1950, the table holds exactly that sample's population. |
| Population.TableBetweenSamples | scripts/mvp_animation.py:39-42 | Strictly between two samples with no sample in between, the table holds the linear blend of their populations by year. |
| Population.TableMonotoneBetweenSamples | scripts/mvp_animation.py:39-42 | Between two samples with rising population, the table never decreases from one year to the next. |
| Population.TableAfterLastSample | scripts/mvp_animation.py:39-42 | After the last sample in range, the table repeats that sample's population up to 1950. |
| Population.TableBeforeFirstSample | scripts/mvp_animation.py:39-42 | Up to the first sample in range, the table is missing. |
| Population.TableMidpointScenario | scripts/mvp_animation.py:39-42 | The samples (1850, 100) and (1900, 100000) give 50050 in 1875. |
| Animation.FrameIndex | scripts/mvp_animation.py:143 | The frame number of a year in 1850..1950 lies in 0..100, and adding 1850 to it gives back the year. |
| Animation.FrameIndexInjective | scripts/mvp_animation.py:143 | No two years share a frame number. |
| Animation.FrameIndexOnto | scripts/mvp_animation.py:143 | Every frame number from 0 to 100 is the number of a year. |
| Animation.RoadGeometry | scripts/mvp_animation.py:78-112 | A road is not drawn before its start year, nor in its start year when it ends later. It fails exactly on a one-year interval queried in that year (`ZeroDivisionError`), or on an empty LineString with positive fraction (`IndexError`). A finished, non-empty road is drawn whole. |
| Animation.RoadGeometryUnderConstruction | scripts/mvp_animation.py:79-108 | A LineString strictly inside its interval is cut at the share `(year - start) / (end - start)`. |
| Animation.RoadGeometryScenario | scripts/mvp_animation.py:79-112 | A road from (0, 0) to (10, 0) built from 1860 to 1880 is not drawn in 1859 or 1860. In 1870 it is drawn to (5, 0). In 1881 it is drawn whole. |
| Animation.FrameGeometryFailure | scripts/mvp_animation.py:78-117 | A year's road loop fails exactly when one of its roads fails, and with the exception of the first road that fails. Otherwise every line drawn is the drawing of one of the roads. |
| Animation.FrameGeometryShowsDrawn | scripts/mvp_animation.py:78-117 | Conversely, when a year's road loop succeeds, the line of every road that is drawn appears in the frame. |
| Animation.FrameGeometryInOrder | scripts/mvp_animation.py:78-117 | When a year's road loop succeeds, its lines are exactly the drawings of the drawn roads, one per such road, in layer order. |
| Animation.FrameGeometryAllBuilt | scripts/mvp_animation.py:78-112 | When every road is finished and non-empty, every road is drawn whole, in layer order. |
| Animation.FrameGeometryNoneStarted | scripts/mvp_animation.py:78-87 | Before any construction has begun, no line is drawn. |
| Animation.FrameGeometryFailsAt | scripts/mvp_animation.py:78-117 | Once road `i` fails after all earlier roads succeed, the whole frame fails with its exception. |
| Animation.FrameAt | scripts/mvp_animation.py:72-143 | A frame has number `k` and year `1850 + k`. It shows that year's road lines and that year's population. It fails on the first road exception, or with `ValueError` when the population is missing. |
| Animation.FramesUpTo | scripts/mvp_animation.py:72-143 | A successful run of `n` years has `n` frames, and frame `k` is `FrameAt(k)`. |
| Animation.FramesUpToFailure | scripts/mvp_animation.py:72-143 | A run fails exactly when one of its frames fails, and with the exception of the earliest failing frame. |
| Animation.FramesUpToFailsAt | scripts/mvp_animation.py:72-143 | Once frame `k` fails after all earlier frames succeed, every longer run fails with that exception. |
| Animation.Frames | scripts/mvp_animation.py:31-143 | A city table without rows gives `IndexError`, because the city's coordinates are read from its first row. Duplicate years give `ValueError`. A successful run has 101 frames. Frame `k` is numbered `k`, belongs to year `1850 + k`, and shows that year's roads and table population. With a non-empty table of unique years, the run fails exactly when some frame fails. |
| Animation.RenderFrames | scripts/mvp_animation.py:31-143 | The driver's nested loops return exactly `Frames`. |
| Animation.BuildTable | scripts/mvp_animation.py:39-42 | Reindexing into an array and interpolating it in place returns exactly `Table`. |
| Animation.DrawRoads | scripts/mvp_animation.py:78-117 | The road loop for one year returns exactly `FrameGeometry`. |

## Left out

- Command-line parsing and the pixel to inch conversion (lines 13-26).
  These are argument plumbing and do not affect any modelled value.
- Reading the city CSV and the road GeoJSON, `set_index`, the city
  GeoDataFrame and the CRS (lines 28-36, 44-51). These are file I/O. The
  inputs enter the model as a list of `Sample`s and a list of `Road`s.
- Missing or non-integer construction years in the road layer. Road years
  are integers here. A null year reaches `get_build_fraction` (lines 59-66)
  as NaN, where every comparison is false and the road is never drawn, or
  as None, where the comparison raises `TypeError`; neither is modelled.
- Missing population cells inside the CSV itself. A sample always carries a
  population.
- All matplotlib work (lines 69-74, 114-148): figures, plot calls, label
  text, extents, titles, `savefig`, `os.makedirs` and `print`. These are
  rendering and I/O. A frame is reduced to its number, year, population and
  drawn shapes. Frames already saved before an exception are not modelled;
  the model's run returns only the exception.
- The dot size `population ** 0.5` (line 123). It is floating-point styling.
- The label `int(population)` (line 129). Only its failure on a missing
  population is modelled, as `ValueError`. The thousands formatting is not.
- Floating-point rounding in pandas and shapely. All arithmetic is over
  exact reals.
- Geometry.IsDistance: the Euclidean metric is abstracted to any distance
  with the three stated properties, because a square root is not available
  over reals.
- Geometry.Interpolate: treats a non-positive target as the first vertex.
  shapely measures a negative target from the end of the line. A negative
  target never arises here, since the fraction is positive and lengths are
  never negative. shapely's exact clamping of targets past the end is also
  not modelled; those targets give the last vertex.
- PartialLine.PartialGeometry:
  - Geometry types other than LineString and MultiLineString are not
    modelled.
  - The interpolated point is computed but unused for a MultiLineString or
    a finished line, so that computation is not modelled.
  - An empty LineString with positive fraction is modelled as failing with
    `IndexError` at `coords[0]` (line 102). The model assumes that the
    `interpolate` call on that empty line at line 93 returns normally; what
    shapely does there is not modelled.
- Population.InterpolatedAt: follows pandas' default linear interpolation,
  which interpolates forward only:
  - slots before the first present value stay missing;
  - slots after the last present value repeat it;
  - gaps are blended by position, which on the contiguous year index is
    the same as blending by year.
