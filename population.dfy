/**
 * The dense yearly population table: the city's sparse census samples are
 * reindexed onto every year from 1850 to 1950 and the gaps are filled by
 * pandas' linear interpolation.
 */
module Population {
  import opened Wrappers

  /** The animated years run from FIRST_YEAR to LAST_YEAR inclusive. */
  const FIRST_YEAR: int := 1850
  const LAST_YEAR: int := 1950
  const YEAR_COUNT: nat := 101

  /** One row of the city table: a census year and its population. */
  datatype Sample = Sample(year: int, population: real)

  /** The year index of the table has no duplicate labels. */
  predicate UniqueYears(samples: seq<Sample>) {
    forall i, j :: 0 <= i < j < |samples| ==> samples[i].year != samples[j].year
  }

  /** The population recorded for `year`: that of the first row carrying that year, if any. */
  function Lookup(samples: seq<Sample>, year: int): (r: Option<real>) {
    if |samples| == 0 then None
    else if samples[0].year == year then Some(samples[0].population)
    else Lookup(samples[1..], year)
  }

  /**
   * The lookup finds a value exactly when some row carries the year, and
   * the value found belongs to a row of that year.
   */
  lemma {:induction false} LookupFound(samples: seq<Sample>, year: int)
    ensures Lookup(samples, year).None? <==> forall i :: 0 <= i < |samples| ==> samples[i].year != year
    ensures Lookup(samples, year).Some? ==>
      exists i :: 0 <= i < |samples| && samples[i] == Sample(year, Lookup(samples, year).value)
  {
    if |samples| > 0 && samples[0].year != year {
      LookupFound(samples[1..], year);
      assert forall i :: 1 <= i < |samples| ==> samples[1..][i - 1] == samples[i];
      if Lookup(samples, year).Some? {
        var i :| 0 <= i < |samples[1..]| && samples[1..][i] == Sample(year, Lookup(samples, year).value);
        assert samples[i + 1] == samples[1..][i];
      }
    }
  }

  /** Without duplicate years, the population found is the one of the row with that year. */
  lemma LookupUnique(samples: seq<Sample>, i: nat)
    requires UniqueYears(samples) && i < |samples|
    ensures Lookup(samples, samples[i].year) == Some(samples[i].population)
  {
    LookupFound(samples, samples[i].year);
    var r := Lookup(samples, samples[i].year);
    var i' :| 0 <= i' < |samples| && samples[i'] == Sample(samples[i].year, r.value);
    assert i' == i;
  }

  /**
   * `reindex(range(1850, 1951))`: one slot per animated year holding that
   * year's sample, or missing (NaN) when the table has none. Rows outside
   * the range are dropped. A year index with duplicate labels cannot be
   * reindexed and raises ValueError.
   */
  function Reindex(samples: seq<Sample>): (r: Result<seq<Option<real>>>)
    ensures r.Err? <==> !UniqueYears(samples)
    ensures r.Err? ==> r.error == ValueError
    ensures r.Ok? ==> |r.value| == YEAR_COUNT
    // every sample inside the range lands in its year's slot
    ensures r.Ok? ==> forall i :: 0 <= i < |samples| && FIRST_YEAR <= samples[i].year <= LAST_YEAR ==>
      r.value[samples[i].year - FIRST_YEAR] == Some(samples[i].population)
  {
    if !UniqueYears(samples) then Err(ValueError)
    else
      var col := seq(YEAR_COUNT, k requires 0 <= k < YEAR_COUNT => Lookup(samples, FIRST_YEAR + k));
      assert forall i :: 0 <= i < |samples| && FIRST_YEAR <= samples[i].year <= LAST_YEAR ==>
        col[samples[i].year - FIRST_YEAR] == Some(samples[i].population) by {
        forall i | 0 <= i < |samples| && FIRST_YEAR <= samples[i].year <= LAST_YEAR
          ensures col[samples[i].year - FIRST_YEAR] == Some(samples[i].population)
        {
          LookupUnique(samples, i);
        }
      }
      Ok(col)
  }

  /** Every filled slot of the reindexed column comes from a sample of that slot's year. */
  lemma ReindexFilled(samples: seq<Sample>, k: nat)
    requires UniqueYears(samples) && k < YEAR_COUNT
    requires Reindex(samples).value[k].Some?
    ensures exists i :: 0 <= i < |samples| && samples[i] == Sample(FIRST_YEAR + k, Reindex(samples).value[k].value)
  {
    LookupFound(samples, FIRST_YEAR + k);
  }

  /** The latest slot before `k` that holds a value. */
  function PrevKnown(col: seq<Option<real>>, k: nat): (r: Option<nat>)
    requires k <= |col|
    ensures r.None? ==> forall j :: 0 <= j < k ==> col[j].None?
    ensures r.Some? ==>
      && r.value < k && col[r.value].Some?
      && forall j :: r.value < j < k ==> col[j].None?
  {
    if k == 0 then None
    else if col[k - 1].Some? then Some(k - 1)
    else PrevKnown(col, k - 1)
  }

  /** The earliest slot from `k` on that holds a value. */
  function NextKnown(col: seq<Option<real>>, k: nat): (r: Option<nat>)
    requires k <= |col|
    ensures r.None? ==> forall j :: k <= j < |col| ==> col[j].None?
    ensures r.Some? ==>
      && k <= r.value < |col| && col[r.value].Some?
      && forall j :: k <= j < r.value ==> col[j].None?
    decreases |col| - k
  {
    if k == |col| then None
    else if col[k].Some? then Some(k)
    else NextKnown(col, k + 1)
  }

  /**
   * The linear blend at position `k` of the values `v0` at `i` and `v1` at
   * `j`: it starts at `v0`, ends at `v1` and stays between them.
   */
  function Blend(v0: real, v1: real, i: int, j: int, k: int): (r: real)
    requires i < j
    ensures k == i ==> r == v0
    ensures k == j ==> r == v1
    ensures i <= k <= j && v0 <= v1 ==> v0 <= r <= v1
    ensures i <= k <= j && v1 <= v0 ==> v1 <= r <= v0
  {
    var share := (k - i) as real / (j - i) as real;
    assert i <= k <= j ==> 0.0 <= share <= 1.0;
    assert k == j ==> share == 1.0;
    v0 + (v1 - v0) * share
  }

  /** Between the same two samples the blend never decreases when the values do not. */
  lemma BlendMonotone(v0: real, v1: real, i: int, j: int, k1: int, k2: int)
    requires i < j && v0 <= v1 && k1 <= k2
    ensures Blend(v0, v1, i, j, k1) <= Blend(v0, v1, i, j, k2)
  {
    // stated on the very terms of Blend's body
    assert (k2 - i) as real / (j - i) as real - (k1 - i) as real / (j - i) as real
      == (k2 - k1) as real / (j - i) as real;
    assert 0.0 <= (k2 - k1) as real / (j - i) as real;
    assert (v1 - v0) * ((k2 - i) as real / (j - i) as real) - (v1 - v0) * ((k1 - i) as real / (j - i) as real)
      == (v1 - v0) * ((k2 - k1) as real / (j - i) as real);
    assert 0.0 <= (v1 - v0) * ((k2 - k1) as real / (j - i) as real);
  }

  /**
   * pandas' `interpolate(method='linear')` at slot `k`: a present value is
   * kept; a missing one between two present values is their linear blend by
   * position; after the last present value it repeats that value; before
   * the first one it stays missing.
   */
  function InterpolatedAt(col: seq<Option<real>>, k: nat): (r: Option<real>)
    requires k < |col|
  {
    if col[k].Some? then col[k]
    else match PrevKnown(col, k)
      case None => None
      case Some(i) =>
        match NextKnown(col, k + 1)
          case None => col[i]
          case Some(j) => Some(Blend(col[i].value, col[j].value, i, j, k))
  }

  /** The whole interpolated column. */
  function Interpolated(col: seq<Option<real>>): (r: seq<Option<real>>)
    ensures |r| == |col|
  {
    seq(|col|, k requires 0 <= k < |col| => InterpolatedAt(col, k))
  }

  /** A present value is never changed. */
  lemma InterpolatedKeepsKnown(col: seq<Option<real>>, k: nat)
    requires k < |col| && col[k].Some?
    ensures Interpolated(col)[k] == col[k]
  {
  }

  /** A missing value between the present values at `i` and `j` is their blend. */
  lemma InterpolatedInGap(col: seq<Option<real>>, i: nat, j: nat, k: nat)
    requires i < k < j < |col|
    requires col[i].Some? && col[j].Some?
    requires forall m :: i < m < j ==> col[m].None?
    ensures Interpolated(col)[k] == Some(Blend(col[i].value, col[j].value, i, j, k))
  {
    var p := PrevKnown(col, k);
    assert p == Some(i);
    var n := NextKnown(col, k + 1);
    assert n == Some(j);
  }

  /** After the last present value at `i`, every slot carries that value. */
  lemma InterpolatedAfterLast(col: seq<Option<real>>, i: nat, k: nat)
    requires i < k < |col| && col[i].Some?
    requires forall m :: i < m < |col| ==> col[m].None?
    ensures Interpolated(col)[k] == col[i]
  {
    var p := PrevKnown(col, k);
    assert p == Some(i);
  }

  /** Up to the first present value, every slot stays missing. */
  lemma InterpolatedBeforeFirst(col: seq<Option<real>>, k: nat)
    requires k < |col|
    requires forall m :: 0 <= m <= k ==> col[m].None?
    ensures Interpolated(col)[k] == None
  {
  }

  /**
   * The source overwrites the column in place. This fills the array the
   * same way: slot by slot it remembers the last present value, fills each
   * gap once the value closing it is found, and finally carries the last
   * value to the end.
   */
  method InterpolateInPlace(a: array<Option<real>>)
    modifies a
    ensures a[..] == Interpolated(old(a[..]))
  {
    ghost var col := a[..];
    var prev := -1;  // the last present slot before k, or -1 when none
    var k := 0;
    while k < a.Length
      invariant 0 <= k <= a.Length && -1 <= prev < k
      invariant prev == -1 ==> forall m :: 0 <= m < k ==> col[m].None?
      invariant prev >= 0 ==> col[prev].Some? && forall m :: prev < m < k ==> col[m].None?
      invariant forall m :: 0 <= m <= prev ==> a[m] == Interpolated(col)[m]
      invariant forall m :: prev < m < a.Length ==> a[m] == col[m]
    {
      if a[k].Some? {
        if prev >= 0 {
          InterpolatedKeepsKnown(col, prev);
          forall m | prev < m < k
            ensures Interpolated(col)[m] == Some(Blend(col[prev].value, col[k].value, prev, k, m))
          {
            InterpolatedInGap(col, prev, k, m);
          }
          FillGap(a, prev, k);
        } else {
          forall m | 0 <= m < k
            ensures Interpolated(col)[m] == None
          {
            InterpolatedBeforeFirst(col, m);
          }
        }
        InterpolatedKeepsKnown(col, k);
        prev := k;
      }
      k := k + 1;
    }
    if prev >= 0 {
      InterpolatedKeepsKnown(col, prev);
      forall m | prev < m < a.Length
        ensures Interpolated(col)[m] == col[prev]
      {
        InterpolatedAfterLast(col, prev, m);
      }
      CarryForward(a, prev);
    } else {
      forall m | 0 <= m < a.Length
        ensures Interpolated(col)[m] == None
      {
        InterpolatedBeforeFirst(col, m);
      }
    }
  }

  /** Overwrites the slots strictly between `i` and `j` with the blend of the values there. */
  method FillGap(a: array<Option<real>>, i: nat, j: nat)
    requires i < j < a.Length && a[i].Some? && a[j].Some?
    modifies a
    ensures forall m :: i < m < j ==> a[m] == Some(Blend(old(a[i]).value, old(a[j]).value, i, j, m))
    ensures forall m :: 0 <= m < a.Length && !(i < m < j) ==> a[m] == old(a[m])
  {
    var g := i + 1;
    while g < j
      invariant i + 1 <= g <= j
      invariant forall m :: i < m < g ==> a[m] == Some(Blend(old(a[i]).value, old(a[j]).value, i, j, m))
      invariant forall m :: 0 <= m < a.Length && !(i < m < g) ==> a[m] == old(a[m])
    {
      a[g] := Some(Blend(a[i].value, a[j].value, i, j, g));
      g := g + 1;
    }
  }

  /** Overwrites every slot after `i` with the value at `i`. */
  method CarryForward(a: array<Option<real>>, i: nat)
    requires i < a.Length
    modifies a
    ensures forall m :: i < m < a.Length ==> a[m] == old(a[i])
    ensures forall m :: 0 <= m <= i ==> a[m] == old(a[m])
  {
    var g := i + 1;
    while g < a.Length
      invariant i + 1 <= g <= a.Length
      invariant forall m :: i < m < g ==> a[m] == old(a[i])
      invariant forall m :: 0 <= m < a.Length && !(i < m < g) ==> a[m] == old(a[m])
    {
      a[g] := a[i];
      g := g + 1;
    }
  }

  /** The dense table: reindex onto the animated years, then interpolate. */
  function Table(samples: seq<Sample>): (r: Result<seq<Option<real>>>)
    ensures r.Err? <==> !UniqueYears(samples)
    ensures r.Err? ==> r.error == ValueError
    ensures r.Ok? ==> |r.value| == YEAR_COUNT
  {
    var col :- Reindex(samples);
    Ok(Interpolated(col))
  }

  /** No sample carries a year strictly between `lo` and `hi`. */
  predicate NoSampleBetween(samples: seq<Sample>, lo: int, hi: int) {
    forall i :: 0 <= i < |samples| ==> !(lo < samples[i].year < hi)
  }

  /** A slot of the reindexed column is missing exactly when no sample has its year. */
  lemma ReindexMissing(samples: seq<Sample>, k: nat)
    requires UniqueYears(samples) && k < YEAR_COUNT
    requires forall i :: 0 <= i < |samples| ==> samples[i].year != FIRST_YEAR + k
    ensures Reindex(samples).value[k] == None
  {
    LookupFound(samples, FIRST_YEAR + k);
  }

  /** Every slot strictly between two years with no sample in between is missing. */
  lemma ReindexNoneBetween(samples: seq<Sample>, lo: int, hi: int)
    requires UniqueYears(samples)
    requires FIRST_YEAR - 1 <= lo && hi <= LAST_YEAR + 1
    requires NoSampleBetween(samples, lo, hi)
    ensures forall m :: lo - FIRST_YEAR < m < hi - FIRST_YEAR ==> Reindex(samples).value[m] == None
  {
    forall m | lo - FIRST_YEAR < m < hi - FIRST_YEAR
      ensures Reindex(samples).value[m] == None
    {
      ReindexMissing(samples, m);
    }
  }

  /** At a year that has a sample, the table holds exactly that sample's population. */
  lemma TableAtSample(samples: seq<Sample>, i: nat)
    requires UniqueYears(samples) && i < |samples|
    requires FIRST_YEAR <= samples[i].year <= LAST_YEAR
    ensures Table(samples).value[samples[i].year - FIRST_YEAR] == Some(samples[i].population)
  {
    var col := Reindex(samples).value;
    InterpolatedKeepsKnown(col, samples[i].year - FIRST_YEAR);
  }

  /**
   * Strictly between two samples with no sample in between, the table holds
   * the linear blend of their populations by year.
   */
  lemma TableBetweenSamples(samples: seq<Sample>, i0: nat, i1: nat, year: int)
    requires UniqueYears(samples) && i0 < |samples| && i1 < |samples|
    requires FIRST_YEAR <= samples[i0].year < year < samples[i1].year <= LAST_YEAR
    requires NoSampleBetween(samples, samples[i0].year, samples[i1].year)
    ensures Table(samples).value[year - FIRST_YEAR]
      == Some(Blend(samples[i0].population, samples[i1].population, samples[i0].year, samples[i1].year, year))
  {
    var col := Reindex(samples).value;
    ReindexNoneBetween(samples, samples[i0].year, samples[i1].year);
    InterpolatedInGap(col, samples[i0].year - FIRST_YEAR, samples[i1].year - FIRST_YEAR, year - FIRST_YEAR);
    BlendShift(samples[i0].population, samples[i1].population, samples[i0].year, samples[i1].year, year, FIRST_YEAR);
  }

  /** The blend depends only on the distances between the positions. */
  lemma BlendShift(v0: real, v1: real, i: int, j: int, k: int, d: int)
    requires i < j
    ensures Blend(v0, v1, i - d, j - d, k - d) == Blend(v0, v1, i, j, k)
  {
    assert (k - d) - (i - d) == k - i && (j - d) - (i - d) == j - i;
  }

  /** Between two samples whose population grows, the table never decreases from year to year. */
  lemma TableMonotoneBetweenSamples(samples: seq<Sample>, i0: nat, i1: nat, year1: int, year2: int)
    requires UniqueYears(samples) && i0 < |samples| && i1 < |samples|
    requires FIRST_YEAR <= samples[i0].year < year1 <= year2 < samples[i1].year <= LAST_YEAR
    requires NoSampleBetween(samples, samples[i0].year, samples[i1].year)
    requires samples[i0].population <= samples[i1].population
    ensures Table(samples).value[year1 - FIRST_YEAR].Some? && Table(samples).value[year2 - FIRST_YEAR].Some?
    ensures Table(samples).value[year1 - FIRST_YEAR].value <= Table(samples).value[year2 - FIRST_YEAR].value
  {
    TableBetweenSamples(samples, i0, i1, year1);
    TableBetweenSamples(samples, i0, i1, year2);
    BlendMonotone(samples[i0].population, samples[i1].population, samples[i0].year, samples[i1].year, year1, year2);
  }

  /** After the last sample in range, the table repeats its population up to 1950. */
  lemma TableAfterLastSample(samples: seq<Sample>, i: nat, year: int)
    requires UniqueYears(samples) && i < |samples|
    requires FIRST_YEAR <= samples[i].year < year <= LAST_YEAR
    requires NoSampleBetween(samples, samples[i].year, LAST_YEAR + 1)
    ensures Table(samples).value[year - FIRST_YEAR] == Some(samples[i].population)
  {
    var col := Reindex(samples).value;
    ReindexNoneBetween(samples, samples[i].year, LAST_YEAR + 1);
    InterpolatedAfterLast(col, samples[i].year - FIRST_YEAR, year - FIRST_YEAR);
  }

  /** Up to the first sample in range, the table has no population. */
  lemma TableBeforeFirstSample(samples: seq<Sample>, year: int)
    requires UniqueYears(samples)
    requires FIRST_YEAR <= year <= LAST_YEAR
    requires NoSampleBetween(samples, FIRST_YEAR - 1, year + 1)
    ensures Table(samples).value[year - FIRST_YEAR] == None
  {
    var col := Reindex(samples).value;
    ReindexNoneBetween(samples, FIRST_YEAR - 1, year + 1);
    InterpolatedBeforeFirst(col, year - FIRST_YEAR);
  }

  /** Two census rows, 1850 with 100 and 1900 with 100000, give 50050 in 1875. */
  lemma TableMidpointScenario()
    ensures Table([Sample(1850, 100.0), Sample(1900, 100000.0)]).value[1875 - FIRST_YEAR] == Some(50050.0)
  {
    var samples := [Sample(1850, 100.0), Sample(1900, 100000.0)];
    TableBetweenSamples(samples, 0, 1, 1875);
  }
}
