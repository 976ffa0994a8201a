/** How much of a road segment has been built in a given year. */
module Construction {
  import opened Wrappers

  /**
   * The fraction of a segment built by `year` when construction runs from
   * `start` to `end`: nothing before the interval, everything after it, and
   * the linear ratio inside it. The ratio divides by `end - start`, so a
   * one-year interval queried in that very year raises ZeroDivisionError.
   */
  function BuildFraction(year: int, start: int, end: int): (r: Result<real>)
    // the only failure is the zero denominator
    ensures r.Err? <==> year == start && start == end
    ensures r.Err? ==> r.error == ZeroDivisionError
    ensures r.Ok? ==> 0.0 <= r.value <= 1.0
    // not started yet, and already complete
    ensures year < start ==> r == Ok(0.0)
    ensures start <= year && end < year ==> r == Ok(1.0)
    // inside a proper interval the fraction is the elapsed share of its length
    ensures start < end && start <= year <= end ==>
      r.Ok? && r.value * (end - start) as real == (year - start) as real
    // a reversed interval never reaches the division
    ensures start > end ==> r == Ok(0.0) || r == Ok(1.0)
    // zero exactly until construction begins, one exactly once it is over
    ensures r == Ok(0.0) <==> year < start || (year == start && start < end)
    ensures r == Ok(1.0) <==> (start <= year && end < year) || (start < end && year == end)
  {
    if year < start then Ok(0.0)
    else if year > end then Ok(1.0)
    else if end == start then Err(ZeroDivisionError)
    else Ok((year - start) as real / (end - start) as real)
  }

  /** Construction never goes backwards: a later year has at least the same fraction. */
  lemma BuildFractionMonotone(year1: int, year2: int, start: int, end: int)
    requires year1 <= year2
    requires BuildFraction(year1, start, end).Ok? && BuildFraction(year2, start, end).Ok?
    ensures BuildFraction(year1, start, end).value <= BuildFraction(year2, start, end).value
  {
    if start <= year1 && year2 <= end && start < end {
      DivideMonotone((year1 - start) as real, (year2 - start) as real, (end - start) as real);
    }
  }

  lemma DivideMonotone(a: real, b: real, d: real)
    requires a <= b && 0.0 < d
    ensures a / d <= b / d
  {
    assert b / d - a / d == (b - a) / d;
  }
}
