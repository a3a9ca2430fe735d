/**
 * The windowing and alignment blocks of `updateDashboard` (script.js:468-489)
 * and the two ways the script decides whether a comparison is shown.
 */
module Align {
  import opened Wrappers
  import opened Series

  /** Aligned compare values: None when no comparison is active, else one optional value per year. */
  type Aligned = Option<seq<Option<real>>>

  function Min(a: nat, b: nat): nat {
    if a < b then a else b
  }

  /**
   * Keeps the trailing `windowSize` entries: years and values are cut at the
   * same start index, and a series no longer than the window is kept whole.
   */
  function Window(s: TimeSeries, windowSize: nat): (r: TimeSeries)
    requires Parallel(s)
    ensures Parallel(r) && |r.years| == Min(|s.years|, windowSize)
    ensures r.years == s.years[|s.years| - |r.years|..]
    ensures r.values == s.values[|s.values| - |r.values|..]
    ensures windowSize >= |s.years| ==> r == s
  {
    if |s.years| > windowSize then
      var start := |s.years| - windowSize;
      TimeSeries(s.years[start..], s.values[start..])
    else s
  }

  /** A window of a window of the same size is the same window. */
  lemma WindowIsIdempotent(s: TimeSeries, windowSize: nat)
    requires Parallel(s)
    ensures Window(Window(s, windowSize), windowSize) == Window(s, windowSize)
  {
  }

  /**
   * The value a year-to-value Map holds after being filled in order from
   * `years`/`values`: a later entry for the same year overwrites an earlier one.
   */
  function LastValue(years: seq<Year>, values: seq<real>, y: Year): (r: Option<real>)
    requires |years| == |values|
    ensures r.Some? <==> y in years
    ensures r.Some? ==> exists j :: 0 <= j < |years| && years[j] == y && values[j] == r.value
  {
    if years == [] then None
    else if years[|years| - 1] == y then Some(values[|values| - 1])
    else
      var r := LastValue(years[..|years| - 1], values[..|values| - 1], y);
      assert years == years[..|years| - 1] + [years[|years| - 1]];
      r
  }

  /** When the year occurs at `j` and never after it, its value is the one at `j`. */
  lemma {:induction false} LastValueAtLastOccurrence(years: seq<Year>, values: seq<real>, j: nat)
    requires |years| == |values| && j < |years|
    requires forall k :: j < k < |years| ==> years[k] != years[j]
    ensures LastValue(years, values, years[j]) == Some(values[j])
  {
    if j < |years| - 1 {
      LastValueAtLastOccurrence(years[..|years| - 1], values[..|values| - 1], j);
    }
  }

  /** In a series with strictly increasing years every year finds its own value. */
  lemma LastValueOfIncreasingYears(years: seq<Year>, values: seq<real>, j: nat)
    requires |years| == |values| && j < |years|
    requires forall a, b :: 0 <= a < b < |years| ==> years[a] < years[b]
    ensures LastValue(years, values, years[j]) == Some(values[j])
  {
    LastValueAtLastOccurrence(years, values, j);
  }

  function Lookup(m: map<Year, real>, y: Year): Option<real> {
    if y in m then Some(m[y]) else None
  }

  /** Fills the year-to-value map entry by entry in series order, so a later duplicate year overwrites an earlier one. */
  method BuildLookup(years: seq<Year>, values: seq<real>) returns (m: map<Year, real>)
    requires |years| == |values|
    ensures forall y :: Lookup(m, y) == LastValue(years, values, y)
  {
    m := map[];
    for i := 0 to |years|
      invariant forall y :: Lookup(m, y) == LastValue(years[..i], values[..i], y)
    {
      m := m[years[i] := values[i]];
      assert years[..i + 1][..i] == years[..i];
      assert values[..i + 1][..i] == values[..i];
    }
    assert years[..|years|] == years && values[..|values|] == values;
  }

  /**
   * The compare values aligned to the windowed primary years: None as a whole
   * when there is no compare code or the compare series is empty, else the
   * compare series' value for each year.
   */
  function AlignedValues(plotYears: seq<Year>, compareCode: Option<string>, compare: Option<TimeSeries>): (r: Aligned)
    requires compare.Some? ==> Parallel(compare.value)
    ensures r.Some? <==> compareCode.Some? && compare.Some? && |compare.value.years| > 0
    ensures r.Some? ==> |r.value| == |plotYears|
  {
    if compareCode.Some? && compare.Some? && |compare.value.years| > 0 then
      var c := compare.value;
      Some(seq(|plotYears|, i requires 0 <= i < |plotYears| => LastValue(c.years, c.values, plotYears[i])))
    else None
  }

  /**
   * Each aligned entry is the compare value for that year, and it is None
   * (never zero) exactly when the compare series lacks the year.
   */
  lemma AlignedValueAt(plotYears: seq<Year>, compareCode: Option<string>, compare: Option<TimeSeries>, i: nat)
    requires compare.Some? ==> Parallel(compare.value)
    requires AlignedValues(plotYears, compareCode, compare).Some? && i < |plotYears|
    ensures AlignedValues(plotYears, compareCode, compare).value[i].None? <==> plotYears[i] !in compare.value.years
    ensures forall j :: 0 <= j < |compare.value.years| && compare.value.years[j] == plotYears[i]
                        && (forall k :: j < k < |compare.value.years| ==> compare.value.years[k] != plotYears[i])
                        ==> AlignedValues(plotYears, compareCode, compare).value[i] == Some(compare.value.values[j])
  {
    var c := compare.value;
    forall j | 0 <= j < |c.years| && c.years[j] == plotYears[i]
               && (forall k :: j < k < |c.years| ==> c.years[k] != plotYears[i])
      ensures AlignedValues(plotYears, compareCode, compare).value[i] == Some(c.values[j])
    {
      LastValueAtLastOccurrence(c.years, c.values, j);
    }
  }

  /**
   * Reads every windowed year from the filled lookup, None where the year is
   * absent, when a compare code is set and its series is non-empty.
   */
  method AlignCompare(plotYears: seq<Year>, compareCode: Option<string>, compare: Option<TimeSeries>)
    returns (r: Aligned)
    requires compare.Some? ==> Parallel(compare.value)
    ensures r == AlignedValues(plotYears, compareCode, compare)
  {
    r := None;
    if compareCode.Some? && compare.Some? && |compare.value.years| > 0 {
      var yearToValue := BuildLookup(compare.value.years, compare.value.values);
      r := Some(seq(|plotYears|, i requires 0 <= i < |plotYears| => Lookup(yearToValue, plotYears[i])));
      assert r.value == AlignedValues(plotYears, compareCode, compare).value;
    }
  }

  /**
   * Primary years 2018-2021, compare years 2019 and 2021, a window of three:
   * the window is 2019-2021 and 2020 aligns to None.
   */
  lemma AlignmentExample(a: real, b: real, p: seq<real>)
    requires |p| == 4
    ensures var plot := Window(TimeSeries([2018, 2019, 2020, 2021], p), 3);
            plot.years == [2019, 2020, 2021]
            && AlignedValues(plot.years, Some("KEN"), Some(TimeSeries([2019, 2021], [a, b])))
               == Some([Some(a), None, Some(b)])
  {
    var c := TimeSeries([2019, 2021], [a, b]);
    assert c.years[..1] == [2019] && c.values[..1] == [a];
    var plot := Window(TimeSeries([2018, 2019, 2020, 2021], p), 3);
    assert plot.years == [2019, 2020, 2021];
    assert LastValue(c.years, c.values, 2019) == Some(a);
    assert LastValue(c.years, c.values, 2020) == None;
    assert LastValue(c.years, c.values, 2021) == Some(b);
    var r := AlignedValues(plot.years, Some("KEN"), Some(c)).value;
    assert r[0] == Some(a) && r[1] == None && r[2] == Some(b);
    assert r == [Some(a), None, Some(b)];
  }

  /** A label is shown only when it is a non-empty string (`!!compareLabel`). */
  predicate Truthy(text: Option<string>) {
    text.Some? && text.value != ""
  }

  /** `updateDashboard`'s test: aligned values exist and a compare label is set. */
  predicate DashboardHasCompare(aligned: Aligned, compareLabel: Option<string>): (b: bool)
    ensures b ==> aligned.Some? && compareLabel.Some?
    ensures compareLabel == Some("") ==> !b
  {
    aligned.Some? && Truthy(compareLabel)
  }

  /** `updateTable`'s stricter test: also one value per year and at least one present. */
  predicate TableHasCompare(years: seq<Year>, compareValues: Aligned, compareLabel: Option<string>): (b: bool)
    ensures b ==> DashboardHasCompare(compareValues, compareLabel)
    ensures b ==> |years| > 0 && |compareValues.value| == |years|
    ensures compareValues.Some? && (forall i :: 0 <= i < |compareValues.value| ==> compareValues.value[i].None?) ==> !b
  {
    compareValues.Some? && |compareValues.value| == |years|
    && (exists i :: 0 <= i < |compareValues.value| && compareValues.value[i].Some?)
    && Truthy(compareLabel)
  }

  /**
   * On aligned values the two tests differ exactly when no windowed year is
   * found in the compare series: the table then falls back to year-on-year deltas.
   */
  lemma HasCompareTests(years: seq<Year>, aligned: Aligned, compareLabel: Option<string>)
    requires aligned.Some? ==> |aligned.value| == |years|
    ensures TableHasCompare(years, aligned, compareLabel) <==>
              DashboardHasCompare(aligned, compareLabel)
              && exists i :: 0 <= i < |years| && aligned.value[i].Some?
  {
  }

  /** A window whose only year is missing from the compare series: the dashboard compares, the table does not. */
  lemma HasCompareTestsDiverge()
    ensures DashboardHasCompare(Some([None]), Some("Kenya"))
    ensures !TableHasCompare([2020], Some([None]), Some("Kenya"))
  {
  }
}
