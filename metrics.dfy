/**
 * Derived numbers of the dashboard: the KPI cards (`updateKpis`), the trend
 * sentence (`generateInsight`), the table's per-row deltas (`updateTable`)
 * and the latest-year comparison in the status line (script.js:765-787).
 */
module Metrics {
  import opened Wrappers
  import opened Series
  import opened Align
  import Format

  // ---------------------------------------------------------------- KPIs

  /** The three KPI cards: dashes for no data, else current value and change over the window. */
  datatype Kpis = Placeholders | Kpis(current: real, absChange: real, pctChange: Option<real>)

  /**
   * Current value is the last one and the absolute change carries the first
   * to the last; the percentage is missing exactly when the first value is
   * zero, and otherwise is the change measured in hundredths of the first value.
   */
  function ComputeKpis(values: seq<real>): (k: Kpis)
    ensures k.Placeholders? <==> |values| == 0
    ensures k.Kpis? ==> k.current == values[|values| - 1]
    ensures k.Kpis? ==> values[0] + k.absChange == values[|values| - 1]
    ensures k.Kpis? ==> (k.pctChange.None? <==> values[0] == 0.0)
    ensures k.Kpis? && k.pctChange.Some? ==> k.pctChange.value * values[0] == 100.0 * k.absChange
  {
    if |values| == 0 then Placeholders
    else
      var first := values[0];
      var last := values[|values| - 1];
      var absChange := last - first;
      Kpis(last, absChange, if first == 0.0 then None else Some((absChange / first) * 100.0))
  }

  /** On a positive first value the percentage card and the absolute card show the same direction. */
  lemma KpiDirectionsAgree(values: seq<real>)
    requires |values| > 0 && values[0] > 0.0
    ensures Format.Classify(ComputeKpis(values).pctChange) == Format.Classify(Some(ComputeKpis(values).absChange))
  {
  }

  // ------------------------------------------------------------- insight

  datatype Trend = Increase | Decrease | Stability

  /** The trend word: more than 5% above the first value, else more than 5% below, else stable. */
  function TrendOf(first: real, last: real): (t: Trend)
    ensures t == Increase <==> 20.0 * (last - first) > first
    ensures t == Decrease <==> 20.0 * (last - first) < -first && t != Increase
    ensures first >= 0.0 && t == Increase ==> last > first
    ensures first >= 0.0 && t == Decrease ==> last < first
    ensures first >= 0.0 && last == first ==> t == Stability
  {
    if last > first * 1.05 then Increase
    else if last < first * 0.95 then Decrease
    else Stability
  }

  /** The insight: a fixed no-data message, or the trend between the first and last year of the window. */
  datatype Insight = NoDataMessage
                   | Summary(trend: Trend, firstYear: Year, lastYear: Year, first: real, last: real)

  function GenerateInsight(values: seq<real>, years: seq<Year>): (r: Insight)
    requires |years| == |values|
    ensures r.NoDataMessage? <==> |values| == 0
    ensures r.Summary? ==> r.first == values[0] && r.last == values[|values| - 1]
    ensures r.Summary? ==> r.firstYear == years[0] && r.lastYear == years[|years| - 1]
    ensures r.Summary? ==> r.trend == TrendOf(r.first, r.last)
  {
    if |values| == 0 then NoDataMessage
    else
      var first := values[0];
      var last := values[|values| - 1];
      Summary(TrendOf(first, last), years[0], years[|years| - 1], first, last)
  }

  /**
   * For a positive first value the trend word agrees with the KPI percentage:
   * "increase" above +5%, "decrease" below -5%, "stability" in between.
   */
  lemma TrendMatchesPercentChange(values: seq<real>, years: seq<Year>)
    requires |years| == |values| && |values| > 0 && values[0] > 0.0
    ensures var pct := ComputeKpis(values).pctChange.value;
            GenerateInsight(values, years).trend ==
              if pct > 5.0 then Increase else if pct < -5.0 then Decrease else Stability
  {
    var first, last := values[0], values[|values| - 1];
    var pct := ComputeKpis(values).pctChange.value;
    assert pct * first == 100.0 * (last - first);
    assert pct > 5.0 <==> 20.0 * (last - first) > first;
    assert pct < -5.0 <==> 20.0 * (last - first) < -first;
  }

  /**
   * For a negative first value the bands are mirrored: an unchanged series
   * reads as an increase (the source's metrics are never negative).
   */
  lemma ConstantNegativeSeriesReadsAsIncrease(v: real, years: seq<Year>)
    requires v < 0.0 && |years| == 2
    ensures GenerateInsight([v, v], years).trend == Increase
  {
  }

  /** The worked cases: +6% is an increase, +4% stability, -10% a decrease, nothing is no data. */
  lemma InsightExamples()
    ensures GenerateInsight([100.0, 106.0], [2000, 2001]).trend == Increase
    ensures GenerateInsight([100.0, 104.0], [2000, 2001]).trend == Stability
    ensures GenerateInsight([100.0, 90.0], [2000, 2001]).trend == Decrease
    ensures GenerateInsight([], []) == NoDataMessage
  {
  }

  // -------------------------------------------------------------- deltas

  /** One table row's Δ and Δ%; None shows as a dash. */
  datatype Delta = Delta(diff: Option<real>, diffPct: Option<real>)

  const NO_DELTA := Delta(None, None)

  /** A JavaScript array read: an index past the end gives undefined. */
  function At(s: seq<Option<real>>, i: nat): (r: Option<real>)
    ensures i < |s| ==> r == s[i]
    ensures i >= |s| ==> r.None?
  {
    if i < |s| then s[i] else None
  }

  /**
   * Δ against the compare value: both values present and a non-zero compare
   * value, else both dashes; the compare value plus Δ gives the primary value back.
   */
  function DeltaVsCompare(p: Option<real>, c: Option<real>): (d: Delta)
    ensures d.diff.Some? <==> p.Some? && c.Some? && c.value != 0.0
    ensures d.diffPct.Some? <==> d.diff.Some?
    ensures d.diff.Some? ==> c.value + d.diff.value == p.value
    ensures d.diffPct.Some? ==> d.diffPct.value * c.value == 100.0 * d.diff.value
  {
    if p.Some? && c.Some? && c.value != 0.0 then
      var diff := p.value - c.value;
      Delta(Some(diff), Some((diff / c.value) * 100.0))
    else NO_DELTA
  }

  /**
   * Δ against the previous year: none at index 0; Δ when both years are
   * present; Δ% additionally needs a non-zero previous value.
   */
  function DeltaVsPrevious(values: seq<Option<real>>, i: nat): (d: Delta)
    ensures i == 0 ==> d == NO_DELTA
    ensures d.diff.Some? <==> i > 0 && At(values, i).Some? && At(values, i - 1).Some?
    ensures d.diffPct.Some? <==> d.diff.Some? && At(values, i - 1).value != 0.0
    ensures d.diff.Some? ==> At(values, i - 1).value + d.diff.value == At(values, i).value
    ensures d.diffPct.Some? ==> d.diffPct.value * At(values, i - 1).value == 100.0 * d.diff.value
  {
    var prev := if i > 0 then At(values, i - 1) else None;
    var cur := At(values, i);
    if prev.Some? && cur.Some? then
      var diff := cur.value - prev.value;
      Delta(Some(diff), if prev.value != 0.0 then Some((diff / prev.value) * 100.0) else None)
    else NO_DELTA
  }

  // --------------------------------------------------------------- table

  datatype DeltaMode = VsCompare | VsPreviousYear

  /** One table row; `compare` is None when the compare column is hidden or shows "N/A". */
  datatype Row = Row(year: Year, primary: Option<real>, compare: Option<real>, delta: Delta)

  datatype Table = NoRows | Rows(mode: DeltaMode, rows: seq<Row>)

  /** The row the table shows for index `i` of the window. */
  function RowAt(years: seq<Year>, primary: seq<Option<real>>, compare: Aligned, mode: DeltaMode, i: nat): (r: Row)
    requires i < |years|
    requires mode == VsCompare ==> compare.Some? && |compare.value| == |years|
    ensures r.year == years[i]
    ensures i < |primary| ==> r.primary == primary[i]
    ensures i >= |primary| ==> r.primary.None?
    ensures mode == VsCompare ==> r.compare == compare.value[i]
    ensures mode == VsPreviousYear ==> r.compare.None?
    ensures r.delta.diffPct.Some? ==> r.delta.diff.Some?
    ensures r.delta.diff.Some? ==> r.primary.Some?
    ensures mode == VsCompare ==> r.delta == DeltaVsCompare(r.primary, r.compare)
    ensures mode == VsPreviousYear ==> r.delta == DeltaVsPrevious(primary, i)
  {
    match mode
    case VsCompare =>
      Row(years[i], At(primary, i), compare.value[i], DeltaVsCompare(At(primary, i), compare.value[i]))
    case VsPreviousYear =>
      Row(years[i], At(primary, i), None, DeltaVsPrevious(primary, i))
  }

  /**
   * The table as a value: no rows when years or values are empty, else one row
   * per window index, most recent first, in the mode the table's test picks.
   */
  function TableOf(years: seq<Year>, primary: seq<Option<real>>, compare: Aligned, compareLabel: Option<string>): (t: Table)
    ensures t.NoRows? <==> |years| == 0 || |primary| == 0
    ensures t.Rows? ==> |t.rows| == |years|
    ensures t.Rows? ==> forall k :: 0 <= k < |t.rows| ==> t.rows[k].year == years[|years| - 1 - k]
    ensures t.Rows? ==> (t.mode == VsCompare <==> TableHasCompare(years, compare, compareLabel))
    ensures t.Rows? ==> forall k :: 0 <= k < |t.rows| ==>
              t.rows[k] == RowAt(years, primary, compare, t.mode, |years| - 1 - k)
    ensures t.Rows? && t.mode == VsPreviousYear ==> t.rows[|t.rows| - 1].delta == NO_DELTA
  {
    if |years| == 0 || |primary| == 0 then NoRows
    else
      var mode := if TableHasCompare(years, compare, compareLabel) then VsCompare else VsPreviousYear;
      Rows(mode, seq(|years|, k requires 0 <= k < |years| => RowAt(years, primary, compare, mode, |years| - 1 - k)))
  }

  /**
   * `updateTable`: no rows when years or values are empty; otherwise one row
   * per year, most recent first, with deltas against the compare country when
   * the table's comparison test passes and against the previous year otherwise.
   */
  method BuildTable(years: seq<Year>, primary: seq<Option<real>>, compare: Aligned, compareLabel: Option<string>)
    returns (t: Table)
    ensures t.NoRows? <==> |years| == 0 || |primary| == 0
    ensures t.Rows? ==> t.mode == if TableHasCompare(years, compare, compareLabel) then VsCompare else VsPreviousYear
    ensures t.Rows? ==> |t.rows| == |years|
    ensures t.Rows? ==> forall k :: 0 <= k < |t.rows| ==>
              t.rows[k] == RowAt(years, primary, compare, t.mode, |years| - 1 - k)
    ensures t.Rows? && t.mode == VsPreviousYear ==> t.rows[|t.rows| - 1].delta == NO_DELTA
    ensures t == TableOf(years, primary, compare, compareLabel)
  {
    var hasCompare := TableHasCompare(years, compare, compareLabel);
    if |years| == 0 || |primary| == 0 {
      return NoRows;
    }
    var mode := if hasCompare then VsCompare else VsPreviousYear;
    var rows: seq<Row> := [];
    var i := |years| - 1;
    while i >= 0
      invariant -1 <= i < |years|
      invariant |rows| == |years| - 1 - i
      invariant forall k :: 0 <= k < |rows| ==> rows[k] == RowAt(years, primary, compare, mode, |years| - 1 - k)
    {
      var diff: Option<real> := None;
      var diffPct: Option<real> := None;
      var compareCell: Option<real> := None;
      var pVal := At(primary, i);
      if hasCompare {
        var cVal := compare.value[i];
        compareCell := cVal;
        if pVal.Some? && cVal.Some? && cVal.value != 0.0 {
          diff := Some(pVal.value - cVal.value);
          diffPct := Some((diff.value / cVal.value) * 100.0);
        }
      } else {
        var prevVal := if i - 1 >= 0 then At(primary, i - 1) else None;
        if prevVal.Some? && pVal.Some? {
          diff := Some(pVal.value - prevVal.value);
          if prevVal.value != 0.0 {
            diffPct := Some((diff.value / prevVal.value) * 100.0);
          }
        }
      }
      rows := rows + [Row(years[i], pVal, compareCell, Delta(diff, diffPct))];
      i := i - 1;
    }
    t := Rows(mode, rows);
    assert t.rows == TableOf(years, primary, compare, compareLabel).rows;
  }

  /** With ascending years the rows run from the most recent year down to the oldest. */
  lemma RowsDescend(years: seq<Year>, primary: seq<Option<real>>, compare: Aligned, mode: DeltaMode, k: nat, l: nat)
    requires forall a, b :: 0 <= a < b < |years| ==> years[a] < years[b]
    requires mode == VsCompare ==> compare.Some? && |compare.value| == |years|
    requires k < l < |years|
    ensures RowAt(years, primary, compare, mode, |years| - 1 - k).year > RowAt(years, primary, compare, mode, |years| - 1 - l).year
  {
  }

  // ------------------------------------------------------ status message

  /** The extra sentence of the status line: primary relative to compare in the latest year. */
  datatype Relation = NoExtra | Higher(pct: real) | Lower(pct: real) | RoughlyEqual

  /**
   * Needs both values and a non-zero compare value; the percentage shown is the
   * magnitude of the relative difference, and its sign picks the wording.
   */
  function LatestRelation(pLast: Option<real>, cLast: Option<real>): (r: Relation)
    ensures r.NoExtra? <==> pLast.None? || cLast.None? || cLast.value == 0.0
    ensures (r.Higher? || r.Lower?) ==> r.pct > 0.0
    ensures (r.Higher? || r.Lower?) ==>
              r.pct * Format.Abs(cLast.value) == 100.0 * Format.Abs(pLast.value - cLast.value)
    ensures r == RoughlyEqual ==> pLast.value == cLast.value
  {
    if pLast.Some? && cLast.Some? && cLast.value != 0.0 then
      var relPct := ((pLast.value - cLast.value) / cLast.value) * 100.0;
      if relPct > 0.0 then Higher(Format.Abs(relPct))
      else if relPct < 0.0 then Lower(Format.Abs(relPct))
      else RoughlyEqual
    else NoExtra
  }

  /** The status line's relation: only shown with a comparison, read at the window's last year. */
  function StatusRelation(primary: seq<real>, aligned: Aligned, hasCompare: bool): (r: Relation)
    requires |primary| > 0
    requires hasCompare ==> aligned.Some? && |aligned.value| == |primary|
    ensures !hasCompare ==> r.NoExtra?
    ensures hasCompare ==> r == LatestRelation(Some(primary[|primary| - 1]), aligned.value[|primary| - 1])
    ensures r.NoExtra? <==>
              !hasCompare || aligned.value[|primary| - 1].None? || aligned.value[|primary| - 1].value == 0.0
  {
    if hasCompare then LatestRelation(Some(primary[|primary| - 1]), aligned.value[|primary| - 1])
    else NoExtra
  }

  /** With a positive compare value "higher" and "lower" mean what they say. */
  lemma LatestRelationWording(p: real, c: real)
    requires c > 0.0
    ensures LatestRelation(Some(p), Some(c)).Higher? <==> p > c
    ensures LatestRelation(Some(p), Some(c)).Lower? <==> p < c
    ensures LatestRelation(Some(p), Some(c)) == RoughlyEqual <==> p == c
  {
  }

  /** With a negative compare value the wording is inverted: a larger primary value reads "lower". */
  lemma LatestRelationNegativeBase(p: real, c: real)
    requires c < 0.0 && p > c
    ensures LatestRelation(Some(p), Some(c)).Lower?
  {
  }
}
