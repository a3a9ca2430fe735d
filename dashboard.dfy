/**
 * One update cycle of the dashboard (`updateDashboard`, script.js:420-815):
 * the fetches are given as their responses, every derived output is computed
 * from the windowed primary series and the aligned compare values, and only
 * the year picker is state that outlives the cycle.
 */
module Dashboard {
  import opened Wrappers
  import opened Series
  import opened Align
  import opened Metrics
  import opened Donut

  /** A compare country is used only when one is chosen and it is not the primary country. */
  function CompareCode(raw: string, primaryCode: string): (r: Option<string>)
    ensures r.Some? <==> raw != "" && raw != primaryCode
    ensures r.Some? ==> r.value == raw && r.value != primaryCode
  {
    if raw != "" && raw != primaryCode then Some(raw) else None
  }

  /** What one update shows: the error state, the no-data state, or every derived output. */
  datatype View =
    | LoadFailed
    | NoData
    | Shown(years: seq<Year>, primary: seq<real>, compare: Aligned, hasCompare: bool,
            kpis: Kpis, insight: Insight, table: Table, snapshot: Snapshot, relation: Relation)

  /** Present values as the table receives them. */
  function Lift(s: seq<real>): (r: seq<Option<real>>)
    ensures |r| == |s| && forall i :: 0 <= i < |s| ==> r[i] == Some(s[i])
  {
    seq(|s|, i requires 0 <= i < |s| => Some(s[i]))
  }

  /**
   * Everything a successful update shows, given the cleaned primary series,
   * the compare code and series, and the picker's selection before the update.
   * The window ends at the latest year of the series and is never longer than
   * the chosen size; the current-value card reads that latest value; the table
   * has a row per window year; the snapshot reads the previously chosen year
   * whenever a comparison is shown and that year is still in the window; and
   * without a comparison there is no status-line relation.
   */
  function ShownView(data: TimeSeries, windowSize: nat, compareCode: Option<string>,
                     compareData: Option<TimeSeries>, primaryLabel: string,
                     compareLabel: Option<string>, prev: Option<YearChoice>): (v: View)
    requires windowSize > 0 && Parallel(data) && |data.years| > 0
    requires compareData.Some? ==> Parallel(compareData.value)
    ensures v.Shown?
    ensures v.years == Window(data, windowSize).years && v.primary == Window(data, windowSize).values
    ensures 0 < |v.years| <= windowSize && v.years[|v.years| - 1] == data.years[|data.years| - 1]
    ensures v.compare == AlignedValues(v.years, compareCode, compareData)
    ensures v.hasCompare == DashboardHasCompare(v.compare, compareLabel)
    ensures v.kpis == ComputeKpis(v.primary)
    ensures v.kpis.Kpis? && v.kpis.current == data.values[|data.values| - 1]
    ensures v.insight == GenerateInsight(v.primary, v.years)
    ensures v.table == TableOf(v.years, Lift(v.primary), v.compare, compareLabel)
    ensures v.table.Rows? && |v.table.rows| == |v.years|
    ensures v.snapshot == SnapshotOf(v.years, v.primary, v.compare, v.hasCompare,
                                     PickedChoice(prev, v.years, v.hasCompare), primaryLabel, compareLabel)
    ensures forall y :: v.hasCompare && prev == Some(SpecificYear(y)) && y in v.years ==>
              v.snapshot.center == YearText(y)
    ensures !v.hasCompare ==> v.snapshot.center == START_VS_END && v.relation.NoExtra?
    ensures v.relation == StatusRelation(v.primary, v.compare, v.hasCompare)
  {
    var plot := Window(data, windowSize);
    var aligned := AlignedValues(plot.years, compareCode, compareData);
    var hasCompare := DashboardHasCompare(aligned, compareLabel);
    var choice := PickedChoice(prev, plot.years, hasCompare);
    Shown(plot.years, plot.values, aligned, hasCompare,
          ComputeKpis(plot.values), GenerateInsight(plot.values, plot.years),
          TableOf(plot.years, Lift(plot.values), aligned, compareLabel),
          SnapshotOf(plot.years, plot.values, aligned, hasCompare, choice, primaryLabel, compareLabel),
          StatusRelation(plot.values, aligned, hasCompare))
  }

  /** The outputs that depend only on the window and the aligned values, not on the picker. */
  method Derive(years: seq<Year>, primary: seq<real>, aligned: Aligned, hasCompare: bool,
                compareLabel: Option<string>)
    returns (kpis: Kpis, insight: Insight, table: Table, relation: Relation)
    requires |years| == |primary| && |years| > 0
    requires hasCompare ==> aligned.Some? && |aligned.value| == |years|
    ensures kpis == ComputeKpis(primary) && insight == GenerateInsight(primary, years)
    ensures table == TableOf(years, Lift(primary), aligned, compareLabel)
    ensures relation == StatusRelation(primary, aligned, hasCompare)
  {
    insight := GenerateInsight(primary, years);
    kpis := ComputeKpis(primary);
    table := BuildTable(years, Lift(primary), aligned, compareLabel);
    relation := NoExtra;
    if hasCompare {
      var lastIndex := |years| - 1;
      relation := LatestRelation(Some(primary[lastIndex]), aligned.value[lastIndex]);
    }
  }

  /** Rebuilds the year picker, then reads the donut snapshot at the year it selects. */
  method ShowSnapshot(picker: YearPicker, years: seq<Year>, primary: seq<real>, aligned: Aligned,
                      hasCompare: bool, primaryLabel: string, compareLabel: Option<string>)
    returns (snapshot: Snapshot)
    requires |years| == |primary| && |years| > 0
    requires hasCompare ==> aligned.Some? && |aligned.value| == |years| && compareLabel.Some?
    modifies picker
    ensures picker.options == Options(years) && picker.disabled == !hasCompare
    ensures picker.selected == Some(KeptChoice(old(picker.selected).GetOr(LatestYear), Options(years)))
    ensures snapshot == SnapshotOf(years, primary, aligned, hasCompare,
                                   PickedChoice(old(picker.selected), years, hasCompare),
                                   primaryLabel, compareLabel)
  {
    picker.Rebuild(years, hasCompare);
    snapshot := SelectSnapshot(years, primary, aligned, hasCompare, picker.Choice(), primaryLabel, compareLabel);
  }

  /**
   * The rendering half of an update, once the primary series is known to be
   * non-empty: window, alignment, picker rebuild and every derived output.
   */
  method Render(picker: YearPicker, data: TimeSeries, compareCode: Option<string>,
                compareData: Option<TimeSeries>, primaryLabel: string,
                compareLabel: Option<string>, windowSize: nat)
    returns (v: View)
    requires windowSize > 0 && Parallel(data) && |data.years| > 0
    requires compareData.Some? ==> Parallel(compareData.value)
    modifies picker
    ensures v == ShownView(data, windowSize, compareCode, compareData, primaryLabel, compareLabel,
                           old(picker.selected))
    ensures picker.options == Options(v.years) && picker.disabled == !v.hasCompare
    ensures picker.selected == Some(KeptChoice(old(picker.selected).GetOr(LatestYear), Options(v.years)))
  {
    var plot := Window(data, windowSize);
    var aligned := AlignCompare(plot.years, compareCode, compareData);
    var hasCompare := DashboardHasCompare(aligned, compareLabel);
    var snapshot := ShowSnapshot(picker, plot.years, plot.values, aligned, hasCompare, primaryLabel, compareLabel);
    var kpis, insight, table, relation := Derive(plot.years, plot.values, aligned, hasCompare, compareLabel);
    v := Shown(plot.years, plot.values, aligned, hasCompare, kpis, insight, table, snapshot, relation);
  }

  /** The compare label used when a compare code is set. */
  function CompareLabel(compareCode: Option<string>, compareText: string): (r: Option<string>)
    ensures r.Some? <==> compareCode.Some?
    ensures r.Some? ==> r.value == compareText
  {
    if compareCode.Some? then Some(compareText) else None
  }

  /**
   * `updateDashboard`, all or nothing: a failed fetch (of either series when
   * comparing) gives the error state and an empty primary series the no-data
   * state, both with the picker disabled and its options and selection
   * untouched; otherwise the view derived from the cleaned primary and compare
   * series, with the picker rebuilt for the window.
   */
  method UpdateDashboard(picker: YearPicker, primaryCode: string, compareRaw: string,
                         primaryLabel: string, compareText: string, windowSize: nat,
                         primaryResp: Response, compareResp: Response)
    returns (v: View)
    requires windowSize > 0
    modifies picker
    ensures var comparing := CompareCode(compareRaw, primaryCode).Some?;
            v.LoadFailed? <==> primaryResp.NotOk? || (comparing && compareResp.NotOk?)
    ensures v.NoData? <==> !v.LoadFailed? && |FetchData(primaryResp).value.years| == 0
    ensures !v.Shown? ==>
              picker.disabled && picker.options == old(picker.options) && picker.selected == old(picker.selected)
    ensures v.Shown? ==>
              var code := CompareCode(compareRaw, primaryCode);
              v == ShownView(FetchData(primaryResp).value, windowSize, code,
                             if code.Some? then Some(FetchData(compareResp).value) else None,
                             primaryLabel, CompareLabel(code, compareText), old(picker.selected))
    ensures v.Shown? ==>
              picker.options == Options(v.years) && picker.disabled == !v.hasCompare
              && picker.selected == Some(KeptChoice(old(picker.selected).GetOr(LatestYear), Options(v.years)))
  {
    var compareCode := CompareCode(compareRaw, primaryCode);
    var compareLabel := CompareLabel(compareCode, compareText);
    var primaryData := FetchData(primaryResp);
    var compareData: Option<TimeSeries> := None;
    if compareCode.Some? {
      var fetched := FetchData(compareResp);
      if primaryData.Failure? || fetched.Failure? {
        picker.Disable();
        return LoadFailed;
      }
      compareData := Some(fetched.value);
    } else if primaryData.Failure? {
      picker.Disable();
      return LoadFailed;
    }

    var data := primaryData.value;
    if |data.years| == 0 || |data.values| == 0 {
      picker.Disable();
      return NoData;
    }
    v := Render(picker, data, compareCode, compareData, primaryLabel, compareLabel, windowSize);
  }
}
