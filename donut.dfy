/**
 * The donut snapshot (script.js:665-714) and the year picker that feeds it
 * (`updatePieYearOptions`, script.js:167-197).
 */
module Donut {
  import opened Wrappers
  import opened Series
  import opened Align

  /** A picker option: the "latest" sentinel or one year of the window. */
  datatype YearChoice = LatestYear | SpecificYear(year: Year)

  /** The donut's two labels, two values and the text drawn in its centre. */
  datatype Snapshot = Snapshot(labels: seq<string>, values: seq<real>, center: string)

  const START_VS_END := "Start vs End"

  /** `Array.prototype.indexOf`: the first position of `y`, or -1. */
  function IndexOf(s: seq<Year>, y: Year): (i: int)
    ensures -1 <= i < |s|
    ensures i == -1 <==> y !in s
    ensures 0 <= i ==> s[i] == y && forall k :: 0 <= k < i ==> s[k] != y
  {
    if s == [] then -1
    else if s[0] == y then 0
    else
      var j := IndexOf(s[1..], y);
      if j == -1 then -1 else j + 1
  }

  /**
   * The position the snapshot reads: the chosen year's when it is in the
   * window, the last one for "latest" or a year no longer in the window.
   */
  function SnapshotIndex(years: seq<Year>, choice: YearChoice): (i: nat)
    requires |years| > 0
    ensures i < |years|
    ensures choice.SpecificYear? && choice.year in years ==>
              years[i] == choice.year && forall k :: 0 <= k < i ==> years[k] != choice.year
    ensures (choice.LatestYear? || choice.year !in years) ==> i == |years| - 1
  {
    match choice
    case LatestYear => |years| - 1
    case SpecificYear(y) =>
      var j := IndexOf(years, y);
      if j == -1 then |years| - 1 else j
  }

  /**
   * The snapshot as a value. With a comparison its centre is the text of a
   * window year, the chosen one whenever that year is in the window, and its
   * values are the primary value and the compare value (0 when missing) of
   * that same year; without, it spans the window's first and last values.
   */
  function SnapshotOf(years: seq<Year>, primary: seq<real>, compare: Aligned, hasCompare: bool,
                      choice: YearChoice, primaryLabel: string, compareLabel: Option<string>): (r: Snapshot)
    requires |years| > 0 && |primary| == |years|
    requires hasCompare ==> compare.Some? && |compare.value| == |years| && compareLabel.Some?
    ensures |r.labels| == 2 && |r.values| == 2
    ensures hasCompare ==>
              exists i :: 0 <= i < |years| && r.center == YearText(years[i])
                && r.values == [primary[i], compare.value[i].GetOr(0.0)]
    ensures hasCompare && choice.SpecificYear? && choice.year in years ==> r.center == YearText(choice.year)
    ensures hasCompare ==> r.labels == [primaryLabel, compareLabel.value]
    ensures !hasCompare ==> r.values == [primary[0], primary[|primary| - 1]] && r.center == START_VS_END
  {
    if hasCompare then
      var i := SnapshotIndex(years, choice);
      Snapshot([primaryLabel, compareLabel.value], [primary[i], compare.value[i].GetOr(0.0)], YearText(years[i]))
    else
      Snapshot([YearText(years[0]), YearText(years[|years| - 1])], [primary[0], primary[|primary| - 1]], START_VS_END)
  }

  /**
   * The donut: with a comparison, primary against compare at the resolved year
   * (a missing compare value drawn as 0) with that year in the centre;
   * without, the first against the last value of the window, labelled by their years.
   */
  method SelectSnapshot(years: seq<Year>, primary: seq<real>, compare: Aligned, hasCompare: bool,
                        choice: YearChoice, primaryLabel: string, compareLabel: Option<string>)
    returns (s: Snapshot)
    requires |years| > 0 && |primary| == |years|
    requires hasCompare ==> compare.Some? && |compare.value| == |years| && compareLabel.Some?
    ensures |s.labels| == 2 && |s.values| == 2
    ensures hasCompare ==>
              var i := SnapshotIndex(years, choice);
              s == Snapshot([primaryLabel, compareLabel.value],
                            [primary[i], compare.value[i].GetOr(0.0)], YearText(years[i]))
    ensures !hasCompare ==>
              s == Snapshot([YearText(years[0]), YearText(years[|years| - 1])],
                            [primary[0], primary[|primary| - 1]], START_VS_END)
    ensures s == SnapshotOf(years, primary, compare, hasCompare, choice, primaryLabel, compareLabel)
  {
    var labels: seq<string> := [];
    var values: seq<real> := [];
    var center := "";
    if hasCompare {
      var index: int;
      if choice.LatestYear? {
        index := |years| - 1;
      } else {
        index := IndexOf(years, choice.year);
        if index == -1 {
          index := |years| - 1;
        }
      }
      labels := [primaryLabel, compareLabel.value];
      values := [primary[index], compare.value[index].GetOr(0.0)];
      center := YearText(years[index]);
    } else {
      labels := [YearText(years[0]), YearText(years[|years| - 1])];
      values := [primary[0], primary[|primary| - 1]];
      center := START_VS_END;
    }
    s := Snapshot(labels, values, center);
  }

  /** `[LatestYear] + years` as picker options, in order. */
  function Options(years: seq<Year>): (r: seq<YearChoice>)
    ensures |r| == |years| + 1 && r[0] == LatestYear
    ensures forall i :: 0 <= i < |years| ==> r[i + 1] == SpecificYear(years[i])
  {
    [LatestYear] + seq(|years|, i requires 0 <= i < |years| => SpecificYear(years[i]))
  }

  /** The selection after a rebuild: the previous one when it is still offered, else "latest". */
  function KeptChoice(prev: YearChoice, options: seq<YearChoice>): (r: YearChoice)
    requires LatestYear in options
    ensures r in options
    ensures r == prev <==> prev in options || prev == LatestYear
    ensures prev !in options ==> r == LatestYear
  {
    if prev in options then prev else LatestYear
  }

  /**
   * A previously chosen year stays chosen exactly when it is still in the
   * window; a year that has left the window falls back to "latest".
   */
  lemma KeptYearIffInWindow(y: Year, years: seq<Year>)
    ensures KeptChoice(SpecificYear(y), Options(years)) == SpecificYear(y) <==> y in years
    ensures y !in years ==> KeptChoice(SpecificYear(y), Options(years)) == LatestYear
  {
  }

  /**
   * The year the snapshot reads after a rebuild from the previous selection:
   * the kept selection while a comparison is shown, "latest" otherwise. A
   * specific year is always a window year, a previously chosen window year
   * survives whenever a comparison is shown, and a previous selection that is
   * no longer offered reads "latest".
   */
  function PickedChoice(prev: Option<YearChoice>, years: seq<Year>, hasCompare: bool): (r: YearChoice)
    ensures r.SpecificYear? ==> hasCompare && r.year in years
    ensures forall y :: hasCompare && prev == Some(SpecificYear(y)) && y in years ==> r == SpecificYear(y)
    ensures !hasCompare || prev.None? || prev == Some(LatestYear) ==> r == LatestYear
    ensures hasCompare && prev.Some? && prev.value !in Options(years) ==> r == LatestYear
    ensures forall y :: prev == Some(SpecificYear(y)) && y !in years ==> r == LatestYear
  {
    if hasCompare then KeptChoice(prev.GetOr(LatestYear), Options(years)) else LatestYear
  }

  /** The year `<select>`: its option list, its value (None for the empty value) and whether it is disabled. */
  class YearPicker {
    var options: seq<YearChoice>
    var selected: Option<YearChoice>
    var disabled: bool

    constructor ()
      ensures options == [] && selected == None && !disabled
    {
      options := [];
      selected := None;
      disabled := false;
    }

    /** What the snapshot reads: the selected year only while the picker is enabled. */
    function Choice(): (c: YearChoice)
      reads this
      ensures c.SpecificYear? ==> !disabled && selected == Some(c)
      ensures !disabled && selected.Some? ==> c == selected.value
      ensures disabled || selected.None? ==> c == LatestYear
    {
      if !disabled && selected.Some? then selected.value else LatestYear
    }

    /**
     * `updatePieYearOptions`: rebuilds the options as "latest" followed by the
     * years, keeps the previous selection if it is still offered and enables
     * the picker only when a comparison is shown.
     */
    method Rebuild(years: seq<Year>, hasCompare: bool)
      modifies this
      ensures options == Options(years)
      ensures selected == Some(KeptChoice(old(selected).GetOr(LatestYear), options))
      ensures disabled == !hasCompare
      ensures Choice() == PickedChoice(old(selected), years, hasCompare)
    {
      var prev := selected.GetOr(LatestYear);
      options := [LatestYear];
      for i := 0 to |years|
        invariant options == [LatestYear] + seq(i, k requires 0 <= k < i => SpecificYear(years[k]))
      {
        options := options + [SpecificYear(years[i])];
      }
      if prev in options {
        selected := Some(prev);
      } else {
        selected := Some(LatestYear);
      }
      disabled := !hasCompare;
    }

    /** The error and no-data paths only disable the picker. */
    method Disable()
      modifies this`disabled
      ensures disabled && Choice() == LatestYear
      ensures options == old(options) && selected == old(selected)
    {
      disabled := true;
    }
  }
}
