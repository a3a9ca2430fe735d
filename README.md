# Global Health Metrics Dashboard — verified model of the data pipeline

The dashboard loads a World Bank indicator series for a country. It can also
load the same indicator for a second country to compare against. It then
shows the series as charts, KPI cards, a trend sentence, a donut snapshot
and a year-by-year table. This project models the logic behind those views:

- **Fetch cleaning** (`Series`): a non-ok response fails. A body without a
  data array gives an empty series. Otherwise the pipeline drops null values,
  sorts the rest by year (stable) and splits them into parallel years and
  values.
- **Windowing and alignment** (`Align`): keep the trailing `windowSize`
  entries. Then fill a year→value lookup from the compare series and map
  each windowed year through it. A missing year gives None, never 0.
- **The two comparison tests** (`Align.DashboardHasCompare`,
  `Align.TableHasCompare`). The dashboard shows a comparison when aligned
  values exist and a compare label is set. The table also needs one value
  per year and at least one present value. The two tests disagree when no
  windowed year occurs in the compare series.
- **Derived numbers** (`Metrics`):
  - the KPI cards, with a zero-base guard on the percentage;
  - the trend word of the insight sentence, using fixed 5% bands;
  - the table's Δ and Δ%, against the compare country or against the
    previous year, with rows listed most recent first;
  - the latest-year relative percentage in the status line.
- **Snapshot and year picker** (`Donut`): the donut compares the two
  countries at the chosen (or latest) year. Without a comparison it compares
  the start and end of the window. The year `<select>` is a class whose
  rebuild keeps the previous selection while it is still offered.
- **One update cycle** (`Dashboard`): all or nothing. A failed fetch gives
  the error state and an empty series gives the no-data state. Otherwise
  every output is derived from the window and the aligned values.
- **Formatting** (`Format`): "N/A", or a value scaled by the largest
  K/M/B/T threshold its magnitude reaches (GDP and population only).

Values are Dafny `real`. JavaScript's `null`, `undefined` and `NaN` all
become `None` of an `Option`. The API's dates are decimal year tokens, so
they are modelled as `nat`. Map lookup, `indexOf` and `includes` compare
those tokens as strings. That agrees with comparing the numbers, because
the tokens are canonical. `YearText` produces the label text.

Some behaviours of the code worth knowing:

- The dashboard's comparison test (script.js:489) does not require any
  aligned value to be present. Only the table's test does
  (script.js:209-213). `Align.HasCompareTestsDiverge` exhibits a window where
  the two disagree.
- Cleaning only sorts. Duplicate years are not removed, and in the lookup a
  later duplicate overwrites an earlier one (`Align.LastValue`).
- The trend bands and the status-line wording are relative to the sign of
  the base. For a negative first value an unchanged series reads as "an
  overall increase" (`Metrics.ConstantNegativeSeriesReadsAsIncrease`). For a
  negative compare value, a larger primary value reads as "lower"
  (`Metrics.LatestRelationNegativeBase`). The dashboard's four metrics are
  never negative.

## Model

| member | source | states |
|---|---|---|
| `Format.FormatValue` | script.js:80-102 | "N/A" exactly for an absent value. Otherwise scaled × factor is the value again. Non-scaled metrics get no suffix. A suffix's threshold is reached, and for scaled metrics the magnitude is below the next threshold up. |
| `Format.SuffixText` | script.js:88-98 | A plain value gets no suffix text. Every other suffix prints as a space and one capital letter. |
| `Format.SuffixTextIsInjective` | script.js:88-98 | Distinct suffixes print distinct texts, so the text determines the suffix. |
| `Format.SuffixIsDeterminedByMagnitude` | script.js:86-97 | Converse: whichever suffix's band holds the magnitude is the suffix chosen, so the bands do not overlap. |
| `Format.ScalingKeepsSign` | script.js:87-97 | The scaled quantity has the sign of the value. |
| `Format.FormatExamples` | script.js:80-102 | 2.5e9 GDP → 2.5 "B". 999 population → no suffix. A non-scaled metric keeps 72000 plain. An absent value → "N/A". |
| `Format.Classify` | script.js:313-341 | A delta shows as a dash when absent, as up/down for positive/negative, and plain for zero. |
| `Series.YearText` | script.js:708 | The label is a non-empty string of decimal digits without a leading zero, and reading it back as a decimal number gives the year. |
| `Series.Present` | script.js:377-378 | Every entry the filter keeps has a non-null value. |
| `Series.PresentCounts` | script.js:377-378 | The filter keeps each non-null entry exactly as often as the payload holds it, and no null entry. |
| `Series.Insert` | script.js:379 | Inserting into a year-sorted sequence keeps it sorted and adds exactly that entry. |
| `Series.SortByYear` | script.js:379 | The result is sorted by year and is a permutation of the input. |
| `Series.SortSortedIsIdentity` | script.js:379 | Sorting an already sorted sequence changes nothing. |
| `Series.Split` | script.js:381-382 | Years and values are parallel, and entry i is (years[i], values[i]). |
| `Series.Clean` | script.js:374-384 | Parallel output with ascending years. Its entries are exactly the payload's non-null entries, with multiplicity. |
| `Series.CleanIsIdempotent` | script.js:377-382 | Cleaning a cleaned series gives it back unchanged. |
| `Series.FetchData` | script.js:364-384 | Fails exactly on a non-ok response. A missing data array gives an empty series. A data array gives its cleaned series. A success is always parallel. |
| `Align.Window` | script.js:469-475 | Length is min(n, windowSize). Years and values are suffixes cut at the same start. A series no longer than the window is returned unchanged. |
| `Align.WindowIsIdempotent` | script.js:469-475 | Windowing twice with the same size is windowing once. |
| `Align.LastValue` | script.js:480-486 | The lookup has a value for a year iff the year occurs in the compare series, and that value sits beside the year at some position. |
| `Align.LastValueAtLastOccurrence` | script.js:481-483 | At the last occurrence of a year, the lookup holds that occurrence's value (a later `set` overwrites). |
| `Align.LastValueOfIncreasingYears` | script.js:481-485 | With strictly increasing years, every year finds its own value. |
| `Align.BuildLookup` | script.js:480-483 | The Map filled by the `forEach` loop answers every year as `LastValue` does. |
| `Align.AlignedValues` | script.js:478-487 | None exactly when there is no compare code or the compare series is empty. Otherwise one entry per windowed year. |
| `Align.AlignedValueAt` | script.js:484-486 | An aligned entry is None exactly when its year is missing from the compare series. Otherwise it is the compare value at that year's last occurrence. |
| `Align.AlignCompare` | script.js:478-487 | The lookup-then-map computation equals `AlignedValues`. |
| `Align.AlignmentExample` | script.js:469-487 | Years 2018-2021 with window 3 give 2019-2021. Compare years 2019 and 2021 align as [value, None, value]. |
| `Align.DashboardHasCompare` | script.js:489 | The dashboard compares only with aligned values and a label. An empty label is falsy and switches the comparison off. |
| `Align.TableHasCompare` | script.js:209-213 | The table's test implies the dashboard's. It needs one aligned value per year, so the window is non-empty. A compare series with no present aligned value fails it. |
| `Align.HasCompareTests` | script.js:209-213 | On aligned values, the table's test holds iff the dashboard's test holds and some aligned value is present. |
| `Align.HasCompareTestsDiverge` | script.js:489 | A window whose only year is missing from the compare series: the dashboard compares, the table does not. |
| `Metrics.ComputeKpis` | script.js:121-131 | Placeholders exactly for no values. Current is the last value. First + absChange = last. The percentage is missing iff first = 0, else pct × first = 100 × absChange. |
| `Metrics.KpiDirectionsAgree` | script.js:139-160 | For a positive first value, the percentage card and the absolute card show the same direction. |
| `Metrics.GenerateInsight` | script.js:390-409 | The fixed no-data message exactly for no values. Otherwise a summary of the first/last year and value, whose trend word is `TrendOf` of those two values. |
| `Metrics.TrendOf` | script.js:403-409 | "Increase" iff the change exceeds 5% of the first value, "decrease" iff it falls below -5% of it. For a non-negative first value, increase means a higher last value, decrease a lower one, and an unchanged value is "stability". |
| `Metrics.TrendMatchesPercentChange` | script.js:403-409 | For a positive first value, exactly one word applies: "increase" iff the KPI percentage exceeds +5, "decrease" iff below -5, else "stability". |
| `Metrics.ConstantNegativeSeriesReadsAsIncrease` | script.js:403-404 | For a negative first value the bands are mirrored: an unchanged series reads as an increase. |
| `Metrics.InsightExamples` | script.js:391-409 | [100,106] → increase, [100,104] → stability, [100,90] → decrease, no values → no-data message. |
| `Metrics.DeltaVsCompare` | script.js:278-288 | Δ and Δ% both exist iff both values are present and compare ≠ 0. Compare + Δ = primary. Δ% × compare = 100 × Δ. |
| `Metrics.DeltaVsPrevious` | script.js:290-307 | Nothing at index 0. Δ iff both years are present, with prev + Δ = cur. Δ% iff additionally prev ≠ 0, with Δ% × prev = 100 × Δ. |
| `Metrics.RowAt` | script.js:255-308 | Row i shows year i and value i (absent past the end of the values). The compare column is compare value i in vs-compare mode and hidden otherwise. The delta is `DeltaVsCompare` of the row's primary and compare values in vs-compare mode, and `DeltaVsPrevious` at index i otherwise. Δ% only with Δ, and Δ only with a primary value. |
| `Metrics.TableOf` | script.js:204-308 | No rows iff years or values are empty. One row per year, years in reverse order. Vs-compare mode iff the table's test holds. Row k is `RowAt` of index n-1-k in that mode, so its Δ and Δ% are that index's. In vs-previous mode the oldest row has no delta. |
| `Metrics.BuildTable` | script.js:204-308 | No rows iff years or values are empty. The mode is vs-compare iff the table's test holds. Row k is index n-1-k (most recent first). In vs-previous mode the last row has no delta. The loop's result is `TableOf`. |
| `Metrics.RowsDescend` | script.js:255 | With ascending years the rows' years strictly descend. |
| `Metrics.LatestRelation` | script.js:771-786 | No extra sentence iff a value is missing or compare = 0. The shown percentage is positive, and pct × \|c\| = 100 × \|p - c\|. "Approximately equal" only when p = c. |
| `Metrics.StatusRelation` | script.js:765-787 | With a comparison, the relation of the window's last primary value to its aligned compare value. None exactly when there is no comparison, no latest compare value, or that value is 0. |
| `Metrics.LatestRelationWording` | script.js:778-786 | For a positive compare value: "higher" iff p > c, "lower" iff p < c, equal iff p = c. |
| `Metrics.LatestRelationNegativeBase` | script.js:778-783 | For a negative compare value, a larger primary value is worded "lower". |
| `Donut.IndexOf` | script.js:687 | -1 iff the year is absent. Otherwise the position of its first occurrence. |
| `Donut.SnapshotIndex` | script.js:683-689 | Always a valid index. For a chosen year in the window, that year's first position. For "latest" or a year not found, the last index. |
| `Donut.SnapshotOf` | script.js:681-714 | Two labels and two values. With a comparison: the [primary, compare] labels, and the primary and compare values (0 when missing) of one window year, whose text is the centre; that year is the chosen one whenever it is in the window. Without: the window's first and last values, and "Start vs End". |
| `Donut.SelectSnapshot` | script.js:681-714 | With a comparison: [primary, compare] labels, values at the resolved index (a missing compare value becomes 0), and that year as the centre. Without: first and last year labels and values, and "Start vs End". The result is `SnapshotOf`. |
| `Donut.Options` | script.js:175-185 | The options are "latest" followed by the years in order. |
| `Donut.KeptChoice` | script.js:187-193 | The selection is always an offered option. It is the previous selection iff that was offered (or was "latest"). A previous selection no longer offered becomes "latest". |
| `Donut.KeptYearIffInWindow` | script.js:187-193 | A previously chosen year stays chosen iff it is still in the window. A year that has left the window becomes "latest". |
| `Donut.PickedChoice` | script.js:187-196 | After a rebuild, a specific year is read only with a comparison and is a window year. A previously chosen year still in the window is read again, and one that has left the window reads "latest". Without a comparison, or with no or a "latest" previous selection, the snapshot reads "latest". |
| `Donut.YearPicker.Choice` | script.js:671-679 | An enabled picker with a selection yields that selection. A disabled or empty picker yields "latest". A specific year is therefore always the enabled picker's selection. |
| `Donut.YearPicker.Rebuild` | script.js:167-197 | Options become "latest" + years. The selection is kept when still offered, else "latest". Disabled iff there is no comparison. The year then read is `PickedChoice` of the previous selection. |
| `Donut.YearPicker.Disable` | script.js:464 | The no-data and error paths disable the picker, so the snapshot reads "latest". Options and selection are kept. |
| `Dashboard.CompareCode` | script.js:427-429 | A compare code exists iff one is chosen and it differs from the primary code. |
| `Dashboard.CompareLabel` | script.js:430-432 | A compare label exists iff a compare code is set, and it is the compare country's text. |
| `Dashboard.ShownView` | script.js:468-787 | The whole shown view. KPIs are `ComputeKpis` of the window, and the snapshot is `SnapshotOf` at `PickedChoice` of the previous selection. The window ends at the series' latest year and is at most the chosen size. The current-value card shows that latest value. The table has a row per window year. The snapshot reads a previously chosen year while it is in the window and a comparison is shown. Without a comparison the snapshot spans the window and the status line adds nothing. |
| `Dashboard.Derive` | script.js:760-787 | KPIs, insight, table and status relation are those of the window and the aligned values (`TableOf`, `StatusRelation`). |
| `Dashboard.ShowSnapshot` | script.js:491-492 | The picker is rebuilt (options, kept selection, enabled iff comparing) before the snapshot reads it. The snapshot is `SnapshotOf` at `PickedChoice` of the previous selection. |
| `Dashboard.Render` | script.js:468-763 | The view is `ShownView` of the series and the previous selection. The picker's options are the window's, it keeps its selection when still offered, and it is enabled iff the dashboard's test holds. |
| `Dashboard.UpdateDashboard` | script.js:420-815 | An error exactly when a needed fetch fails. No data exactly when the cleaned primary series is empty. Both states disable the picker and leave its options and selection alone. Otherwise the view is `ShownView` of the cleaned series, and the picker is rebuilt as in `Render`. |

## Left out

- DOM lookup and mutation, CSS classes, `pulseElement`, table cell and header construction: these are presentation. The model returns the values the page shows.
- Chart.js datasets, options, the centre-text canvas plugin, and chart destroy/recreate: these belong to a foreign rendering library.
- The network request, `response.ok`, JSON decoding, `async`/`Promise.all`: these become a `Response` parameter per series. A failure of either fetch fails the whole update.
- The stale-response race between overlapping updates is a concurrency effect. Each update is modelled as one complete cycle.
- `toFixed` digit rendering and IEEE doubles: values are exact reals. `Infinity` and `NaN` are not representable, so the `isFinite` checks collapse to present/absent.
- Metric descriptions, status colours and message wording beyond the computed relation, and the event-listener wiring are text and UI.
- Series.SortByYear: stability is not stated, i.e. that entries of the same year keep their payload order (the function inserts after equal years, as a stable sort does). Only the order of duplicate years depends on it.
- Dashboard.UpdateDashboard: requires a positive window size. The window selector only offers positive year counts, and a zero window is not modelled.
