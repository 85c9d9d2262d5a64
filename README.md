# European CO2-intensity dashboard: the data pipeline, modelled in Dafny

The dashboard (`app.py`) loads a table of monthly electricity observations,
derives Year/Month/Day columns from each row's date, and offers the sorted
list of countries (`ALL_COUNTRIES`) in a dropdown. Each time the selection
changes, the callback `update_charts` keeps the rows of the selected
countries for the single metric "Power sector emissions" / "CO2 intensity".
It then draws:

- a line chart with one date-sorted series per country, each with a marker
  on its first minimum and its first maximum;
- a heatmap of the mean value per (country, year), where a missing
  combination shows 0.

If nothing survives the filter, both charts show a placeholder title instead.

This project models that pipeline without the Dash and plotly calls:

- `seqs.dfy`, module `Seqs`: the sequence operations the pipeline uses. These
  are a boolean mask (`Keep`), first-appearance de-duplication (`Unique`,
  pandas `unique`) and a sort under a strict weak order (`Sort`, Python
  `sorted` and pandas `sort_values`).
- `dataset.dfy`, module `Dataset`: dates and rows, the class `Frame` whose
  `AddCalendarColumns` adds the derived columns in place, Python's string
  order (`StrLess`), and the sorted distinct countries (`Countries`) and
  years (`YearsPresent`).
- `charts.dfy`, module `Charts`: the metric filter, the per-country series
  loop (`LineSeries`), the Area x Year pivot (`PivotOf`) and the callback
  (`UpdateCharts`).

Values are `real`, so a mean is an exact division. A date is a
(year, month, day) triple in chronological order.

Three consequences of how the code is written:

- `groupby(['Area', 'Year'])` sorts its keys, so the pivot's rows are the
  ascending distinct countries and its columns the ascending distinct years,
  not first-appearance order (`PivotShape`).
- `sort_values('Date')` allows equal dates, so a series is only
  non-decreasing by date, and a permutation of the country's rows.
- The heatmap buckets by Year only. `app.py` has no animation timer,
  start/stop toggle, month bucket or year filter.

## Model

| member | source | states |
|---|---|---|
| `Dataset.Frame.constructor` | app.py:9-10 | the frame holds the parsed rows and records whether the table has a Day column |
| `Dataset.Frame.AddCalendarColumns` | app.py:10-14 | every row's Year equals its date's year and its Month its date's month, which lies in 1..12; Day becomes 1 on every row when the table has no Day column and is left alone otherwise; no other column changes and no row is added or dropped |
| `Dataset.StrLessIsStrictTotalOrder` | app.py:16 | Python's code-point string order is asymmetric, transitive and total, so sorting country names is deterministic |
| `Dataset.Countries` | app.py:16 | `ALL_COUNTRIES` is strictly ascending (so it has no duplicates) and holds exactly the Area values that occur in the table |
| `Seqs.Unique` | app.py:101 | `unique()` lists each value once, and exactly the values that occur |
| `Seqs.UniqueInFirstAppearanceOrder` | app.py:101 | `unique()` lists the values in the order of their first occurrence |
| `Seqs.Sort` | app.py:102 | sorting gives a permutation of its input that is non-decreasing under the order |
| `Seqs.SortDistinctIsStrict` | app.py:16 | sorting distinct values under a total order gives a strictly ascending sequence with the same elements |
| `Seqs.Keep` | app.py:87-91 | a boolean mask keeps each satisfying row exactly as many times as it occurs and drops every other row |
| `Seqs.KeepIsSubsequence` | app.py:87-91 | a boolean mask never reorders rows |
| `Charts.FilterExact` | app.py:87-91 | the filtered subset is the rows whose Area is selected, whose Category is "Power sector emissions" and whose Variable is "CO2 intensity", in table order and with their multiplicities; no other row survives |
| `Charts.FirstMinAt` | app.py:111 | `idxmin` points at a value no greater than any other in the series, and at the first such position |
| `Charts.FirstMaxAt` | app.py:112 | `idxmax` points at a value no smaller than any other in the series, and at the first such position |
| `Charts.SeriesFor` | app.py:102-112 | one country's series is a date-sorted permutation of all of its filtered rows, with both markers at their first extreme |
| `Charts.LineSeries` | app.py:101-112 | the loop draws exactly one series per distinct country of the subset, in first-appearance order, each as `SeriesFor` states |
| `Charts.SeriesCoverSubset` | app.py:101-102 | taken together, the series draw every filtered row exactly once |
| `Charts.Tallies` | app.py:143 | every group the pass accumulates holds at least one row |
| `Charts.TalliedIffGrouped` | app.py:143 | an (Area, Year) key is accumulated exactly when the subset has a row with that Area and Year |
| `Charts.TalliesAreGroupTotals` | app.py:143 | an accumulated key's sum and count are the Value total and the number of the subset's rows with that Area and Year |
| `Charts.PivotCellIsMean` | app.py:143 | each cell is the arithmetic mean of Value over the subset's rows with that Area and Year, and exactly 0 where that Area and Year never occur together |
| `Charts.MeanWithin` | app.py:143 | a cell's mean lies between any lower and upper bound of the values averaged |
| `Charts.PivotShape` | app.py:143 | the pivot's rows are the subset's distinct areas and its columns the subset's distinct years, both ascending, with a cell for every row/column pair |
| `Charts.PivotYearsAreDateYears` | app.py:11 | on a frame whose Year column has been derived, the pivot's column labels are exactly the calendar years of the filtered rows' dates |
| `Dataset.YearsPresent` | app.py:143 | the column labels are strictly ascending and are exactly the Year values of the subset |
| `Charts.PivotEmptyIff` | app.py:143-145 | the pivot is empty exactly when the filtered subset is empty |
| `Charts.UpdateCharts` | app.py:83-164 | the line placeholder appears exactly when the subset is empty, and the heatmap placeholder exactly when the line one does. Each figure carries its placeholder or its chart title. Otherwise the line chart has one series per distinct country as `LineSeries` states, and the heatmap shows `PivotOf` of the same subset |

## Left out

- Reading `monthly.csv` and parsing Date with `pd.to_datetime` (lines 9-10): file I/O and library parsing. The model starts from parsed rows whose dates are real calendar days, so a load error is not modelled.
- The Dash layout, the callback wiring, the default selection and `app.run` (lines 26-82, 166-168): UI and HTTP server plumbing.
- Plotly figure construction (lines 100-110, 113-135, 152-162): traces, spline shape, marker colours and sizes, colour scale, transitions. The model keeps only the data each figure shows (series with marker positions, the pivot) and the title it carries.
- Floating point: Value is an exact `real`, so `mean` does not round. NaN is not modelled, so the `pd.notna(idx)` guard (line 117) always holds and every non-empty series gets both markers.
- Charts.SeriesFor: the order among rows with equal dates after `sort_values` is not fixed, because pandas' default sort is not stable. Only sortedness and permutation are stated.
- Time of day in `Date`: the table holds calendar dates, so a date is (year, month, day).
