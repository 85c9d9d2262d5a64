/** The callback `update_charts` (app.py lines 83-164) with the figure
    construction stripped away: the metric filter, one date-sorted series per
    country with its first minimum and first maximum, the Area x Year pivot
    of mean values with zero fill, and the choice of placeholder titles. */
module Charts {
  import opened Seqs
  import opened Dataset

  /** The single metric shown (lines 20-23). */
  const MetricCategory: string := "Power sector emissions"
  const MetricVariable: string := "CO2 intensity"

  /** Titles chosen by the callback (lines 19, 96, 130, 148, 161). */
  const MetricLabel: string := "CO₂ Intensity (gCO2e/kWh)"
  const LinePrompt: string := "Please select at least one country"
  const LineTitle: string := MetricLabel + " by Country Over Time"
  const HeatmapPrompt: string := "No data for selected countries."
  const HeatmapTitle: string := "Country-Year Heatmap"

  // ---------------------------------------------------------------------
  // Filter (lines 87-91 and 138-142)

  /** The boolean mask of lines 88-90. */
  predicate Selected(r: Row, selection: seq<string>) {
    r.area in selection && r.category == MetricCategory && r.variable == MetricVariable
  }

  /** `dff_line` and `dff_heatmap`: the rows the mask keeps, in table order. */
  function Filter(df: seq<Row>, selection: seq<string>): seq<Row>
  {
    Keep(df, r => Selected(r, selection))
  }

  /** The filtered subset holds exactly the selected rows of the metric, each
      as often as in the table, in the table's order; nothing else survives. */
  lemma FilterExact(df: seq<Row>, selection: seq<string>)
    ensures var sub := Filter(df, selection);
      && SubsequenceOf(sub, df)
      && (forall r :: r in sub <==> r in df && r.area in selection
                                    && r.category == MetricCategory && r.variable == MetricVariable)
      && (forall r :: multiset(sub)[r] == if Selected(r, selection) then multiset(df)[r] else 0)
  {
    KeepIsSubsequence(df, r => Selected(r, selection));
  }

  // ---------------------------------------------------------------------
  // Line series (lines 101-112)

  /** `dff_line[dff_line['Area'] == area]`. */
  function AreaRows(sub: seq<Row>, area: string): seq<Row>
  {
    Keep(sub, (r: Row) => r.area == area)
  }

  /** Row order used by `sort_values('Date')`. */
  predicate EarlierRow(r: Row, s: Row) {
    DateLess(r.date, s.date)
  }

  /** Rows with equal dates tie; otherwise the earlier date comes first. */
  lemma EarlierRowIsStrictWeakOrder()
    ensures StrictWeakOrder(EarlierRow)
  {
  }

  /** `k` is where `idxmin` points: a least value, and the first one. */
  predicate IsFirstMin(pts: seq<Row>, k: nat) {
    && k < |pts|
    && (forall j :: 0 <= j < |pts| ==> pts[k].value <= pts[j].value)
    && (forall j :: 0 <= j < k ==> pts[k].value < pts[j].value)
  }

  /** `k` is where `idxmax` points: a greatest value, and the first one. */
  predicate IsFirstMax(pts: seq<Row>, k: nat) {
    && k < |pts|
    && (forall j :: 0 <= j < |pts| ==> pts[j].value <= pts[k].value)
    && (forall j :: 0 <= j < k ==> pts[j].value < pts[k].value)
  }

  /** `area_df['Value'].idxmin()`, as a position in the sorted series. */
  function FirstMinAt(pts: seq<Row>): (k: nat)
    requires pts != []
    ensures IsFirstMin(pts, k)
  {
    if |pts| == 1 then 0
    else
      var k := 1 + FirstMinAt(pts[1..]);
      if pts[0].value <= pts[k].value then 0 else k
  }

  /** `area_df['Value'].idxmax()`, as a position in the sorted series. */
  function FirstMaxAt(pts: seq<Row>): (k: nat)
    requires pts != []
    ensures IsFirstMax(pts, k)
  {
    if |pts| == 1 then 0
    else
      var k := 1 + FirstMaxAt(pts[1..]);
      if pts[k].value <= pts[0].value then 0 else k
  }

  /** One country's line trace and its two marker positions. */
  datatype Series = Series(area: string, points: seq<Row>, minAt: nat, maxAt: nat)

  /** `s` is what the loop draws for `area`: all of that country's filtered
      rows, sorted by date, with both markers at their first extreme. */
  ghost predicate IsSeriesOf(sub: seq<Row>, area: string, s: Series) {
    && s.area == area
    && SortedBy(s.points, EarlierRow)
    && multiset(s.points) == multiset(AreaRows(sub, area))
    && IsFirstMin(s.points, s.minAt)
    && IsFirstMax(s.points, s.maxAt)
  }

  /** A country that occurs in the subset has at least one row in it. */
  lemma AreaRowsNonEmpty(sub: seq<Row>, area: string)
    requires area in Areas(sub)
    ensures AreaRows(sub, area) != []
  {
    var k :| 0 <= k < |sub| && Areas(sub)[k] == area;
    assert sub[k] in AreaRows(sub, area);
  }

  /** Lines 102-112 for one country: its rows sorted by date, and the
      positions of the first minimum and the first maximum. */
  function SeriesFor(sub: seq<Row>, area: string): (s: Series)
    requires area in Areas(sub)
    ensures IsSeriesOf(sub, area, s)
  {
    EarlierRowIsStrictWeakOrder();
    AreaRowsNonEmpty(sub, area);
    var points := Sort(AreaRows(sub, area), EarlierRow);
    assert AreaRows(sub, area)[0] in multiset(points);
    Series(area, points, FirstMinAt(points), FirstMaxAt(points))
  }

  /** The `for area in dff_line['Area'].unique()` loop: one series per
      distinct country of the subset, in the order the countries first appear. */
  method LineSeries(sub: seq<Row>) returns (series: seq<Series>)
    ensures |series| == |Unique(Areas(sub))|
    ensures forall i :: 0 <= i < |series| ==> IsSeriesOf(sub, Unique(Areas(sub))[i], series[i])
  {
    var areas := Unique(Areas(sub));
    series := [];
    for i := 0 to |areas|
      invariant |series| == i
      invariant forall j :: 0 <= j < i ==> IsSeriesOf(sub, areas[j], series[j])
    {
      series := series + [SeriesFor(sub, areas[i])];
    }
  }

  // ---------------------------------------------------------------------
  // Heatmap pivot (line 143)

  /** Sum of the Value column. */
  function SumValues(rows: seq<Row>): real
  {
    if rows == [] then 0.0 else SumValues(rows[..|rows| - 1]) + rows[|rows| - 1].value
  }

  /** Arithmetic mean of the Value column. */
  function Mean(rows: seq<Row>): real
    requires rows != []
  {
    SumValues(rows) / (|rows| as real)
  }

  /** The rows of one (Area, Year) group. */
  function Group(sub: seq<Row>, area: string, year: int): seq<Row>
  {
    Keep(sub, (r: Row) => r.area == area && r.year == year)
  }

  /** What `groupby(['Area', 'Year'])` accumulates per key on its way to the mean. */
  datatype Tally = Tally(sum: real, count: nat)

  /** Adds one row to the running tally of its (Area, Year) key. */
  function AddRow(t: map<(string, int), Tally>, r: Row): map<(string, int), Tally>
  {
    var k := (r.area, r.year);
    t[k := if k in t then Tally(t[k].sum + r.value, t[k].count + 1) else Tally(r.value, 1)]
  }

  /** One pass over the subset, adding each row to its key. */
  function Tallies(sub: seq<Row>): (t: map<(string, int), Tally>)
    ensures forall k :: k in t ==> t[k].count > 0
  {
    if sub == [] then map[] else AddRow(Tallies(sub[..|sub| - 1]), sub[|sub| - 1])
  }

  /** The pivoted table: row labels, column labels and the cells. */
  datatype Pivot = Pivot(areas: seq<string>, years: seq<int>, cells: map<(string, int), real>)

  /** One cell of the unstacked mean: the group's mean, or the fill value 0. */
  function Cell(t: map<(string, int), Tally>, area: string, year: int): real
    requires forall k :: k in t ==> t[k].count > 0
  {
    if (area, year) in t then t[(area, year)].sum / (t[(area, year)].count as real) else 0.0
  }

  /** `groupby(['Area', 'Year'])['Value'].mean().unstack(fill_value=0)`:
      groupby sorts its keys, so rows and columns come out in ascending order. */
  function PivotOf(sub: seq<Row>): Pivot
  {
    var t := Tallies(sub);
    var areas := Countries(sub);
    var years := YearsPresent(sub);
    Pivot(areas, years, map a, y | a in areas && y in years :: (a, y) := Cell(t, a, y))
  }

  /** `pivot.empty`: no row label or no column label. */
  predicate PivotEmpty(p: Pivot) {
    p.areas == [] || p.years == []
  }

  /** A group grows by the last row exactly when that row has the group's key. */
  lemma GroupSnoc(sub: seq<Row>, area: string, year: int)
    requires sub != []
    ensures var n := |sub| - 1;
      Group(sub, area, year) ==
        Group(sub[..n], area, year) + (if sub[n].area == area && sub[n].year == year then [sub[n]] else [])
  {
  }

  /** Adding a row adds its value to the sum. */
  lemma SumValuesSnoc(rows: seq<Row>, r: Row)
    ensures SumValues(rows + [r]) == SumValues(rows) + r.value
  {
  }

  /** A key is accumulated exactly when the subset has a row with that key. */
  lemma {:induction false} TalliedIffGrouped(sub: seq<Row>, area: string, year: int)
    ensures (area, year) in Tallies(sub) <==> Group(sub, area, year) != []
  {
    if sub != [] {
      var n := |sub| - 1;
      TalliedIffGrouped(sub[..n], area, year);
      GroupSnoc(sub, area, year);
      assert Tallies(sub) == AddRow(Tallies(sub[..n]), sub[n]);
    }
  }

  /** The accumulated (sum, count) of a key is the Value total and the size
      of its group. */
  lemma {:induction false} TalliesAreGroupTotals(sub: seq<Row>, area: string, year: int)
    requires (area, year) in Tallies(sub)
    ensures Tallies(sub)[(area, year)] == Tally(SumValues(Group(sub, area, year)), |Group(sub, area, year)|)
  {
    var n := |sub| - 1;
    var t0, g0, r := Tallies(sub[..n]), Group(sub[..n], area, year), sub[n];
    GroupSnoc(sub, area, year);
    assert Tallies(sub) == AddRow(t0, r);
    if r.area == area && r.year == year {
      SumValuesSnoc(g0, r);
      if (area, year) in t0 {
        TalliesAreGroupTotals(sub[..n], area, year);
      } else {
        TalliedIffGrouped(sub[..n], area, year);
        assert g0 == [];
        SumValuesSnoc([], r);
      }
    } else {
      TalliesAreGroupTotals(sub[..n], area, year);
    }
  }

  /** Each cell is the arithmetic mean of Value over the subset's rows of that
      Area and Year, and exactly 0 where the two never occur together. */
  lemma PivotCellIsMean(sub: seq<Row>, area: string, year: int)
    requires area in PivotOf(sub).areas && year in PivotOf(sub).years
    ensures (area, year) in PivotOf(sub).cells
    ensures PivotOf(sub).cells[(area, year)] ==
              if Group(sub, area, year) == [] then 0.0 else Mean(Group(sub, area, year))
  {
    var t := Tallies(sub);
    assert (area, year) in PivotOf(sub).cells && PivotOf(sub).cells[(area, year)] == Cell(t, area, year);
    TalliedIffGrouped(sub, area, year);
    if (area, year) in t {
      TalliesAreGroupTotals(sub, area, year);
      assert Cell(t, area, year) == Mean(Group(sub, area, year));
    }
  }

  /** Row labels are the subset's distinct areas and column labels its
      distinct years, both strictly ascending; every label pair has a cell. */
  lemma PivotShape(sub: seq<Row>)
    ensures var p := PivotOf(sub);
      && StrictlySortedBy(p.areas, StrLess)
      && StrictlySortedBy(p.years, IntLess)
      && (forall a :: a in p.areas <==> exists i :: 0 <= i < |sub| && sub[i].area == a)
      && (forall y :: y in p.years <==> exists i :: 0 <= i < |sub| && sub[i].year == y)
      && (forall k :: k in p.cells <==> k.0 in p.areas && k.1 in p.years)
  {
  }

  /** On a table whose Year column was derived from Date (as
      `Frame.AddCalendarColumns` guarantees), the pivot's columns are exactly
      the calendar years of the filtered rows' dates. */
  lemma PivotYearsAreDateYears(df: seq<Row>, selection: seq<string>)
    requires forall i :: 0 <= i < |df| ==> df[i].year == df[i].date.year
    ensures var sub := Filter(df, selection);
      forall y :: y in PivotOf(sub).years <==> exists i :: 0 <= i < |sub| && sub[i].date.year == y
  {
    var sub := Filter(df, selection);
    forall i | 0 <= i < |sub| ensures sub[i].year == sub[i].date.year {
      assert sub[i] in df;
    }
  }

  /** The pivot is empty exactly when the subset it comes from is. */
  lemma PivotEmptyIff(sub: seq<Row>)
    ensures PivotEmpty(PivotOf(sub)) <==> sub == []
  {
  }

  /** Bounds on every value bound the sum. */
  lemma {:induction false} SumValuesWithin(rows: seq<Row>, lo: real, hi: real)
    requires forall i :: 0 <= i < |rows| ==> lo <= rows[i].value <= hi
    ensures (|rows| as real) * lo <= SumValues(rows) <= (|rows| as real) * hi
  {
    if rows != [] {
      SumValuesWithin(rows[..|rows| - 1], lo, hi);
    }
  }

  /** A mean lies between the least and the greatest value averaged. */
  lemma MeanWithin(rows: seq<Row>, lo: real, hi: real)
    requires rows != []
    requires forall i :: 0 <= i < |rows| ==> lo <= rows[i].value <= hi
    ensures lo <= Mean(rows) <= hi
  {
    SumValuesWithin(rows, lo, hi);
    var n := |rows| as real;
    assert Mean(rows) * n == SumValues(rows);
  }

  // ---------------------------------------------------------------------
  // Every filtered row is drawn exactly once

  /** All points of the given series, counted with multiplicity. */
  ghost function AllPoints(series: seq<Series>): multiset<Row>
  {
    if series == [] then multiset{} else AllPoints(series[..|series| - 1]) + multiset(series[|series| - 1].points)
  }

  /** Listing one more country adds exactly that country's rows. */
  lemma GatherStep(sub: seq<Row>, areas: seq<string>)
    requires areas != [] && areas[|areas| - 1] !in areas[..|areas| - 1]
    ensures var n := |areas| - 1;
      multiset(Keep(sub, (r: Row) => r.area in areas))
      == multiset(Keep(sub, (r: Row) => r.area in areas[..n])) + multiset(AreaRows(sub, areas[n]))
  {
  }

  /** The rows of the listed countries, gathered country by country. */
  ghost function Gathered(sub: seq<Row>, areas: seq<string>): multiset<Row>
  {
    if areas == [] then multiset{}
    else Gathered(sub, areas[..|areas| - 1]) + multiset(AreaRows(sub, areas[|areas| - 1]))
  }

  /** Gathering distinct countries one by one yields the rows whose country is listed. */
  lemma {:induction false} GatheredIsKept(sub: seq<Row>, areas: seq<string>)
    requires NoDups(areas)
    ensures Gathered(sub, areas) == multiset(Keep(sub, (r: Row) => r.area in areas))
  {
    if areas != [] {
      var n := |areas| - 1;
      assert NoDups(areas[..n]);
      GatheredIsKept(sub, areas[..n]);
      GatherStep(sub, areas);
    }
  }

  /** Series whose points match the listed countries' rows hold the gathered rows. */
  lemma {:induction false} AllPointsGathered(sub: seq<Row>, areas: seq<string>, series: seq<Series>)
    requires |series| == |areas|
    requires forall i :: 0 <= i < |series| ==> multiset(series[i].points) == multiset(AreaRows(sub, areas[i]))
    ensures AllPoints(series) == Gathered(sub, areas)
  {
    if areas != [] {
      var n := |areas| - 1;
      AllPointsGathered(sub, areas[..n], series[..n]);
    }
  }

  /** Across the series of `LineSeries`, every row of the subset is drawn
      exactly once: no row is lost to the per-country split and none is duplicated. */
  lemma SeriesCoverSubset(sub: seq<Row>, series: seq<Series>)
    requires |series| == |Unique(Areas(sub))|
    requires forall i :: 0 <= i < |series| ==> IsSeriesOf(sub, Unique(Areas(sub))[i], series[i])
    ensures AllPoints(series) == multiset(sub)
  {
    var areas := Unique(Areas(sub));
    assert forall i :: 0 <= i < |sub| ==> Areas(sub)[i] == sub[i].area && sub[i].area in areas;
    KeepEverything(sub, (r: Row) => r.area in areas);
    GatheredIsKept(sub, areas);
    AllPointsGathered(sub, areas, series);
  }

  // ---------------------------------------------------------------------
  // The callback

  /** The line figure: a placeholder title, or the titled series. */
  datatype LineFigure = LinePlaceholder(title: string) | LineChart(title: string, series: seq<Series>)

  /** The heatmap figure: a placeholder title, or the titled pivot. */
  datatype HeatmapFigure = HeatmapPlaceholder(title: string) | HeatmapChart(title: string, pivot: Pivot)

  /** `update_charts`: both figures for a selection. The line and heatmap
      filters are the same mask, so the two placeholders appear together,
      exactly when no row of the metric belongs to a selected country. */
  method UpdateCharts(df: seq<Row>, selected: seq<string>) returns (line: LineFigure, heatmap: HeatmapFigure)
    ensures line.LinePlaceholder? <==> Filter(df, selected) == []
    ensures heatmap.HeatmapPlaceholder? <==> line.LinePlaceholder?
    ensures line.title == if line.LinePlaceholder? then LinePrompt else LineTitle
    ensures heatmap.title == if heatmap.HeatmapPlaceholder? then HeatmapPrompt else HeatmapTitle
    ensures line.LineChart? ==>
              var areas := Unique(Areas(Filter(df, selected)));
              && |line.series| == |areas|
              && forall i :: 0 <= i < |areas| ==> IsSeriesOf(Filter(df, selected), areas[i], line.series[i])
    ensures heatmap.HeatmapChart? ==> heatmap.pivot == PivotOf(Filter(df, selected))
  {
    var dffLine := Filter(df, selected);
    if dffLine == [] {
      line := LinePlaceholder(LinePrompt);
    } else {
      var series := LineSeries(dffLine);
      line := LineChart(LineTitle, series);
    }
    var dffHeatmap := Filter(df, selected);
    var pivot := PivotOf(dffHeatmap);
    PivotEmptyIff(dffHeatmap);
    if PivotEmpty(pivot) {
      heatmap := HeatmapPlaceholder(HeatmapPrompt);
    } else {
      heatmap := HeatmapChart(HeatmapTitle, pivot);
    }
  }
}
