/**
  The category views: the seasonal pattern per week of the year, the
  district comparison (top 30), the disease pie (top 10 plus "Other"), the
  seasonality-versus-trend scatter per district, and the trend box plot per
  disease. Each accumulates the filtered rows into a plain object keyed by a
  category and reads it back in key order.
*/
module CategoryViews {
  import opened Wrappers
  import opened Seqs
  import opened Sorting
  import opened Grouping
  import opened Records

  function SeasonalityOf(r: Record): Option<real>
  {
    r.seasonalityIndex
  }

  function TrendOf(r: Record): Option<real>
  {
    r.casesTrend4w
  }

  // ---------------------------------------------------------------------
  // Seasonal pattern
  // ---------------------------------------------------------------------

  /** One week of the year: mean cases per row and mean defined seasonality index (`null` if none). */
  datatype SeasonalPoint = SeasonalPoint(week: int, avgCases: real, avgSeasonality: Option<real>)

  /** `if (!week) return;`: rows of week 0 are skipped. */
  predicate HasWeek(r: Record)
  {
    r.week != 0
  }

  function WeekOf(r: Record): int
  {
    r.week
  }

  /** The rows of one week of the year, over all years, in their original order. */
  function RowsOfWeek(rows: seq<Record>, w: int): seq<Record>
  {
    Filter(rows, KeyIs(WeekOf, w))
  }

  function SeasonalPointOf(g: Group<int, Record>): SeasonalPoint
  {
    SeasonalPoint(g.key, MeanOf(Total(g.members, Cases), |g.members|), Average(Defined(g.members, SeasonalityOf)))
  }

  function PointWeek(p: SeasonalPoint): int
  {
    p.week
  }

  /** The comparator `(a, b) => a - b` on week numbers is negative. */
  predicate Earlier(a: int, b: int)
  {
    a < b
  }

  lemma EarlierIsStrictTotalOrder()
    ensures StrictTotalOrder(Earlier)
  {
  }

  /** Accumulate per week, then list the weeks in ascending numeric order. */
  function Seasonal(rows: seq<Record>): seq<SeasonalPoint>
  {
    SortBy(MapGroups(GroupBy(Filter(rows, HasWeek), WeekOf), SeasonalPointOf), PointWeek, Earlier)
  }

  predicate ShowsWeek(points: seq<SeasonalPoint>, w: int)
  {
    exists i :: 0 <= i < |points| && points[i].week == w
  }

  predicate HasRowOfWeek(rows: seq<Record>, w: int)
  {
    exists j :: 0 <= j < |rows| && rows[j].week == w
  }

  lemma WeekDecidesKeep()
    ensures KeyDecides(HasWeek, WeekOf)
  {
  }

  /**
    Every point of the seasonal chart is for a non-zero week with rows, and
    its values are the averages over all rows of that week: the mean of the
    cases (missing as zero) per row, and the mean of the defined seasonality
    indices, absent exactly when none of those rows has one.
  */
  lemma SeasonalEntries(rows: seq<Record>, i: nat)
    requires i < |Seasonal(rows)|
    ensures Seasonal(rows)[i].week != 0
    ensures |RowsOfWeek(rows, Seasonal(rows)[i].week)| > 0
    ensures Seasonal(rows)[i].avgCases ==
      MeanOf(Total(RowsOfWeek(rows, Seasonal(rows)[i].week), Cases), |RowsOfWeek(rows, Seasonal(rows)[i].week)|)
    ensures Seasonal(rows)[i].avgSeasonality == Average(Defined(RowsOfWeek(rows, Seasonal(rows)[i].week), SeasonalityOf))
    ensures Seasonal(rows)[i].avgSeasonality.None? <==> !AnyDefined(RowsOfWeek(rows, Seasonal(rows)[i].week), SeasonalityOf)
  {
    var groups := GroupBy(Filter(rows, HasWeek), WeekOf);
    var points := MapGroups(groups, SeasonalPointOf);
    SortByPermutes(points, PointWeek, Earlier);
    var p := Seasonal(rows)[i];
    assert p in multiset(points);
    var k :| 0 <= k < |points| && points[k] == p;
    WeekDecidesKeep();
    GroupByKept(rows, HasWeek, WeekOf, k);
    assert p == SeasonalPointOf(groups[k]);
    var j :| 0 <= j < |rows| && HasWeek(rows[j]) && WeekOf(rows[j]) == groups[k].key;
    assert p.week != 0;
    assert groups[k].members == RowsOfWeek(rows, p.week);
  }

  /** The seasonal chart lists weeks in strictly ascending order. */
  lemma SeasonalAscending(rows: seq<Record>)
    ensures forall i, j :: 0 <= i < j < |Seasonal(rows)| ==> Seasonal(rows)[i].week < Seasonal(rows)[j].week
  {
    var groups := GroupBy(Filter(rows, HasWeek), WeekOf);
    var points := MapGroups(groups, SeasonalPointOf);
    GroupByExact(Filter(rows, HasWeek), WeekOf);
    assert DistinctBy(points, PointWeek) by {
      assert forall i :: 0 <= i < |points| ==> PointWeek(points[i]) == groups[i].key;
    }
    EarlierIsStrictTotalOrder();
    SortByDistinctAscending(points, PointWeek, Earlier);
  }

  lemma SeasonalShowsOnlyRowWeeks(rows: seq<Record>, w: int)
    requires ShowsWeek(Seasonal(rows), w)
    ensures w != 0 && HasRowOfWeek(rows, w)
  {
    var shown := Seasonal(rows);
    var i :| 0 <= i < |shown| && shown[i].week == w;
    SeasonalEntries(rows, i);
    var m := RowsOfWeek(rows, w)[0];
    FilterMembership(rows, KeyIs(WeekOf, w));
    assert m in RowsOfWeek(rows, w);
    var j :| 0 <= j < |rows| && rows[j] == m;
  }

  lemma SeasonalShowsEveryRowWeek(rows: seq<Record>, w: int)
    requires w != 0 && HasRowOfWeek(rows, w)
    ensures ShowsWeek(Seasonal(rows), w)
  {
    var groups := GroupBy(Filter(rows, HasWeek), WeekOf);
    var points := MapGroups(groups, SeasonalPointOf);
    var shown := Seasonal(rows);
    SortByPermutes(points, PointWeek, Earlier);
    var j :| 0 <= j < |rows| && rows[j].week == w;
    GroupByKeptCovers(rows, HasWeek, WeekOf, j);
    assert WeekOf(rows[j]) == w;
    var k :| 0 <= k < |groups| && groups[k].key == w;
    assert points[k] == SeasonalPointOf(groups[k]);
    assert points[k] in multiset(shown);
    var i :| 0 <= i < |shown| && shown[i] == points[k];
  }

  /** The seasonal chart lists a week exactly when it is non-zero and some row falls in it. */
  lemma SeasonalWeeks(rows: seq<Record>)
    ensures forall w :: ShowsWeek(Seasonal(rows), w) <==> w != 0 && HasRowOfWeek(rows, w)
  {
    forall w
      ensures ShowsWeek(Seasonal(rows), w) <==> w != 0 && HasRowOfWeek(rows, w)
    {
      if ShowsWeek(Seasonal(rows), w) {
        SeasonalShowsOnlyRowWeeks(rows, w);
      }
      if w != 0 && HasRowOfWeek(rows, w) {
        SeasonalShowsEveryRowWeek(rows, w);
      }
    }
  }

  // ---------------------------------------------------------------------
  // District comparison
  // ---------------------------------------------------------------------

  /** One bar: a district and the selected measure over its rows. */
  datatype DistrictBar = DistrictBar(district: string, value: real)

  /** `plotData.slice(0, 30)`. */
  const DistrictBars: nat := 30

  /** `if (!district) return;`: rows without a district are skipped. */
  predicate HasDistrict(r: Record)
  {
    Present(r.district)
  }

  /** The rows of one district, in their original order. */
  function RowsOfDistrict(rows: seq<Record>, d: string): seq<Record>
  {
    Filter(rows, KeyIs(DistrictKey, d))
  }

  predicate HasRowOfDistrict(rows: seq<Record>, d: string)
  {
    exists j :: 0 <= j < |rows| && rows[j].district == Some(d)
  }

  lemma DistrictDecidesKeep()
    ensures KeyDecides(HasDistrict, DistrictKey)
  {
  }

  function DistrictGroups(rows: seq<Record>): seq<Group<string, Record>>
  {
    GroupBy(Filter(rows, HasDistrict), DistrictKey)
  }

  function DistrictBarOf(m: Measure): Group<string, Record> -> DistrictBar
  {
    (g: Group<string, Record>) => DistrictBar(g.key, MetricOver(g.members, m))
  }

  function BarValue(b: DistrictBar): real
  {
    b.value
  }

  function BarDistrict(b: DistrictBar): string
  {
    b.district
  }

  /** Accumulate per district, rank the districts by descending value, keep the first 30. */
  function DistrictComparison(rows: seq<Record>, m: Measure): seq<DistrictBar>
  {
    TopBy(MapGroups(DistrictGroups(rows), DistrictBarOf(m)), BarValue, DistrictBars)
  }

  predicate ShowsDistrict(bars: seq<DistrictBar>, d: string)
  {
    exists i :: 0 <= i < |bars| && bars[i].district == d
  }

  /** Bars from one group each: the bar of group `k` says group `k`'s district and value. */
  lemma DistrictBarAt(rows: seq<Record>, m: Measure, b: DistrictBar)
    requires b in MapGroups(DistrictGroups(rows), DistrictBarOf(m))
    ensures b.district != "" && HasRowOfDistrict(rows, b.district)
    ensures |RowsOfDistrict(rows, b.district)| > 0
    ensures b.value == MetricOver(RowsOfDistrict(rows, b.district), m)
  {
    var groups := DistrictGroups(rows);
    var k :| 0 <= k < |groups| && MapGroups(groups, DistrictBarOf(m))[k] == b;
    DistrictDecidesKeep();
    GroupByKept(rows, HasDistrict, DistrictKey, k);
    var j :| 0 <= j < |rows| && HasDistrict(rows[j]) && DistrictKey(rows[j]) == groups[k].key;
    assert rows[j].district == Some(b.district);
  }

  /**
    Each bar of the district comparison is for a district some row names,
    and its value is the selected measure over all rows of that district:
    the sum for cases, bed days and ICU, the per-row mean for the moving
    average and the trend.
  */
  lemma DistrictComparisonBars(rows: seq<Record>, m: Measure, i: nat)
    requires i < |DistrictComparison(rows, m)|
    ensures DistrictComparison(rows, m)[i].district != ""
    ensures HasRowOfDistrict(rows, DistrictComparison(rows, m)[i].district)
    ensures DistrictComparison(rows, m)[i].value ==
      MetricOver(RowsOfDistrict(rows, DistrictComparison(rows, m)[i].district), m)
  {
    var bars := MapGroups(DistrictGroups(rows), DistrictBarOf(m));
    TopBySplits(bars, BarValue, DistrictBars);
    var b := DistrictComparison(rows, m)[i];
    assert b in multiset(DistrictComparison(rows, m));
    assert b in multiset(bars);
    DistrictBarAt(rows, m, b);
  }

  /** At most 30 bars, in descending order of value, one per district. */
  lemma DistrictComparisonShape(rows: seq<Record>, m: Measure)
    ensures |DistrictComparison(rows, m)| <= DistrictBars
    ensures forall i, j :: 0 <= i < j < |DistrictComparison(rows, m)| ==>
      DistrictComparison(rows, m)[i].value >= DistrictComparison(rows, m)[j].value
    ensures DistinctBy(DistrictComparison(rows, m), BarDistrict)
  {
    var groups := DistrictGroups(rows);
    var bars := MapGroups(groups, DistrictBarOf(m));
    GroupByExact(Filter(rows, HasDistrict), DistrictKey);
    assert DistinctBy(bars, BarDistrict) by {
      assert forall i :: 0 <= i < |bars| ==> BarDistrict(bars[i]) == groups[i].key;
    }
    var sorted := SortBy(bars, BarValue, Greater);
    SortByPermutes(bars, BarValue, Greater);
    DistinctByPermutation(bars, sorted, BarDistrict);
    var top := DistrictComparison(rows, m);
    assert top == sorted[..|top|];
    assert forall i :: 0 <= i < |top| ==> top[i] == sorted[i];
  }

  /** A district some row names has a bar among the unranked bars, carrying its value over all its rows. */
  lemma DistrictBarFor(rows: seq<Record>, m: Measure, d: string)
    requires d != "" && HasRowOfDistrict(rows, d)
    ensures DistrictBar(d, MetricOver(RowsOfDistrict(rows, d), m)) in MapGroups(DistrictGroups(rows), DistrictBarOf(m))
  {
    var groups := DistrictGroups(rows);
    var bars := MapGroups(groups, DistrictBarOf(m));
    var j :| 0 <= j < |rows| && rows[j].district == Some(d);
    assert DistrictKey(rows[j]) == d;
    GroupByKeptCovers(rows, HasDistrict, DistrictKey, j);
    var k :| 0 <= k < |groups| && groups[k].key == d;
    DistrictDecidesKeep();
    GroupByKept(rows, HasDistrict, DistrictKey, k);
    assert bars[k] == DistrictBar(d, MetricOver(RowsOfDistrict(rows, d), m));
  }

  /**
    A district with rows that has no bar was ranked out: all 30 bars are
    shown and each is at least that district's value.
  */
  lemma DistrictComparisonRanking(rows: seq<Record>, m: Measure, d: string)
    requires d != "" && HasRowOfDistrict(rows, d)
    requires !ShowsDistrict(DistrictComparison(rows, m), d)
    ensures |DistrictComparison(rows, m)| == DistrictBars
    ensures forall i :: 0 <= i < |DistrictComparison(rows, m)| ==>
      DistrictComparison(rows, m)[i].value >= MetricOver(RowsOfDistrict(rows, d), m)
  {
    var bars := MapGroups(DistrictGroups(rows), DistrictBarOf(m));
    var top := DistrictComparison(rows, m);
    var dropped := DroppedBy(bars, BarValue, DistrictBars);
    TopBySplits(bars, BarValue, DistrictBars);
    var b := DistrictBar(d, MetricOver(RowsOfDistrict(rows, d), m));
    DistrictBarFor(rows, m, d);
    assert b in multiset(bars);
    assert forall i :: 0 <= i < |top| ==> top[i].district != d;
    assert b !in top;
    assert multiset(top)[b] == 0;
    assert multiset(dropped)[b] > 0;
    assert b in dropped;
    assert |bars| > DistrictBars;
    forall i | 0 <= i < |top|
      ensures top[i].value >= b.value
    {
      assert top[i] in top;
      assert BarValue(top[i]) >= BarValue(b);
    }
  }

  /** With at most 30 districts, every district some row names has a bar. */
  lemma DistrictComparisonComplete(rows: seq<Record>, m: Measure, d: string)
    requires |DistrictGroups(rows)| <= DistrictBars
    requires d != "" && HasRowOfDistrict(rows, d)
    ensures ShowsDistrict(DistrictComparison(rows, m), d)
  {
    var bars := MapGroups(DistrictGroups(rows), DistrictBarOf(m));
    var top := DistrictComparison(rows, m);
    TopBySplits(bars, BarValue, DistrictBars);
    var b := DistrictBar(d, MetricOver(RowsOfDistrict(rows, d), m));
    DistrictBarFor(rows, m, d);
    assert b in multiset(bars);
    assert b in multiset(top);
    var i :| 0 <= i < |top| && top[i] == b;
  }

  // ---------------------------------------------------------------------
  // Disease pie
  // ---------------------------------------------------------------------

  /** One slice: a disease label (or "Other") and its total cases. */
  datatype Slice = Slice(name: string, value: real)

  /** `const topN = 10`. */
  const PieSlices: nat := 10

  function SliceOf(g: Group<string, Record>): Slice
  {
    Slice(g.key, Total(g.members, Cases))
  }

  function SliceValue(s: Slice): real
  {
    s.value
  }

  /** The rows of one disease name, in their original order. */
  function RowsOfDisease(rows: seq<Record>, name: string): seq<Record>
  {
    Filter(rows, KeyIs(DiseaseLabel, name))
  }

  /** Total cases per disease name, in first-appearance order. */
  function DiseaseSlices(rows: seq<Record>): seq<Slice>
  {
    MapGroups(GroupBy(rows, DiseaseLabel), SliceOf)
  }

  /**
    The ten largest diseases by total cases, in descending order; with more
    than ten diseases, the rest summed into one "Other" slice, shown only
    when that sum is positive.
  */
  function DiseasePie(rows: seq<Record>): seq<Slice>
  {
    var slices := DiseaseSlices(rows);
    var top := TopBy(slices, SliceValue, PieSlices);
    if |slices| > PieSlices then
      var other := SumOf(DroppedBy(slices, SliceValue, PieSlices), SliceValue);
      if other > 0.0 then top + [Slice("Other", other)] else top
    else top
  }

  /** A slice computed from a disease group is that name's total over all its rows. */
  lemma DiseaseSliceAt(rows: seq<Record>, s: Slice)
    requires s in DiseaseSlices(rows)
    ensures |RowsOfDisease(rows, s.name)| > 0
    ensures s.value == Total(RowsOfDisease(rows, s.name), Cases)
  {
    var groups := GroupBy(rows, DiseaseLabel);
    var k :| 0 <= k < |DiseaseSlices(rows)| && DiseaseSlices(rows)[k] == s;
    assert s == SliceOf(groups[k]);
    GroupMembers(rows, DiseaseLabel, k);
  }

  /**
    The pie has at most eleven slices. The first (up to ten) are disease
    labels in descending order of total cases, each the total over all rows
    of that name; an eleventh slice exists exactly when there are more than
    ten labels and the rest sum to a positive amount, and it is "Other"
    holding that sum.
  */
  lemma DiseasePieShape(rows: seq<Record>)
    ensures |DiseasePie(rows)| <= PieSlices + 1
    ensures |DiseasePie(rows)| == MinNat(PieSlices, |DiseaseSlices(rows)|) ||
      |DiseasePie(rows)| == PieSlices + 1
    ensures forall i, j :: 0 <= i < j < |DiseasePie(rows)| && j < PieSlices ==>
      DiseasePie(rows)[i].value >= DiseasePie(rows)[j].value
    ensures forall i :: 0 <= i < |DiseasePie(rows)| && i < PieSlices ==>
      |RowsOfDisease(rows, DiseasePie(rows)[i].name)| > 0 &&
      DiseasePie(rows)[i].value == Total(RowsOfDisease(rows, DiseasePie(rows)[i].name), Cases)
    ensures |DiseasePie(rows)| > PieSlices <==>
      |DiseaseSlices(rows)| > PieSlices && SumOf(DroppedBy(DiseaseSlices(rows), SliceValue, PieSlices), SliceValue) > 0.0
    ensures |DiseasePie(rows)| > PieSlices ==>
      DiseasePie(rows)[PieSlices] == Slice("Other", SumOf(DroppedBy(DiseaseSlices(rows), SliceValue, PieSlices), SliceValue))
  {
    var slices := DiseaseSlices(rows);
    var top := TopBy(slices, SliceValue, PieSlices);
    var pie := DiseasePie(rows);
    TopSlices(rows);
    assert |top| == MinNat(PieSlices, |slices|);
    assert pie == top || pie == top + [Slice("Other", SumOf(DroppedBy(slices, SliceValue, PieSlices), SliceValue))];
    assert forall i :: 0 <= i < |top| ==> pie[i] == top[i];
  }

  /** The (up to ten) largest slices, in descending order, each a name's total over all its rows. */
  lemma TopSlices(rows: seq<Record>)
    ensures |TopBy(DiseaseSlices(rows), SliceValue, PieSlices)| == MinNat(PieSlices, |DiseaseSlices(rows)|)
    ensures forall i, j :: 0 <= i < j < |TopBy(DiseaseSlices(rows), SliceValue, PieSlices)| ==>
      TopBy(DiseaseSlices(rows), SliceValue, PieSlices)[i].value >= TopBy(DiseaseSlices(rows), SliceValue, PieSlices)[j].value
    ensures forall i :: 0 <= i < |TopBy(DiseaseSlices(rows), SliceValue, PieSlices)| ==>
      |RowsOfDisease(rows, TopBy(DiseaseSlices(rows), SliceValue, PieSlices)[i].name)| > 0 &&
      TopBy(DiseaseSlices(rows), SliceValue, PieSlices)[i].value ==
        Total(RowsOfDisease(rows, TopBy(DiseaseSlices(rows), SliceValue, PieSlices)[i].name), Cases)
  {
    var slices := DiseaseSlices(rows);
    var top := TopBy(slices, SliceValue, PieSlices);
    TopBySplits(slices, SliceValue, PieSlices);
    forall i | 0 <= i < |top|
      ensures |RowsOfDisease(rows, top[i].name)| > 0 && top[i].value == Total(RowsOfDisease(rows, top[i].name), Cases)
    {
      assert top[i] in multiset(top);
      assert top[i] in multiset(slices);
      DiseaseSliceAt(rows, top[i]);
    }
  }

  /** Every name's slice total is non-negative when every row's cases are. */
  lemma SlicesNonNegative(rows: seq<Record>)
    requires forall j :: 0 <= j < |rows| ==> Value(rows[j], Cases) >= 0.0
    ensures forall s :: s in DiseaseSlices(rows) ==> s.value >= 0.0
  {
    forall s | s in DiseaseSlices(rows)
      ensures s.value >= 0.0
    {
      DiseaseSliceAt(rows, s);
      var members := RowsOfDisease(rows, s.name);
      FilterMembership(rows, KeyIs(DiseaseLabel, s.name));
      forall r | r in members
        ensures ValueOf(Cases)(r) >= 0.0
      {
        var j :| 0 <= j < |rows| && rows[j] == r;
      }
      SumOfNonNegative(members, ValueOf(Cases));
    }
  }

  lemma {:induction false} SlicesSum(gs: seq<Group<string, Record>>)
    ensures SumOf(MapGroups(gs, SliceOf), SliceValue) == GroupedSum(gs, ValueOf(Cases))
  {
    if |gs| > 0 {
      SlicesSum(gs[1..]);
      assert MapGroups(gs, SliceOf)[1..] == MapGroups(gs[1..], SliceOf);
    }
  }

  /** The per-label totals account for every row's cases. */
  lemma DiseaseSlicesTotal(rows: seq<Record>)
    ensures SumOf(DiseaseSlices(rows), SliceValue) == Total(rows, Cases)
  {
    SlicesSum(GroupBy(rows, DiseaseLabel));
    GroupByConservesSum(rows, DiseaseLabel, ValueOf(Cases));
  }

  /** What the pie folds into "Other" is never negative when no row's cases are. */
  lemma OtherNonNegative(rows: seq<Record>)
    requires forall j :: 0 <= j < |rows| ==> Value(rows[j], Cases) >= 0.0
    ensures SumOf(DroppedBy(DiseaseSlices(rows), SliceValue, PieSlices), SliceValue) >= 0.0
  {
    var slices := DiseaseSlices(rows);
    var dropped := DroppedBy(slices, SliceValue, PieSlices);
    TopBySplits(slices, SliceValue, PieSlices);
    SlicesNonNegative(rows);
    forall s | s in dropped
      ensures SliceValue(s) >= 0.0
    {
      assert s in multiset(dropped);
      assert s in multiset(slices);
      assert s in slices;
    }
    SumOfNonNegative(dropped, SliceValue);
  }

  /**
    With non-negative case counts the pie accounts for every case: the
    slices sum to the total cases of the rows, whether or not "Other" is shown.
  */
  lemma DiseasePieConservesCases(rows: seq<Record>)
    requires forall j :: 0 <= j < |rows| ==> Value(rows[j], Cases) >= 0.0
    ensures SumOf(DiseasePie(rows), SliceValue) == Total(rows, Cases)
  {
    var slices := DiseaseSlices(rows);
    var top := TopBy(slices, SliceValue, PieSlices);
    var dropped := DroppedBy(slices, SliceValue, PieSlices);
    DiseaseSlicesTotal(rows);
    TopByDroppedSum(slices, SliceValue, PieSlices, SliceValue);
    TopBySplits(slices, SliceValue, PieSlices);
    OtherNonNegative(rows);
    var other := SumOf(dropped, SliceValue);
    if |slices| > PieSlices && other > 0.0 {
      SumOfAppend(top, [Slice("Other", other)], SliceValue);
    }
  }

  // ---------------------------------------------------------------------
  // Seasonality against trend, per district
  // ---------------------------------------------------------------------

  /** One scatter point: a district's mean seasonality index and mean 4-week trend. */
  datatype CorrelationPoint = CorrelationPoint(district: string, avgSeasonality: real, avgTrend: real)

  /** A point only when the district has at least one defined value of each. */
  function CorrelationOf(g: Group<string, Record>): Option<CorrelationPoint>
  {
    var s := Average(Defined(g.members, SeasonalityOf));
    var t := Average(Defined(g.members, TrendOf));
    if s.Some? && t.Some? then Some(CorrelationPoint(g.key, s.value, t.value)) else None
  }

  function Correlation(rows: seq<Record>): seq<CorrelationPoint>
  {
    Somes(MapGroups(DistrictGroups(rows), CorrelationOf))
  }

  predicate HasPointFor(points: seq<CorrelationPoint>, d: string)
  {
    exists i :: 0 <= i < |points| && points[i].district == d
  }

  /**
    Each scatter point is for a district some row names, and its coordinates
    are the means of the defined seasonality indices and of the defined
    trends over all rows of that district.
  */
  lemma CorrelationPoints(rows: seq<Record>, i: nat)
    requires i < |Correlation(rows)|
    ensures Correlation(rows)[i].district != ""
    ensures HasRowOfDistrict(rows, Correlation(rows)[i].district)
    ensures Average(Defined(RowsOfDistrict(rows, Correlation(rows)[i].district), SeasonalityOf)) ==
      Some(Correlation(rows)[i].avgSeasonality)
    ensures Average(Defined(RowsOfDistrict(rows, Correlation(rows)[i].district), TrendOf)) ==
      Some(Correlation(rows)[i].avgTrend)
  {
    var groups := DistrictGroups(rows);
    var options := MapGroups(groups, CorrelationOf);
    var p := Correlation(rows)[i];
    var k :| 0 <= k < |options| && options[k] == Some(p);
    DistrictDecidesKeep();
    GroupByKept(rows, HasDistrict, DistrictKey, k);
    var j :| 0 <= j < |rows| && HasDistrict(rows[j]) && DistrictKey(rows[j]) == groups[k].key;
    assert rows[j].district == Some(p.district);
  }

  /** A district whose rows define both a seasonality index and a trend gets a point. */
  lemma CorrelationCovers(rows: seq<Record>, d: string)
    requires d != "" && HasRowOfDistrict(rows, d)
    requires AnyDefined(RowsOfDistrict(rows, d), SeasonalityOf) && AnyDefined(RowsOfDistrict(rows, d), TrendOf)
    ensures HasPointFor(Correlation(rows), d)
  {
    var groups := DistrictGroups(rows);
    var options := MapGroups(groups, CorrelationOf);
    var j :| 0 <= j < |rows| && rows[j].district == Some(d);
    assert DistrictKey(rows[j]) == d;
    GroupByKeptCovers(rows, HasDistrict, DistrictKey, j);
    var k :| 0 <= k < |groups| && groups[k].key == d;
    DistrictDecidesKeep();
    GroupByKept(rows, HasDistrict, DistrictKey, k);
    assert groups[k].members == RowsOfDistrict(rows, d);
    assert |Defined(groups[k].members, SeasonalityOf)| > 0 && |Defined(groups[k].members, TrendOf)| > 0;
    assert options[k] == CorrelationOf(groups[k]);
    assert options[k].Some?;
    var points := Correlation(rows);
    assert options[k].value in points;
    var i :| 0 <= i < |points| && points[i] == options[k].value;
  }

  // ---------------------------------------------------------------------
  // Trend distribution per disease
  // ---------------------------------------------------------------------

  /** One box: a disease name and its defined 4-week trends in row order. */
  datatype TrendBox = TrendBox(disease: string, values: seq<real>)

  /** A box only for a name with at least one defined trend. */
  function TrendBoxOf(g: Group<string, Record>): Option<TrendBox>
  {
    var values := Defined(g.members, TrendOf);
    if |values| > 0 then Some(TrendBox(g.key, values)) else None
  }

  function TrendBoxes(rows: seq<Record>): seq<TrendBox>
  {
    Somes(MapGroups(GroupBy(rows, DiseaseLabel), TrendBoxOf))
  }

  predicate HasBoxFor(boxes: seq<TrendBox>, name: string)
  {
    exists i :: 0 <= i < |boxes| && boxes[i].disease == name
  }

  /** Each box holds exactly the defined trends of all rows of its name, in row order, and is never empty. */
  lemma TrendBoxEntries(rows: seq<Record>, i: nat)
    requires i < |TrendBoxes(rows)|
    ensures TrendBoxes(rows)[i].values == Defined(RowsOfDisease(rows, TrendBoxes(rows)[i].disease), TrendOf)
    ensures |TrendBoxes(rows)[i].values| > 0
  {
    var groups := GroupBy(rows, DiseaseLabel);
    var options := MapGroups(groups, TrendBoxOf);
    var b := TrendBoxes(rows)[i];
    assert Some(b) in options;
    var k :| 0 <= k < |options| && options[k] == Some(b);
    assert options[k] == TrendBoxOf(groups[k]);
    GroupMembers(rows, DiseaseLabel, k);
  }

  /** A label one of whose rows defines a trend gets a box. */
  lemma TrendBoxFor(rows: seq<Record>, name: string)
    requires AnyDefined(RowsOfDisease(rows, name), TrendOf)
    ensures HasBoxFor(TrendBoxes(rows), name)
  {
    var groups := GroupBy(rows, DiseaseLabel);
    var options := MapGroups(groups, TrendBoxOf);
    var boxes := TrendBoxes(rows);
    var members := RowsOfDisease(rows, name);
    var j :| 0 <= j < |members| && TrendOf(members[j]).Some?;
    FilterMembership(rows, KeyIs(DiseaseLabel, name));
    assert members[j] in members;
    var jj :| 0 <= jj < |rows| && rows[jj] == members[j];
    GroupByExact(rows, DiseaseLabel);
    assert HasKey(groups, name);
    var k :| 0 <= k < |groups| && groups[k].key == name;
    GroupMembers(rows, DiseaseLabel, k);
    assert options[k] == TrendBoxOf(groups[k]);
    assert options[k].Some?;
    assert options[k].value in boxes;
    var i :| 0 <= i < |boxes| && boxes[i] == options[k].value;
  }

  /** A label gets a box exactly when one of its rows defines a trend. */
  lemma TrendBoxCoverage(rows: seq<Record>, name: string)
    ensures HasBoxFor(TrendBoxes(rows), name) <==> AnyDefined(RowsOfDisease(rows, name), TrendOf)
  {
    var boxes := TrendBoxes(rows);
    if HasBoxFor(boxes, name) {
      var i :| 0 <= i < |boxes| && boxes[i].disease == name;
      TrendBoxEntries(rows, i);
    }
    if AnyDefined(RowsOfDisease(rows, name), TrendOf) {
      TrendBoxFor(rows, name);
    }
  }
}
