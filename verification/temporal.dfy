/**
  The weekly views: the time-series chart and the healthcare-demand chart.
  Both sort the rows by (year, week), accumulate them per `year-Wweek` key,
  and order the accumulated periods by (year, week) again.
*/
module TemporalViews {
  import opened Wrappers
  import opened Seqs
  import opened Sorting
  import opened Grouping
  import opened Records
  import opened Downsampling

  /** The accumulator of one period: sums with missing cells as zero, and the row count. */
  datatype PeriodAggregate = PeriodAggregate(
    period: Period,
    cases: real,
    bedDays: real,
    icuRequired: real,
    maSum: real,
    trendSum: real,
    count: nat)

  function AggregateOf(p: Period, members: seq<Record>): PeriodAggregate
  {
    PeriodAggregate(p, Total(members, Cases), Total(members, BedDays), Total(members, IcuRequired),
      Total(members, CasesMA3w), Total(members, CasesTrend4w), |members|)
  }

  function AggregatePeriod(a: PeriodAggregate): Period
  {
    a.period
  }

  /** Sort by (year, week) into a new sequence and accumulate per period, in first-appearance order. */
  function GroupedPeriods(rows: seq<Record>): seq<PeriodAggregate>
  {
    var groups := GroupBy(SortBy(rows, PeriodOf, PeriodBefore), PeriodOf);
    seq(|groups|, i requires 0 <= i < |groups| => AggregateOf(groups[i].key, groups[i].members))
  }

  /** `Object.values(aggregated).sort(...)` by (year, week). */
  function PeriodAggregates(rows: seq<Record>): seq<PeriodAggregate>
  {
    SortBy(GroupedPeriods(rows), AggregatePeriod, PeriodBefore)
  }

  /** Some row falls in period `p`. */
  predicate HasPeriod(rows: seq<Record>, p: Period)
  {
    exists j :: 0 <= j < |rows| && PeriodOf(rows[j]) == p
  }

  /** Some entry of the series is for period `p`. */
  predicate Lists(aggregates: seq<PeriodAggregate>, p: Period)
  {
    exists i :: 0 <= i < |aggregates| && aggregates[i].period == p
  }

  ghost predicate StrictlyAscending(aggregates: seq<PeriodAggregate>)
  {
    forall i, j :: 0 <= i < j < |aggregates| ==> PeriodBefore(aggregates[i].period, aggregates[j].period)
  }

  lemma HasPeriodPermutation(a: seq<Record>, b: seq<Record>, p: Period)
    requires multiset(a) == multiset(b)
    ensures HasPeriod(a, p) <==> HasPeriod(b, p)
  {
    if HasPeriod(a, p) {
      var j :| 0 <= j < |a| && PeriodOf(a[j]) == p;
      assert a[j] in multiset(b);
      var k :| 0 <= k < |b| && b[k] == a[j];
    }
    if HasPeriod(b, p) {
      var j :| 0 <= j < |b| && PeriodOf(b[j]) == p;
      assert b[j] in multiset(a);
      var k :| 0 <= k < |a| && a[k] == b[j];
    }
  }

  lemma GroupedPeriodsAscending(rows: seq<Record>)
    ensures StrictlyAscending(GroupedPeriods(rows))
  {
    PeriodBeforeIsStrictTotalOrder();
    var sorted := SortBy(rows, PeriodOf, PeriodBefore);
    SortBySorted(rows, PeriodOf, PeriodBefore);
    GroupBySortedAscending(sorted, PeriodOf, PeriodBefore);
  }

  /** The second sort finds the periods already in order and leaves them as they are. */
  lemma SecondSortKeepsOrder(rows: seq<Record>)
    ensures PeriodAggregates(rows) == GroupedPeriods(rows)
  {
    var grouped := GroupedPeriods(rows);
    GroupedPeriodsAscending(rows);
    assert SortedBy(grouped, AggregatePeriod, PeriodBefore) by {
      forall i, j | 0 <= i < j < |grouped|
        ensures !PeriodBefore(grouped[j].period, grouped[i].period)
      {
        assert PeriodBefore(grouped[i].period, grouped[j].period);
      }
    }
    SortByOfSorted(grouped, AggregatePeriod, PeriodBefore);
  }

  lemma GroupedPeriodsSums(rows: seq<Record>, i: nat)
    requires i < |GroupedPeriods(rows)|
    ensures GroupedPeriods(rows)[i] == AggregateOf(GroupedPeriods(rows)[i].period, RowsIn(rows, GroupedPeriods(rows)[i].period))
    ensures GroupedPeriods(rows)[i].count >= 1
  {
    PeriodBeforeIsStrictTotalOrder();
    var sorted := SortBy(rows, PeriodOf, PeriodBefore);
    var groups := GroupBy(sorted, PeriodOf);
    GroupMembers(sorted, PeriodOf, i);
    SortByStable(rows, PeriodOf, PeriodBefore, groups[i].key);
  }

  lemma GroupedPeriodsCover(rows: seq<Record>, p: Period)
    ensures Lists(GroupedPeriods(rows), p) <==> HasPeriod(rows, p)
  {
    var sorted := SortBy(rows, PeriodOf, PeriodBefore);
    SortByPermutes(rows, PeriodOf, PeriodBefore);
    HasPeriodPermutation(rows, sorted, p);
    var groups := GroupBy(sorted, PeriodOf);
    GroupByExact(sorted, PeriodOf);
    var grouped := GroupedPeriods(rows);
    assert HasKey(groups, p) <==> HasPeriod(sorted, p);
    if Lists(grouped, p) {
      var i :| 0 <= i < |grouped| && grouped[i].period == p;
      assert groups[i].key == p;
    }
    if HasKey(groups, p) {
      var i :| 0 <= i < |groups| && groups[i].key == p;
      assert grouped[i].period == p;
    }
  }

  /**
    The accumulation is exact: one entry per distinct (year, week) of the
    rows, in strictly ascending (year, week) order, each holding the sums
    and the count of exactly the rows of its period.
  */
  lemma PeriodAggregatesExact(rows: seq<Record>)
    ensures StrictlyAscending(PeriodAggregates(rows))
    ensures forall p {:trigger Lists(PeriodAggregates(rows), p)} {:trigger HasPeriod(rows, p)} ::
      Lists(PeriodAggregates(rows), p) <==> HasPeriod(rows, p)
    ensures forall i :: 0 <= i < |PeriodAggregates(rows)| ==>
      && PeriodAggregates(rows)[i] == AggregateOf(PeriodAggregates(rows)[i].period, RowsIn(rows, PeriodAggregates(rows)[i].period))
      && PeriodAggregates(rows)[i].count >= 1
  {
    SecondSortKeepsOrder(rows);
    GroupedPeriodsAscending(rows);
    forall p ensures Lists(GroupedPeriods(rows), p) <==> HasPeriod(rows, p) {
      GroupedPeriodsCover(rows, p);
    }
    forall i | 0 <= i < |GroupedPeriods(rows)|
      ensures GroupedPeriods(rows)[i] == AggregateOf(GroupedPeriods(rows)[i].period, RowsIn(rows, GroupedPeriods(rows)[i].period))
      ensures GroupedPeriods(rows)[i].count >= 1
    {
      GroupedPeriodsSums(rows, i);
    }
  }

  /** One point of the time-series chart: total cases and the averaged 3-week moving average. */
  datatype TimePoint = TimePoint(period: Period, cases: real, maAverage: real)

  function TimePointOf(a: PeriodAggregate): TimePoint
  {
    TimePoint(a.period, a.cases, MeanOf(a.maSum, a.count))
  }

  /** One point per period, before thinning. */
  function TimePoints(all: seq<PeriodAggregate>): (points: seq<TimePoint>)
    ensures |points| == |all|
    ensures forall i :: 0 <= i < |all| ==> points[i] == TimePointOf(all[i])
  {
    seq(|all|, i requires 0 <= i < |all| => TimePointOf(all[i]))
  }

  /** The time-series chart: one point per period, thinned to every `floor(n / 500)`-th point. */
  function TimeSeries(rows: seq<Record>): seq<TimePoint>
  {
    Downsample(TimePoints(PeriodAggregates(rows)))
  }

  /** Each plotted point shows the period `j * step` of the full weekly series. */
  lemma TimeSeriesShows(rows: seq<Record>)
    ensures forall j :: 0 <= j < |TimeSeries(rows)| ==>
      ShowsPeriod(TimeSeries(rows)[j], rows, PeriodAggregates(rows), j * DownsampleStep(|PeriodAggregates(rows)|))
  {
    var all := PeriodAggregates(rows);
    var points := TimePoints(all);
    DownsampleKeeps(points);
    var step := DownsampleStep(|all|);
    var shown := TimeSeries(rows);
    forall j | 0 <= j < |shown|
      ensures ShowsPeriod(shown[j], rows, all, j * step)
    {
      var k := j * step;
      assert shown[j] == points[k] == TimePointOf(all[k]);
      PeriodAggregateAt(rows, k);
    }
  }

  lemma PeriodAggregateAt(rows: seq<Record>, k: nat)
    requires k < |PeriodAggregates(rows)|
    ensures PeriodAggregates(rows)[k] == AggregateOf(PeriodAggregates(rows)[k].period, RowsIn(rows, PeriodAggregates(rows)[k].period))
  {
    PeriodAggregatesExact(rows);
  }

  /** The plotted points keep the strictly ascending (year, week) order. */
  lemma TimeSeriesOrdered(rows: seq<Record>)
    ensures forall i, j :: 0 <= i < j < |TimeSeries(rows)| ==>
      PeriodBefore(TimeSeries(rows)[i].period, TimeSeries(rows)[j].period)
  {
    var all := PeriodAggregates(rows);
    var points := TimePoints(all);
    DownsampleKeeps(points);
    var step := DownsampleStep(|all|);
    var shown := TimeSeries(rows);
    PeriodAggregatesExact(rows);
    forall i, j | 0 <= i < j < |shown|
      ensures PeriodBefore(shown[i].period, shown[j].period)
    {
      MulStrict(i, j, step);
      assert shown[i] == points[i * step] && shown[j] == points[j * step];
    }
  }

  /**
    Each plotted point is the period `j * step` of the full weekly series,
    with the total cases and the per-row mean moving average of exactly
    that period's rows; points are in ascending (year, week) order and the
    first period is always plotted.
  */
  lemma TimeSeriesPoints(rows: seq<Record>)
    ensures |TimeSeries(rows)| <= |PeriodAggregates(rows)|
    ensures forall j :: 0 <= j < |TimeSeries(rows)| ==>
      ShowsPeriod(TimeSeries(rows)[j], rows, PeriodAggregates(rows), j * DownsampleStep(|PeriodAggregates(rows)|))
    ensures |PeriodAggregates(rows)| > 0 ==>
      |TimeSeries(rows)| > 0 && TimeSeries(rows)[0].period == PeriodAggregates(rows)[0].period
    ensures forall i, j :: 0 <= i < j < |TimeSeries(rows)| ==>
      PeriodBefore(TimeSeries(rows)[i].period, TimeSeries(rows)[j].period)
  {
    var all := PeriodAggregates(rows);
    var points := TimePoints(all);
    DownsampleKeeps(points);
    var shown := TimeSeries(rows);
    TimeSeriesShows(rows);
    TimeSeriesOrdered(rows);
    if |shown| > 0 {
      MulAtLeast(|shown| - 1, DownsampleStep(|all|));
    }
  }

  /**
    Point `point` of the chart is entry `k` of the full weekly series: that
    period's total cases and its per-row mean 3-week moving average.
  */
  predicate ShowsPeriod(point: TimePoint, rows: seq<Record>, all: seq<PeriodAggregate>, k: nat)
  {
    && k < |all|
    && point.period == all[k].period
    && point.cases == Total(RowsIn(rows, all[k].period), Cases)
    && point.maAverage == MetricOver(RowsIn(rows, all[k].period), CasesMA3w)
  }

  lemma MulAtLeast(i: nat, step: nat)
    requires step >= 1
    ensures i * step >= i
  {
  }

  lemma MulStrict(i: nat, j: nat, step: nat)
    requires i < j && step >= 1
    ensures i * step < j * step
  {
  }

  /** The healthcare-demand chart: the selected measure per period, plus a bed-days series when the measure is cases. */
  datatype HealthcareChart = HealthcareChart(periods: seq<Period>, primary: seq<real>, bedDaysOverlay: Option<seq<real>>)

  function SelectedValue(a: PeriodAggregate, m: Measure): real
  {
    match m
    case Cases => a.cases
    case BedDays => a.bedDays
    case IcuRequired => a.icuRequired
    case CasesMA3w => MeanOf(a.maSum, a.count)
    case CasesTrend4w => MeanOf(a.trendSum, a.count)
  }

  function Healthcare(rows: seq<Record>, m: Measure): HealthcareChart
  {
    var all := PeriodAggregates(rows);
    var periods := seq(|all|, i requires 0 <= i < |all| => all[i].period);
    var primary := seq(|all|, i requires 0 <= i < |all| => SelectedValue(all[i], m));
    var overlay := if m == Cases then Some(seq(|all|, i requires 0 <= i < |all| => all[i].bedDays)) else None;
    HealthcareChart(periods, primary, overlay)
  }

  /**
    The healthcare chart has one bar per distinct period in ascending order,
    each the selected measure over exactly that period's rows (sums, or
    per-row means for the moving-average and trend measures); the bed-days
    overlay is present exactly when cases are selected.
  */
  lemma HealthcareBars(rows: seq<Record>, m: Measure)
    ensures |Healthcare(rows, m).primary| == |Healthcare(rows, m).periods|
    ensures forall i, j :: 0 <= i < j < |Healthcare(rows, m).periods| ==>
      PeriodBefore(Healthcare(rows, m).periods[i], Healthcare(rows, m).periods[j])
    ensures forall p :: p in Healthcare(rows, m).periods <==> HasPeriod(rows, p)
    ensures forall i :: 0 <= i < |Healthcare(rows, m).periods| ==>
      Healthcare(rows, m).primary[i] == MetricOver(RowsIn(rows, Healthcare(rows, m).periods[i]), m)
    ensures Healthcare(rows, m).bedDaysOverlay.Some? <==> m == Cases
    ensures Healthcare(rows, m).bedDaysOverlay.Some? ==>
      |Healthcare(rows, m).bedDaysOverlay.value| == |Healthcare(rows, m).periods| &&
      forall i :: 0 <= i < |Healthcare(rows, m).periods| ==>
        Healthcare(rows, m).bedDaysOverlay.value[i] == Total(RowsIn(rows, Healthcare(rows, m).periods[i]), BedDays)
  {
    var all := PeriodAggregates(rows);
    PeriodAggregatesExact(rows);
    var chart := Healthcare(rows, m);
    forall p
      ensures p in chart.periods <==> Lists(all, p)
    {
      if p in chart.periods {
        var i :| 0 <= i < |chart.periods| && chart.periods[i] == p;
        assert all[i].period == p;
      }
      if exists i :: 0 <= i < |all| && all[i].period == p {
        var i :| 0 <= i < |all| && all[i].period == p;
        assert chart.periods[i] == p;
      }
    }
  }
}
