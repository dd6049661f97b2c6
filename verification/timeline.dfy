/**
  The timeline animation: the dataset (or one disease of it) accumulated per
  (year, week) frame and, within a frame, per district; a playback state
  driven by the Play, Pause and Reset buttons and by the ticks of a
  repeating timer; and the ranking each frame renders.
*/
module Timeline {
  import opened Wrappers
  import opened Seqs
  import opened Sorting
  import opened Grouping
  import opened Records
  import opened TemporalViews
  import opened SummaryStats

  // ---------------------------------------------------------------------
  // Frames
  // ---------------------------------------------------------------------

  /** `String(d.district)` as an object key: a missing district is a key of its own. */
  function DistrictCell(r: Record): Option<string>
  {
    r.district
  }

  /** One district's accumulator in a frame: sums with missing cells as zero. */
  datatype DistrictTotals = DistrictTotals(district: Option<string>, cases: real, bedDays: real, icuRequired: real)

  function TotalsOf(g: Group<Option<string>, Record>): DistrictTotals
  {
    DistrictTotals(g.key, Total(g.members, Cases), Total(g.members, BedDays), Total(g.members, IcuRequired))
  }

  /** One `year-Wweek` frame with its districts in first-appearance order. */
  datatype Frame = Frame(period: Period, districts: seq<DistrictTotals>)

  function FrameOf(g: Group<Period, Record>): Frame
  {
    Frame(g.key, MapGroups(GroupBy(g.members, DistrictCell), TotalsOf))
  }

  function DiseaseIs(name: string): Record -> bool
  {
    (r: Record) => r.disease == Some(name)
  }

  /** `disease === 'All' ? rawData : rawData.filter(d => d.Disease_Clean === disease)`. */
  function AnimatedRows(rows: seq<Record>, disease: string): seq<Record>
  {
    if disease == "All" then rows else Filter(rows, DiseaseIs(disease))
  }

  /** `prepareAnimationData`: sort by (year, week), accumulate per period and, inside it, per district. */
  function PrepareFrames(rows: seq<Record>, disease: string): seq<Frame>
  {
    MapGroups(PeriodGroups(rows, disease), FrameOf)
  }

  /**
    The dataset after `prepareAnimationData`: for "All" the sort runs on
    `rawData` itself and reorders it in place; a single disease sorts a
    filtered copy and leaves the dataset alone.
  */
  function DatasetAfterPlay(rows: seq<Record>, disease: string): (after: seq<Record>)
    ensures multiset(after) == multiset(rows) && |after| == |rows|
    ensures disease != "All" ==> after == rows
  {
    SortByPermutes(rows, PeriodOf, PeriodBefore);
    if disease == "All" then SortBy(rows, PeriodOf, PeriodBefore) else rows
  }

  /** The in-place reordering leaves the headline statistics of the dataset unchanged. */
  lemma {:induction false} PlayKeepsSummary(rows: seq<Record>, disease: string)
    ensures Summarize(DatasetAfterPlay(rows, disease)) == Summarize(rows)
  {
    SummaryOrderIndependent(DatasetAfterPlay(rows, disease), rows);
  }

  /** Preparing the frames again from the reordered dataset gives the same frames. */
  lemma {:induction false} PlayKeepsFrames(rows: seq<Record>, disease: string)
    ensures PrepareFrames(DatasetAfterPlay(rows, disease), disease) == PrepareFrames(rows, disease)
  {
    if disease == "All" {
      var sorted := SortBy(rows, PeriodOf, PeriodBefore);
      PeriodBeforeIsStrictTotalOrder();
      SortBySorted(rows, PeriodOf, PeriodBefore);
      SortByOfSorted(sorted, PeriodOf, PeriodBefore);
      assert AnimatedRows(sorted, disease) == sorted;
    }
  }

  /** The rows of one district, among the given rows, in their order. */
  function RowsOfDistrict(rows: seq<Record>, d: Option<string>): seq<Record>
  {
    Filter(rows, KeyIs(DistrictCell, d))
  }

  /** The groups of animated rows per period that the frames are built from. */
  function PeriodGroups(rows: seq<Record>, disease: string): seq<Group<Period, Record>>
  {
    GroupBy(SortBy(AnimatedRows(rows, disease), PeriodOf, PeriodBefore), PeriodOf)
  }

  lemma FramesOfGroups(rows: seq<Record>, disease: string)
    ensures |PrepareFrames(rows, disease)| == |PeriodGroups(rows, disease)|
    ensures forall i :: 0 <= i < |PeriodGroups(rows, disease)| ==>
      PrepareFrames(rows, disease)[i] == FrameOf(PeriodGroups(rows, disease)[i]) &&
      PrepareFrames(rows, disease)[i].period == PeriodGroups(rows, disease)[i].key
  {
  }

  /** The frames come in strictly ascending (year, week) order, one per period. */
  lemma FramesAscending(rows: seq<Record>, disease: string)
    ensures forall i, j :: 0 <= i < j < |PrepareFrames(rows, disease)| ==>
      PeriodBefore(PrepareFrames(rows, disease)[i].period, PrepareFrames(rows, disease)[j].period)
  {
    var animated := AnimatedRows(rows, disease);
    PeriodBeforeIsStrictTotalOrder();
    SortBySorted(animated, PeriodOf, PeriodBefore);
    GroupBySortedAscending(SortBy(animated, PeriodOf, PeriodBefore), PeriodOf, PeriodBefore);
    FramesOfGroups(rows, disease);
  }

  /** There is a frame for a period exactly when some animated row falls in it. */
  lemma FramesCover(rows: seq<Record>, disease: string, p: Period)
    ensures (exists i :: 0 <= i < |PrepareFrames(rows, disease)| && PrepareFrames(rows, disease)[i].period == p) <==>
      HasPeriod(AnimatedRows(rows, disease), p)
  {
    var animated := AnimatedRows(rows, disease);
    var sorted := SortBy(animated, PeriodOf, PeriodBefore);
    var groups := PeriodGroups(rows, disease);
    var frames := PrepareFrames(rows, disease);
    SortByPermutes(animated, PeriodOf, PeriodBefore);
    HasPeriodPermutation(animated, sorted, p);
    GroupByExact(sorted, PeriodOf);
    FramesOfGroups(rows, disease);
    assert HasKey(groups, p) <==> HasPeriod(sorted, p);
    if exists i :: 0 <= i < |frames| && frames[i].period == p {
      var i :| 0 <= i < |frames| && frames[i].period == p;
      assert groups[i].key == p;
    }
    if HasKey(groups, p) {
      var i :| 0 <= i < |groups| && groups[i].key == p;
      assert frames[i].period == p;
    }
  }

  /** Each frame accumulates exactly the animated rows of its period, taken in their original order. */
  lemma FrameRows(rows: seq<Record>, disease: string, i: nat)
    requires i < |PrepareFrames(rows, disease)|
    ensures PrepareFrames(rows, disease)[i] ==
      FrameOf(Group(PrepareFrames(rows, disease)[i].period, RowsIn(AnimatedRows(rows, disease), PrepareFrames(rows, disease)[i].period)))
    ensures |RowsIn(AnimatedRows(rows, disease), PrepareFrames(rows, disease)[i].period)| > 0
  {
    var animated := AnimatedRows(rows, disease);
    var sorted := SortBy(animated, PeriodOf, PeriodBefore);
    var groups := PeriodGroups(rows, disease);
    FramesOfGroups(rows, disease);
    PeriodBeforeIsStrictTotalOrder();
    GroupMembers(sorted, PeriodOf, i);
    SortByStable(animated, PeriodOf, PeriodBefore, groups[i].key);
    assert groups[i] == Group(groups[i].key, RowsIn(animated, groups[i].key));
  }

  /**
    Inside a frame, one entry per district of the frame's rows, none
    repeated, each holding that district's sums over those rows.
  */
  lemma DistrictEntries(members: seq<Record>, k: nat)
    requires k < |MapGroups(GroupBy(members, DistrictCell), TotalsOf)|
    ensures var e := MapGroups(GroupBy(members, DistrictCell), TotalsOf)[k];
      |RowsOfDistrict(members, e.district)| > 0 &&
      e.cases == Total(RowsOfDistrict(members, e.district), Cases) &&
      e.bedDays == Total(RowsOfDistrict(members, e.district), BedDays) &&
      e.icuRequired == Total(RowsOfDistrict(members, e.district), IcuRequired)
    ensures forall l :: 0 <= l < |MapGroups(GroupBy(members, DistrictCell), TotalsOf)| && l != k ==>
      MapGroups(GroupBy(members, DistrictCell), TotalsOf)[l].district != MapGroups(GroupBy(members, DistrictCell), TotalsOf)[k].district
  {
    var groups := GroupBy(members, DistrictCell);
    var entries := MapGroups(groups, TotalsOf);
    GroupMembers(members, DistrictCell, k);
    GroupByExact(members, DistrictCell);
    assert entries[k] == TotalsOf(groups[k]);
    assert groups[k].members == RowsOfDistrict(members, entries[k].district);
    forall l | 0 <= l < |entries| && l != k
      ensures entries[l].district != entries[k].district
    {
      assert entries[l] == TotalsOf(groups[l]);
    }
  }

  /** Every district of a frame's rows has an entry. */
  lemma DistrictEntriesCover(members: seq<Record>, j: nat)
    requires j < |members|
    ensures exists k :: (0 <= k < |MapGroups(GroupBy(members, DistrictCell), TotalsOf)| &&
      MapGroups(GroupBy(members, DistrictCell), TotalsOf)[k].district == members[j].district)
  {
    var groups := GroupBy(members, DistrictCell);
    GroupByExact(members, DistrictCell);
    assert HasKey(groups, DistrictCell(members[j]));
    var k :| 0 <= k < |groups| && groups[k].key == DistrictCell(members[j]);
    var entries := MapGroups(groups, TotalsOf);
    assert entries[k] == TotalsOf(groups[k]);
    assert entries[k].district == members[j].district;
  }

  function EntryCases(e: DistrictTotals): real
  {
    e.cases
  }

  lemma {:induction false} EntriesSum(gs: seq<Group<Option<string>, Record>>)
    ensures SumOf(MapGroups(gs, TotalsOf), EntryCases) == GroupedSum(gs, ValueOf(Cases))
  {
    if |gs| > 0 {
      EntriesSum(gs[1..]);
      assert MapGroups(gs, TotalsOf)[1..] == MapGroups(gs[1..], TotalsOf);
    }
  }

  /** A frame's district entries add up to the frame's total cases: nothing is lost or counted twice. */
  lemma FrameConservesCases(members: seq<Record>)
    ensures SumOf(MapGroups(GroupBy(members, DistrictCell), TotalsOf), EntryCases) == Total(members, Cases)
  {
    EntriesSum(GroupBy(members, DistrictCell));
    GroupByConservesSum(members, DistrictCell, ValueOf(Cases));
  }

  // ---------------------------------------------------------------------
  // Playback
  // ---------------------------------------------------------------------

  /**
    The animation state: the prepared frames, `currentAnimationFrame`, the
    `animationInterval` handle (`None` for `null`), the timers the browser
    holds live, and the next handle `setInterval` will hand out (handles
    are positive, so a held handle is truthy).
  */
  datatype Playback = Playback(
    frames: seq<Frame>,
    current: nat,
    interval: Option<nat>,
    live: set<nat>,
    nextHandle: nat)

  /** No timer runs except the one the state holds, and fresh handles are unused. */
  ghost predicate Valid(s: Playback)
  {
    && s.live == (if s.interval.Some? then {s.interval.value} else {})
    && (forall h :: h in s.live ==> 1 <= h < s.nextHandle)
    && s.nextHandle >= 1
  }

  /** The page as loaded: no frames, no timer. */
  function Initial(): (s: Playback)
    ensures Valid(s) && s.interval.None? && s.live == {}
  {
    Playback([], 0, None, {}, 1)
  }

  /** `stopAnimation`: clear the held timer, if any, and forget it. */
  function Stop(s: Playback): (r: Playback)
    ensures Valid(s) ==> Valid(r)
    ensures r.interval.None? && r.frames == s.frames && r.current == s.current
    ensures Valid(s) ==> r.live == {}
  {
    if s.interval.Some? then s.(interval := None, live := s.live - {s.interval.value}) else s
  }

  /** `startAnimation`: clear the held timer, if any, then start a new one and hold it. */
  function Start(s: Playback): (r: Playback)
    ensures r.interval.Some? && r.frames == s.frames && r.current == s.current
    ensures Valid(s) ==> Valid(r) && r.live == {r.interval.value}
  {
    var cleared := Stop(s);
    var h := cleared.nextHandle;
    cleared.(interval := Some(h), live := cleared.live + {h}, nextHandle := h + 1)
  }

  datatype PlayOutcome = Started | NoData

  /**
    `handleTimelinePlay`: prepare the frames for the selected disease; with
    none, report it and leave any running timer alone; otherwise restart
    from the first frame with a fresh timer.
  */
  function Play(s: Playback, rows: seq<Record>, disease: string): (r: (Playback, PlayOutcome))
    ensures r.0.frames == PrepareFrames(rows, disease)
    ensures r.1 == NoData <==> |PrepareFrames(rows, disease)| == 0
    ensures r.1 == NoData ==> r.0 == s.(frames := [])
    ensures r.1 == Started ==> r.0.current == 0 && r.0.interval.Some?
    ensures Valid(s) ==> Valid(r.0)
    ensures Valid(s) && r.1 == Started ==> r.0.live == {r.0.interval.value}
  {
    var frames := PrepareFrames(rows, disease);
    if |frames| == 0 then (s.(frames := frames), NoData)
    else (Start(s.(frames := frames, current := 0)), Started)
  }

  /** `handleTimelinePause`: stop the timer; the frame position is kept. */
  function Pause(s: Playback): (r: Playback)
    ensures Valid(s) ==> Valid(r) && r.live == {}
    ensures r.interval.None? && r.current == s.current && r.frames == s.frames
  {
    Stop(s)
  }

  /** `handleTimelineReset`: stop the timer and return to the first frame. */
  function Reset(s: Playback): (r: Playback)
    ensures Valid(s) ==> Valid(r) && r.live == {}
    ensures r.interval.None? && r.current == 0 && r.frames == s.frames
  {
    Stop(s).(current := 0)
  }

  /**
    One firing of a live timer: past the last frame it stops the
    animation; otherwise it renders the current frame and advances.
    Under `Valid` the only timer that can fire is the held one.
  */
  function Tick(s: Playback, h: nat): (r: (Playback, Option<nat>))
    requires Valid(s) && h in s.live
    ensures s.interval == Some(h)
    ensures Valid(r.0) && r.0.frames == s.frames
    ensures s.current < |s.frames| ==> r.1 == Some(s.current) && r.0 == s.(current := s.current + 1)
    ensures s.current >= |s.frames| ==> r.1.None? && r.0.interval.None? && r.0.live == {}
  {
    if s.current >= |s.frames| then (Stop(s), None)
    else (s.(current := s.current + 1), Some(s.current))
  }

  /** `k` firings of the held timer, or fewer if it is stopped: the final state and the frames rendered. */
  function Ticks(s: Playback, k: nat): (Playback, seq<nat>)
    requires Valid(s)
    decreases k
  {
    if k == 0 || s.interval.None? then (s, [])
    else
      var (next, shown) := Tick(s, s.interval.value);
      var (last, more) := Ticks(next, k - 1);
      (last, (if shown.Some? then [shown.value] else []) + more)
  }

  /** The frame positions `from`, `from + 1`, ..., `from + k - 1`. */
  function Run(from: nat, k: nat): (r: seq<nat>)
    ensures |r| == k && forall i :: 0 <= i < k ==> r[i] == from + i
    decreases k
  {
    if k == 0 then [] else [from] + Run(from + 1, k - 1)
  }

  /**
    A running animation renders every remaining frame once, in order, and
    keeps running while frames remain; the tick after the last frame stops
    the timer.
  */
  lemma {:induction false} PlaysThrough(s: Playback, k: nat)
    requires Valid(s) && s.interval.Some? && s.current <= |s.frames|
    ensures k <= |s.frames| - s.current ==>
      Ticks(s, k).1 == Run(s.current, k) && Ticks(s, k).0.interval.Some? &&
      Ticks(s, k).0.current == s.current + k
    ensures k > |s.frames| - s.current ==>
      Ticks(s, k).1 == Run(s.current, |s.frames| - s.current) && Ticks(s, k).0.interval.None? &&
      Ticks(s, k).0.live == {}
    decreases k
  {
    if k > 0 {
      var (next, shown) := Tick(s, s.interval.value);
      if s.current < |s.frames| {
        assert next == s.(current := s.current + 1) && shown == Some(s.current);
        PlaysThrough(next, k - 1);
        var rest := Ticks(next, k - 1);
        assert Ticks(s, k) == (rest.0, [s.current] + rest.1);
        assert Run(s.current, k) == [s.current] + Run(s.current + 1, k - 1);
      } else {
        assert next.interval.None?;
        assert Ticks(next, k - 1) == (next, []);
      }
    }
  }

  /** After Play starts, the frames are rendered from the first to the last, then the timer stops. */
  lemma PlayRendersAllFrames(s: Playback, rows: seq<Record>, disease: string)
    requires Valid(s)
    requires Play(s, rows, disease).1 == Started
    ensures var started := Play(s, rows, disease).0;
      var n := |PrepareFrames(rows, disease)|;
      Ticks(started, n).1 == Run(0, n) &&
      Ticks(started, n + 1).1 == Run(0, n) &&
      Ticks(started, n + 1).0.interval.None? && Ticks(started, n + 1).0.live == {}
  {
    var started := Play(s, rows, disease).0;
    PlaysThrough(started, |started.frames|);
    PlaysThrough(started, |started.frames| + 1);
  }

  // ---------------------------------------------------------------------
  // Rendering a frame
  // ---------------------------------------------------------------------

  /** `const topN = 15` districts per frame. */
  const RankedDistricts: nat := 15

  /** The `timeline-metric` switch: `Bed_Days`, `ICU_Required`, and `Cases` for anything else. */
  function MetricFrom(name: string): Measure
  {
    if name == "Bed_Days" then BedDays
    else if name == "ICU_Required" then IcuRequired
    else Cases
  }

  datatype RankBar = RankBar(district: Option<string>, value: real)

  function EntryValue(e: DistrictTotals, m: Measure): real
  {
    match m
    case BedDays => e.bedDays
    case IcuRequired => e.icuRequired
    case _ => e.cases
  }

  function BarsOf(f: Frame, m: Measure): (bars: seq<RankBar>)
    ensures |bars| == |f.districts|
    ensures forall k :: 0 <= k < |bars| ==> bars[k] == RankBar(f.districts[k].district, EntryValue(f.districts[k], m))
  {
    seq(|f.districts|, k requires 0 <= k < |f.districts| => RankBar(f.districts[k].district, EntryValue(f.districts[k], m)))
  }

  function RankValue(b: RankBar): real
  {
    b.value
  }

  /** The bars a frame renders: its districts by descending value under the metric, at most fifteen. */
  function Ranking(f: Frame, metric: string): seq<RankBar>
  {
    TopBy(BarsOf(f, MetricFrom(metric)), RankValue, RankedDistricts)
  }

  /**
    The ranking shows min(15, districts) bars in descending order; the
    shown and the unshown bars together are exactly the frame's districts
    with their values, and no unshown district outranks a shown one.
  */
  lemma RankingTop(f: Frame, metric: string)
    ensures |Ranking(f, metric)| == MinNat(RankedDistricts, |f.districts|)
    ensures forall i, j :: 0 <= i < j < |Ranking(f, metric)| ==> Ranking(f, metric)[i].value >= Ranking(f, metric)[j].value
    ensures multiset(Ranking(f, metric)) + multiset(DroppedBy(BarsOf(f, MetricFrom(metric)), RankValue, RankedDistricts)) ==
      multiset(BarsOf(f, MetricFrom(metric)))
    ensures forall a, b :: a in Ranking(f, metric) && b in DroppedBy(BarsOf(f, MetricFrom(metric)), RankValue, RankedDistricts) ==>
      a.value >= b.value
    ensures |f.districts| <= RankedDistricts ==> multiset(Ranking(f, metric)) == multiset(BarsOf(f, MetricFrom(metric)))
  {
    TopBySplits(BarsOf(f, MetricFrom(metric)), RankValue, RankedDistricts);
  }

  /** `((frameIndex + 1) / animationData.length) * 100`: the width of the progress bar. */
  function Progress(i: nat, n: nat): (percent: real)
    requires i < n
    ensures 0.0 < percent <= 100.0
    ensures percent == 100.0 <==> i == n - 1
  {
    var p := ((i + 1) as real) / (n as real) * 100.0;
    assert p * (n as real) == ((i + 1) as real) * 100.0;
    p
  }
}
