/**
  The resource simulator: from the historical rows of one district and one
  disease it takes the per-row averages of cases, bed days and ICU demand,
  then compounds the case count week by week at the given growth rate and
  projects bed days and ICU demand at the historical per-case ratios,
  against the given bed and ICU capacities.
*/
module Simulator {
  import opened Wrappers
  import opened Seqs
  import opened Records

  // ---------------------------------------------------------------------
  // Parameters
  // ---------------------------------------------------------------------

  /**
    The form as the simulator reads it. The numeric fields hold what
    `parseInt` / `parseFloat` returned, `None` standing for `NaN`; the
    selections are the `<select>` values, `""` when nothing is selected.
  */
  datatype Inputs = Inputs(
    district: string,
    disease: string,
    beds: Option<int>,
    icu: Option<int>,
    growth: Option<real>,
    weeks: Option<int>)

  /** The parameters after the `|| default` fallbacks. */
  datatype Parameters = Parameters(beds: int, icu: int, growth: real, weeks: int)

  /** `parsed || d` for an integer: `NaN` and `0` are falsy and give way to `d`. */
  function IntOr(parsed: Option<int>, d: int): int
  {
    if parsed.Some? && parsed.value != 0 then parsed.value else d
  }

  /** `parsed || 0` for a real. */
  function RealOrZero(parsed: Option<real>): real
  {
    if parsed.Some? then parsed.value else 0.0
  }

  /** Beds and ICU capacity default to 0, the growth rate to 0 and the horizon to 12 weeks. */
  function ParametersOf(inputs: Inputs): (p: Parameters)
    ensures p.weeks != 0
    ensures inputs.weeks.Some? && inputs.weeks.value != 0 ==> p.weeks == inputs.weeks.value
    ensures inputs.weeks.None? || inputs.weeks.value == 0 ==> p.weeks == 12
    ensures p.beds == inputs.beds.GetOr(0) && p.icu == inputs.icu.GetOr(0)
    ensures p.growth == inputs.growth.GetOr(0.0)
  {
    Parameters(IntOr(inputs.beds, 0), IntOr(inputs.icu, 0), RealOrZero(inputs.growth), IntOr(inputs.weeks, 12))
  }

  /** The number of weeks the loop `for (week = 1; week <= weeks; week++)` runs. */
  function Horizon(p: Parameters): nat
  {
    if p.weeks > 0 then p.weeks else 0
  }

  // ---------------------------------------------------------------------
  // Baseline
  // ---------------------------------------------------------------------

  /** `d.district === district && d.Disease_Clean === disease`: a missing cell never matches. */
  predicate Selected(r: Record, district: string, disease: string)
  {
    r.district == Some(district) && r.disease == Some(disease)
  }

  function SelectedBy(district: string, disease: string): Record -> bool
  {
    r => Selected(r, district, disease)
  }

  /** The historical rows of the selection, taken from the whole dataset and not the filtered view. */
  function History(rows: seq<Record>, district: string, disease: string): seq<Record>
  {
    Filter(rows, SelectedBy(district, disease))
  }

  datatype Baseline = Baseline(avgCases: real, avgBedDays: real, avgIcu: real)

  /** The per-row averages, a missing cell counting as zero. */
  function BaselineOf(history: seq<Record>): (b: Baseline)
    requires |history| > 0
    ensures b.avgCases * (|history| as real) == Total(history, Cases)
    ensures b.avgBedDays * (|history| as real) == Total(history, BedDays)
    ensures b.avgIcu * (|history| as real) == Total(history, IcuRequired)
  {
    Baseline(
      MeanOf(Total(history, Cases), |history|),
      MeanOf(Total(history, BedDays), |history|),
      MeanOf(Total(history, IcuRequired), |history|))
  }

  /** `avg / (avgCases || 1)`: demand per case, dividing by one when the average case count is zero. */
  function PerCase(avg: real, avgCases: real): (ratio: real)
    ensures avgCases != 0.0 ==> ratio * avgCases == avg
    ensures avgCases == 0.0 ==> ratio == avg
  {
    avg / (if avgCases != 0.0 then avgCases else 1.0)
  }

  // ---------------------------------------------------------------------
  // Growth
  // ---------------------------------------------------------------------

  /** `1 + growthRate / 100`: the weekly growth factor for a percentage rate. */
  function Factor(growth: real): real
  {
    1.0 + growth / 100.0
  }

  function Pow(f: real, k: nat): real
  {
    if k == 0 then 1.0 else Pow(f, k - 1) * f
  }

  /** One week of `currentCases = currentCases * factor`. */
  function Grow(current: real, f: real): real
  {
    current * f
  }

  /** The case count after `k` weeks of compounding, in closed form. */
  function Projected(avg: real, f: real, k: nat): real
  {
    avg * Pow(f, k)
  }

  /** Compounding once more from week `k` reaches the closed form for week `k + 1`. */
  lemma ProjectedStep(avg: real, f: real, k: nat)
    ensures Grow(Projected(avg, f, k), f) == Projected(avg, f, k + 1)
  {
    assert Pow(f, k + 1) == Pow(f, k) * f;
  }

  lemma {:induction false} PowPositive(f: real, k: nat)
    requires f > 0.0
    ensures Pow(f, k) > 0.0
  {
    if k > 0 {
      PowPositive(f, k - 1);
    }
  }

  lemma {:induction false} PowOne(k: nat)
    ensures Pow(1.0, k) == 1.0
  {
    if k > 0 {
      PowOne(k - 1);
    }
  }

  lemma GrowsStrictly(p: real, f: real)
    requires p > 0.0 && f > 1.0
    ensures p < p * f
  {
  }

  lemma ShrinksStrictly(p: real, f: real)
    requires p > 0.0 && 0.0 < f < 1.0
    ensures p * f < p
  {
  }

  /**
    The projection follows the growth rate: with a positive baseline, a
    positive rate makes the weekly case count rise strictly, a rate between
    -100% and 0 makes it fall strictly, and a zero rate keeps it at the
    baseline.
  */
  lemma ProjectionTrend(avg: real, growth: real, k: nat)
    ensures growth == 0.0 ==> Projected(avg, Factor(growth), k) == avg
    ensures avg > 0.0 && growth > 0.0 ==>
      Projected(avg, Factor(growth), k) < Projected(avg, Factor(growth), k + 1)
    ensures avg > 0.0 && -100.0 < growth < 0.0 ==>
      Projected(avg, Factor(growth), k + 1) < Projected(avg, Factor(growth), k)
  {
    var f := Factor(growth);
    ProjectedStep(avg, f, k);
    if growth == 0.0 {
      PowOne(k);
    }
    if avg > 0.0 && f > 0.0 {
      PowPositive(f, k);
      var p := Projected(avg, f, k);
      assert p > 0.0;
      if growth > 0.0 {
        GrowsStrictly(p, f);
      } else if growth < 0.0 {
        ShrinksStrictly(p, f);
      }
    }
  }

  lemma KeepsRatio(a: real, pw: real, d: real)
    requires a != 0.0
    ensures (a * pw) * (d / a) == d * pw
  {
    var q := d / a;
    assert q * a == d;
    assert (a * pw) * q == pw * (q * a);
  }

  /**
    Projected demand grows from the baseline demand at the same rate as the
    cases: `currentCases * bedDaysPerCase` is the average demand compounded
    `k` times, and with a zero average case count it is zero every week.
  */
  lemma DemandFollowsBaseline(avgCases: real, avgDemand: real, f: real, k: nat)
    ensures avgCases != 0.0 ==>
      Projected(avgCases, f, k) * PerCase(avgDemand, avgCases) == Projected(avgDemand, f, k)
    ensures avgCases == 0.0 ==> Projected(avgCases, f, k) * PerCase(avgDemand, avgCases) == 0.0
  {
    if avgCases != 0.0 {
      KeepsRatio(avgCases, Pow(f, k), avgDemand);
    }
  }

  // ---------------------------------------------------------------------
  // One week of the projection
  // ---------------------------------------------------------------------

  /** `Math.round`: the nearest integer, halves rounding up. */
  function Round(x: real): (n: int)
    ensures (n as real) - 0.5 <= x < (n as real) + 0.5
  {
    (x + 0.5).Floor
  }

  /** Rounding does not reverse the order of two values. */
  lemma RoundMonotone(x: real, y: real)
    requires x <= y
    ensures Round(x) <= Round(y)
  {
  }

  /**
    A JavaScript number resulting from `(load / capacity) * 100`: finite,
    or the infinities and the `NaN` that a zero capacity produces.
  */
  datatype Ratio = Finite(value: real) | PosInf | NegInf | NaN

  function Utilisation(load: real, capacity: int): (u: Ratio)
    ensures capacity != 0 ==> u.Finite? && u.value * (capacity as real) == load * 100.0
    ensures capacity == 0 ==> (u == PosInf <==> load > 0.0) && (u == NegInf <==> load < 0.0) && (u == NaN <==> load == 0.0)
  {
    if capacity != 0 then Finite(load / (capacity as real) * 100.0)
    else if load > 0.0 then PosInf
    else if load < 0.0 then NegInf
    else NaN
  }

  /** `utilization > 100`: `Infinity` compares above, `NaN` and `-Infinity` do not. */
  predicate OverCapacity(u: Ratio)
  {
    u.PosInf? || (u.Finite? && u.value > 100.0)
  }

  lemma OverPositive(load: real, c: real, u: real)
    requires c > 0.0 && u * c == load * 100.0
    ensures u > 100.0 <==> load > c
  {
    if u > 100.0 {
      assert u * c > 100.0 * c;
    }
    if load > c {
      assert u * c > 100.0 * c;
    }
  }

  /**
    A week is critical exactly when the projected demand exceeds a positive
    capacity; with no capacity at all, exactly when there is any demand.
  */
  lemma OverCapacityMeans(load: real, capacity: int)
    ensures capacity > 0 ==> (OverCapacity(Utilisation(load, capacity)) <==> load > capacity as real)
    ensures capacity == 0 ==> (OverCapacity(Utilisation(load, capacity)) <==> load > 0.0)
  {
    if capacity > 0 {
      OverPositive(load, capacity as real, Utilisation(load, capacity).value);
    }
  }

  datatype WeekProjection = WeekProjection(
    week: int,
    cases: int,
    bedDays: int,
    icuRequired: int,
    bedCapacity: int,
    icuCapacity: int,
    bedUtilization: Ratio,
    icuUtilization: Ratio)

  /** The entry pushed for `week` once the case count has been compounded to `current`. */
  function WeekAt(week: int, current: real, b: Baseline, p: Parameters): WeekProjection
  {
    var bedDays := current * PerCase(b.avgBedDays, b.avgCases);
    var icu := current * PerCase(b.avgIcu, b.avgCases);
    WeekProjection(week, Round(current), Round(bedDays), Round(icu), p.beds, p.icu,
                   Utilisation(bedDays, p.beds), Utilisation(icu, p.icu))
  }

  /** Week `k` of the projection, with the case count in closed form. */
  function ProjectionOf(b: Baseline, p: Parameters, k: nat): WeekProjection
  {
    WeekAt(k, Projected(b.avgCases, Factor(p.growth), k), b, p)
  }

  /**
    The simulation loop. Compounding week by week yields, for every week,
    the entry the closed form gives; the weeks are numbered from one.
  */
  method Project(b: Baseline, p: Parameters) returns (weeks: seq<WeekProjection>)
    ensures |weeks| == Horizon(p)
    ensures forall k :: 0 <= k < |weeks| ==> weeks[k] == ProjectionOf(b, p, k + 1) && weeks[k].week == k + 1
    ensures b.avgCases >= 0.0 && p.growth >= 0.0 ==>
      forall k :: 0 <= k < |weeks| - 1 ==> weeks[k].cases <= weeks[k + 1].cases
  {
    var f := Factor(p.growth);
    var current := b.avgCases;
    weeks := [];
    var week := 1;
    assert current == Projected(b.avgCases, f, 0);
    while week <= p.weeks
      invariant 1 <= week <= Horizon(p) + 1
      invariant |weeks| == week - 1
      invariant current == Projected(b.avgCases, f, week - 1)
      invariant forall k :: 0 <= k < |weeks| ==> weeks[k] == ProjectionOf(b, p, k + 1)
    {
      ProjectedStep(b.avgCases, f, week - 1);
      current := Grow(current, f);
      weeks := weeks + [WeekAt(week, current, b, p)];
      week := week + 1;
    }
    if b.avgCases >= 0.0 && p.growth >= 0.0 {
      forall k | 0 <= k < |weeks| - 1
        ensures weeks[k].cases <= weeks[k + 1].cases
      {
        CasesNeverFall(b, p, k + 1);
      }
    }
  }

  /**
    With a non-negative baseline and a growth rate of at least 0%, the
    weekly case counts the simulator stores never fall from one week to the
    next, although rounding may keep them level.
  */
  lemma {:induction false} CasesNeverFall(b: Baseline, p: Parameters, k: nat)
    requires b.avgCases >= 0.0 && p.growth >= 0.0
    ensures ProjectionOf(b, p, k).cases <= ProjectionOf(b, p, k + 1).cases
  {
    var f := Factor(p.growth);
    PowPositive(f, k);
    ProjectedStep(b.avgCases, f, k);
    var now := Projected(b.avgCases, f, k);
    assert now >= 0.0;
    assert now <= Grow(now, f);
    RoundMonotone(now, Projected(b.avgCases, f, k + 1));
  }

  // ---------------------------------------------------------------------
  // Critical weeks
  // ---------------------------------------------------------------------

  datatype Resource = Beds | Icu

  function UtilisationOf(w: WeekProjection, r: Resource): Ratio
  {
    match r
    case Beds => w.bedUtilization
    case Icu => w.icuUtilization
  }

  predicate Critical(w: WeekProjection, r: Resource)
  {
    OverCapacity(UtilisationOf(w, r))
  }

  /** `simulation.find(s => s.utilization > 100)`, as the position of the week found. */
  function FirstCritical(weeks: seq<WeekProjection>, r: Resource): (found: Option<nat>)
    ensures found.None? <==> forall k :: 0 <= k < |weeks| ==> !Critical(weeks[k], r)
    ensures found.Some? ==> found.value < |weeks| && Critical(weeks[found.value], r)
    ensures found.Some? ==> forall k :: 0 <= k < found.value ==> !Critical(weeks[k], r)
  {
    if |weeks| == 0 then None
    else if Critical(weeks[0], r) then Some(0)
    else
      var rest := FirstCritical(weeks[1..], r);
      assert forall k :: 1 <= k < |weeks| ==> weeks[k] == weeks[1..][k - 1];
      if rest.None? then None else Some(rest.value + 1)
  }

  // ---------------------------------------------------------------------
  // The run
  // ---------------------------------------------------------------------

  datatype SimError = MissingSelection | NoHistory

  datatype Simulation = Simulation(
    district: string,
    disease: string,
    weeks: seq<WeekProjection>,
    parameters: Parameters,
    baseline: Baseline)

  /**
    `handleRunSimulation`: both selections are required; the selection must
    have history in the whole dataset; then the baseline is taken over that
    history and the projection runs for the requested horizon.
  */
  method RunSimulation(rows: seq<Record>, inputs: Inputs) returns (result: Result<Simulation, SimError>)
    ensures result == Failure(MissingSelection) <==> inputs.district == "" || inputs.disease == ""
    ensures result == Failure(NoHistory) <==>
      inputs.district != "" && inputs.disease != "" && |History(rows, inputs.district, inputs.disease)| == 0
    ensures result.Success? ==>
      var history := History(rows, inputs.district, inputs.disease);
      |history| > 0 &&
      result.value.district == inputs.district && result.value.disease == inputs.disease &&
      result.value.parameters == ParametersOf(inputs) &&
      result.value.baseline == BaselineOf(history) &&
      |result.value.weeks| == Horizon(ParametersOf(inputs)) &&
      forall k :: 0 <= k < |result.value.weeks| ==>
        result.value.weeks[k] == ProjectionOf(BaselineOf(history), ParametersOf(inputs), k + 1)
  {
    if inputs.district == "" || inputs.disease == "" {
      return Failure(MissingSelection);
    }
    var p := ParametersOf(inputs);
    var history := History(rows, inputs.district, inputs.disease);
    if |history| == 0 {
      return Failure(NoHistory);
    }
    var b := BaselineOf(history);
    var weeks := Project(b, p);
    result := Success(Simulation(inputs.district, inputs.disease, weeks, p, b));
  }
}
