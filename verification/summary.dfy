/** The headline figures shown above the charts for the filtered rows. */
module SummaryStats {
  import opened Wrappers
  import opened Seqs
  import opened Records

  datatype Summary = Summary(
    totalCases: real,
    totalBedDays: real,
    totalIcu: real,
    avgTrend: real,
    districtCount: nat,
    diseaseCount: nat)

  /** The distinct district cells; an absent district counts as one more value, as in `new Set(...)`. */
  function DistrictsOf(rows: seq<Record>): (cells: set<Option<string>>)
    ensures |cells| <= |rows|
    ensures forall c :: c in cells <==> exists r :: r in rows && r.district == c
  {
    if |rows| == 0 then {}
    else
      var rest := DistrictsOf(rows[1..]);
      assert forall r :: r in rows <==> r == rows[0] || r in rows[1..];
      {rows[0].district} + rest
  }

  function DiseasesOf(rows: seq<Record>): (cells: set<Option<string>>)
    ensures |cells| <= |rows|
    ensures forall c :: c in cells <==> exists r :: r in rows && r.disease == c
  {
    if |rows| == 0 then {}
    else
      var rest := DiseasesOf(rows[1..]);
      assert forall r :: r in rows <==> r == rows[0] || r in rows[1..];
      {rows[0].disease} + rest
  }

  lemma DistinctCellsPresent(rows: seq<Record>)
    ensures |rows| > 0 ==> |DistrictsOf(rows)| >= 1 && |DiseasesOf(rows)| >= 1
  {
    if |rows| > 0 {
      assert rows[0] in rows;
      assert rows[0].district in DistrictsOf(rows);
      assert rows[0].disease in DiseasesOf(rows);
    }
  }

  /**
    Totals count a missing cell as zero; the average trend also counts a
    missing trend as zero and divides by the number of rows (zero rows give 0).
  */
  function Summarize(rows: seq<Record>): (s: Summary)
    ensures |rows| == 0 ==> s == Summary(0.0, 0.0, 0.0, 0.0, 0, 0)
    ensures s.avgTrend == MeanOf(Total(rows, CasesTrend4w), |rows|)
    ensures |rows| == 1 ==>
      s.totalCases == Value(rows[0], Cases) && s.totalBedDays == Value(rows[0], BedDays) &&
      s.totalIcu == Value(rows[0], IcuRequired)
    ensures s.districtCount == |DistrictsOf(rows)| && s.diseaseCount == |DiseasesOf(rows)|
    ensures |rows| > 0 ==> 1 <= s.districtCount <= |rows| && 1 <= s.diseaseCount <= |rows|
  {
    DistinctCellsPresent(rows);
    assert |rows| == 1 ==> forall m :: Total(rows, m) == Value(rows[0], m) by {
      if |rows| == 1 {
        forall m ensures Total(rows, m) == Value(rows[0], m) {
          assert SumOf(rows[1..], ValueOf(m)) == 0.0;
          assert ValueOf(m)(rows[0]) == Value(rows[0], m);
        }
      }
    }
    Summary(
      Total(rows, Cases),
      Total(rows, BedDays),
      Total(rows, IcuRequired),
      MeanOf(Total(rows, CasesTrend4w), |rows|),
      |DistrictsOf(rows)|,
      |DiseasesOf(rows)|)
  }

  /** Reordering the rows changes none of the headline figures. */
  lemma SummaryOrderIndependent(a: seq<Record>, b: seq<Record>)
    requires multiset(a) == multiset(b)
    ensures Summarize(a) == Summarize(b)
  {
    assert |a| == |multiset(a)| == |multiset(b)| == |b|;
    forall m: Measure
      ensures Total(a, m) == Total(b, m)
    {
      SumOfPermutation(a, b, ValueOf(m));
    }
    assert forall r :: r in a <==> r in b by {
      forall r ensures r in a <==> r in b {
        assert r in a <==> r in multiset(a);
        assert r in b <==> r in multiset(b);
      }
    }
    assert DistrictsOf(a) == DistrictsOf(b);
    assert DiseasesOf(a) == DiseasesOf(b);
  }

  /** The totals of two batches of rows add up. */
  lemma SummaryTotalsAdd(a: seq<Record>, b: seq<Record>)
    ensures Summarize(a + b).totalCases == Summarize(a).totalCases + Summarize(b).totalCases
    ensures Summarize(a + b).totalBedDays == Summarize(a).totalBedDays + Summarize(b).totalBedDays
    ensures Summarize(a + b).totalIcu == Summarize(a).totalIcu + Summarize(b).totalIcu
  {
    SumOfAppend(a, b, ValueOf(Cases));
    SumOfAppend(a, b, ValueOf(BedDays));
    SumOfAppend(a, b, ValueOf(IcuRequired));
  }
}
