/**
  The surveillance record and the conventions every view shares: how a
  missing numeric cell is read (`d.Cases || 0`), the (year, week) period
  key and its order, the falsy-string rule for district and disease, and
  the ingest rule that admits a parsed CSV row into the dataset.
*/
module Records {
  import opened Wrappers
  import opened Seqs
  import opened Sorting

  /**
    One parsed CSV row. Numeric cells are optional (`null`/absent when the
    cell was empty); `week` is `week_of_outbreak`, `month` is `mon`,
    `disease` is `Disease_Clean`.
  */
  datatype Record = Record(
    district: Option<string>,
    disease: Option<string>,
    year: int,
    week: int,
    month: Option<int>,
    cases: Option<real>,
    bedDays: Option<real>,
    icuRequired: Option<real>,
    casesMA3w: Option<real>,
    casesTrend4w: Option<real>,
    casesLag1w: Option<real>,
    seasonalityIndex: Option<real>)

  /** The numeric columns a chart can select (`Cases`, `Bed_Days`, `ICU_Required`, `Cases_MA_3w`, `Cases_trend_4w`). */
  datatype Measure = Cases | BedDays | IcuRequired | CasesMA3w | CasesTrend4w

  function Field(r: Record, m: Measure): Option<real>
  {
    match m
    case Cases => r.cases
    case BedDays => r.bedDays
    case IcuRequired => r.icuRequired
    case CasesMA3w => r.casesMA3w
    case CasesTrend4w => r.casesTrend4w
  }

  /** `d[m] || 0`: a missing cell counts as zero (a present zero is zero anyway). */
  function Value(r: Record, m: Measure): real
  {
    Field(r, m).GetOr(0.0)
  }

  function ValueOf(m: Measure): Record -> real
  {
    r => Value(r, m)
  }

  /** `rows.reduce((sum, d) => sum + (d[m] || 0), 0)`. */
  function Total(rows: seq<Record>, m: Measure): real
  {
    SumOf(rows, ValueOf(m))
  }

  /** `count > 0 ? sum / count : 0`: the per-row mean of a sum, zero for no rows. */
  function MeanOf(sum: real, count: nat): (mean: real)
    ensures count > 0 ==> mean * (count as real) == sum
    ensures count == 0 ==> mean == 0.0
  {
    if count > 0 then sum / (count as real) else 0.0
  }

  /**
    The value a chart shows for a set of rows under a selected measure: the
    sum for `Cases`, `Bed_Days` and `ICU_Required`, the per-row mean (sum
    over row count, missing cells as zero) for `Cases_MA_3w` and `Cases_trend_4w`.
  */
  function MetricOver(rows: seq<Record>, m: Measure): real
  {
    match m
    case CasesMA3w => MeanOf(Total(rows, m), |rows|)
    case CasesTrend4w => MeanOf(Total(rows, m), |rows|)
    case _ => Total(rows, m)
  }

  /** Some row has the optional cell defined. */
  predicate AnyDefined(rows: seq<Record>, cell: Record -> Option<real>)
  {
    exists j :: 0 <= j < |rows| && cell(rows[j]).Some?
  }

  /** `if (cell(d) != null) list.push(cell(d))` over the rows: the defined values in row order. */
  function Defined(rows: seq<Record>, cell: Record -> Option<real>): (values: seq<real>)
    ensures |values| <= |rows|
    ensures |values| > 0 <==> AnyDefined(rows, cell)
  {
    if |rows| == 0 then []
    else
      var rest := Defined(rows[1..], cell);
      assert AnyDefined(rows[1..], cell) ==> AnyDefined(rows, cell) by {
        if AnyDefined(rows[1..], cell) {
          var j :| 0 <= j < |rows[1..]| && cell(rows[1..][j]).Some?;
          assert rows[j + 1] == rows[1..][j];
        }
      }
      assert AnyDefined(rows, cell) && cell(rows[0]).None? ==> AnyDefined(rows[1..], cell) by {
        if AnyDefined(rows, cell) && cell(rows[0]).None? {
          var j :| 0 <= j < |rows| && cell(rows[j]).Some?;
          assert rows[1..][j - 1] == rows[j];
        }
      }
      (if cell(rows[0]).Some? then [cell(rows[0]).value] else []) + rest
  }

  /** The rows that define the optional cell. */
  function DefinesCell(cell: Record -> Option<real>): Record -> bool
  {
    r => cell(r).Some?
  }

  /**
    The defined values are exactly the cells of the rows that define them,
    one per such row and in row order: value `i` is the cell of the `i`-th
    row that has one.
  */
  lemma {:induction false} DefinedCells(rows: seq<Record>, cell: Record -> Option<real>)
    ensures |Defined(rows, cell)| == |Filter(rows, DefinesCell(cell))|
    ensures forall i :: 0 <= i < |Defined(rows, cell)| ==>
      Some(Defined(rows, cell)[i]) == cell(Filter(rows, DefinesCell(cell))[i])
  {
    if |rows| > 0 {
      DefinedCells(rows[1..], cell);
      var r := rows[0];
      if cell(r).Some? {
        assert Defined(rows, cell) == [cell(r).value] + Defined(rows[1..], cell);
        assert Filter(rows, DefinesCell(cell)) == [r] + Filter(rows[1..], DefinesCell(cell));
      } else {
        assert Defined(rows, cell) == Defined(rows[1..], cell);
        assert Filter(rows, DefinesCell(cell)) == Filter(rows[1..], DefinesCell(cell));
      }
    }
  }

  function Identity(x: real): real
  {
    x
  }

  /** `xs.reduce((a, b) => a + b, 0) / xs.length` when there is something to average, `null` otherwise. */
  function Average(xs: seq<real>): (avg: Option<real>)
    ensures avg.None? <==> |xs| == 0
    ensures avg.Some? ==> avg.value * (|xs| as real) == SumOf(xs, Identity)
  {
    if |xs| > 0 then Some(MeanOf(SumOf(xs, Identity), |xs|)) else None
  }

  /** The `year-Wweek` key of the weekly views; the label string is a one-to-one rendering of the pair. */
  datatype Period = Period(year: int, week: int)

  function PeriodOf(r: Record): Period
  {
    Period(r.year, r.week)
  }

  /** The comparator `a.year - b.year`, then `a.week - b.week`, is negative. */
  predicate PeriodBefore(a: Period, b: Period)
  {
    a.year < b.year || (a.year == b.year && a.week < b.week)
  }

  lemma PeriodBeforeIsStrictTotalOrder()
    ensures StrictTotalOrder(PeriodBefore)
  {
  }

  /** The rows of one period, in their original order. */
  function RowsIn(rows: seq<Record>, p: Period): seq<Record>
  {
    Filter(rows, KeyIs(PeriodOf, p))
  }

  /** JavaScript truthiness of a string cell: present and non-empty. */
  predicate Present(s: Option<string>)
  {
    s.Some? && s.value != ""
  }

  /** The district as a grouping key; only used on rows whose district is present. */
  function DistrictKey(r: Record): string
  {
    if r.district.Some? then r.district.value else ""
  }

  /** `d.Disease_Clean || 'Unknown'`. */
  function DiseaseLabel(r: Record): string
  {
    if Present(r.disease) then r.disease.value else "Unknown"
  }

  /** A row as delivered by the CSV parser: the header names it carries, and its cells. */
  datatype CsvRow = CsvRow(columns: set<string>, record: Record)

  /** The ingest rule `'Cases' in row`. */
  predicate HasCasesColumn(row: CsvRow)
  {
    "Cases" in row.columns
  }

  function RecordsOf(rows: seq<CsvRow>): (records: seq<Record>)
    ensures |records| == |rows|
    ensures forall i :: 0 <= i < |rows| ==> records[i] == rows[i].record
  {
    if |rows| == 0 then [] else [rows[0].record] + RecordsOf(rows[1..])
  }

  /** The dataset is built from the parsed rows that carry a `Cases` column, and only from those. */
  function Ingest(rows: seq<CsvRow>): (records: seq<Record>)
    ensures |records| <= |rows|
    ensures forall r :: r in records <==> exists i :: 0 <= i < |rows| && HasCasesColumn(rows[i]) && rows[i].record == r
  {
    var kept := Filter(rows, HasCasesColumn);
    FilterMembership(rows, HasCasesColumn);
    FilterLength(rows, HasCasesColumn);
    var records := RecordsOf(kept);
    forall r
      ensures r in records <==> exists i :: 0 <= i < |rows| && HasCasesColumn(rows[i]) && rows[i].record == r
    {
      if r in records {
        var j :| 0 <= j < |kept| && kept[j].record == r;
        assert kept[j] in kept;
        assert kept[j] in rows;
        var i :| 0 <= i < |rows| && rows[i] == kept[j];
      }
      if exists i :: 0 <= i < |rows| && HasCasesColumn(rows[i]) && rows[i].record == r {
        var i :| 0 <= i < |rows| && HasCasesColumn(rows[i]) && rows[i].record == r;
        assert rows[i] in rows;
        assert rows[i] in kept;
        var j :| 0 <= j < |kept| && kept[j] == rows[i];
        assert records[j] == r;
      }
    }
    records
  }

  /**
    Ingest works row by row and keeps the order: it distributes over
    concatenation, and a single row is kept exactly when it has `Cases`.
  */
  lemma IngestRowByRow(a: seq<CsvRow>, b: seq<CsvRow>, row: CsvRow)
    ensures Ingest(a + b) == Ingest(a) + Ingest(b)
    ensures Ingest([row]) == if HasCasesColumn(row) then [row.record] else []
  {
    FilterAppend(a, b, HasCasesColumn);
    RecordsOfAppend(Filter(a, HasCasesColumn), Filter(b, HasCasesColumn));
    assert [row][1..] == [];
    assert Filter([row], HasCasesColumn) == if HasCasesColumn(row) then [row] else [];
    assert RecordsOf([row]) == [row.record];
  }

  lemma {:induction false} RecordsOfAppend(a: seq<CsvRow>, b: seq<CsvRow>)
    ensures RecordsOf(a + b) == RecordsOf(a) + RecordsOf(b)
  {
    assert forall i :: 0 <= i < |a| ==> (a + b)[i] == a[i];
    assert forall i :: |a| <= i < |a| + |b| ==> (a + b)[i] == b[i - |a|];
  }
}
