/** The dashboard's filter: disease, district, year and month selections, each possibly "All". */
module Filtering {
  import opened Wrappers
  import opened Seqs
  import opened Records

  /** One drop-down selection: the wildcard "All", or a value the field must equal. */
  datatype Criterion<T> = All | Only(value: T)

  /** A text drop-down: the literal "All" is the wildcard, anything else must match exactly. */
  function TextCriterion(selected: string): (c: Criterion<string>)
    ensures c.All? <==> selected == "All"
    ensures forall cell :: Admits(c, cell) <==> selected == "All" || cell == Some(selected)
  {
    if selected == "All" then All else Only(selected)
  }

  /** A criterion passes a cell when it is the wildcard or the cell is present and equal (`===`). */
  predicate Admits<T(==)>(c: Criterion<T>, cell: Option<T>)
  {
    match c
    case All => true
    case Only(v) => cell.Some? && cell.value == v
  }

  datatype Criteria = Criteria(
    disease: Criterion<string>,
    district: Criterion<string>,
    year: Criterion<int>,
    month: Criterion<int>)

  /** A row passes when every non-"All" criterion matches (the month criterion tests the `mon` column). */
  predicate Matches(r: Record, c: Criteria)
  {
    && Admits(c.disease, r.disease)
    && Admits(c.district, r.district)
    && Admits(c.year, Some(r.year))
    && Admits(c.month, r.month)
  }

  function Matcher(c: Criteria): Record -> bool
  {
    r => Matches(r, c)
  }

  /**
    `rawData.filter(...)`: an order-preserving subsequence of the rows that
    keeps each matching row as often as it occurs and drops every row that
    fails some criterion.
  */
  function ApplyFilter(rows: seq<Record>, c: Criteria): (kept: seq<Record>)
    ensures IsSubsequence(kept, rows)
    ensures forall r :: multiset(kept)[r] == if Matches(r, c) then multiset(rows)[r] else 0
    ensures forall r :: r in kept <==> r in rows && Matches(r, c)
  {
    FilterIsSubsequence(rows, Matcher(c));
    FilterCounts(rows, Matcher(c));
    FilterMembership(rows, Matcher(c));
    Filter(rows, Matcher(c))
  }

  /**
    The drop-downs as `updateData` reads them: the disease and district
    values are compared as text, the year and month as the integers they
    parse to. A row survives exactly when each selection is "All" or equals
    the row's cell, and the survivors keep their order and multiplicity.
  */
  lemma SelectionFilter(rows: seq<Record>, disease: string, district: string, year: Criterion<int>, month: Criterion<int>)
    ensures var kept := ApplyFilter(rows, Criteria(TextCriterion(disease), TextCriterion(district), year, month));
      IsSubsequence(kept, rows) &&
      forall r :: r in kept <==>
        && r in rows
        && (disease == "All" || r.disease == Some(disease))
        && (district == "All" || r.district == Some(district))
        && Admits(year, Some(r.year))
        && Admits(month, r.month)
  {
  }

  /** Filtering the filtered rows again with the same criteria changes nothing. */
  lemma ApplyFilterIdempotent(rows: seq<Record>, c: Criteria)
    ensures ApplyFilter(ApplyFilter(rows, c), c) == ApplyFilter(rows, c)
  {
    FilterIdempotent(rows, Matcher(c));
  }

  /** With every selection at "All" the filter returns the dataset unchanged. */
  lemma ApplyFilterAllIsIdentity(rows: seq<Record>)
    ensures ApplyFilter(rows, Criteria(All, All, All, All)) == rows
  {
    FilterKeepsAll(rows, Matcher(Criteria(All, All, All, All)));
  }
}
