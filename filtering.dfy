/** The filter engine of the dashboard (`filterData` in src/data-utils.js). */
module Filtering {
  import opened Collections
  import opened Records

  /** How the table groups rows; the currency filter only applies in the
      construct view. */
  datatype ViewMode = ConstructView | ServiceView

  /** The filter state the presentation layer passes in. An omitted, `null` or
      empty field is the empty string here (all of them are falsy in the source).
      `date` is carried but not used for filtering. */
  datatype FilterSpec = FilterSpec(
    category: string,
    market: string,
    service: string,
    currency: string,
    viewMode: ViewMode,
    month: string,
    date: string)

  /** A categorical constraint is active when it is set and not `"All"`. */
  predicate Active(value: string)
  {
    value != "" && value != "All"
  }

  predicate Matches(f: FilterSpec, r: Row)
  {
    (!Active(f.category) || r.category == f.category) &&
    (!Active(f.market) || r.market == f.market) &&
    (!Active(f.service) || r.service == f.service) &&
    (!(f.viewMode == ConstructView && Active(f.currency)) || r.currency == f.currency) &&
    (f.month == "" || YearMonth(r.date) == f.month)
  }

  function MatchesFn(f: FilterSpec): Row -> bool
  {
    (row: Row) => Matches(f, row)
  }

  /** `filterData`: the rows that meet every active constraint, in input order. */
  function Filter(data: seq<Row>, f: FilterSpec): (r: seq<Row>)
  {
    Where(data, MatchesFn(f))
  }

  /** The result is an order-preserving subsequence of the input, every kept row
      meets each active constraint, and every input row that meets them all is
      kept, as often as it occurs. */
  lemma FilterCharacterised(data: seq<Row>, f: FilterSpec)
    ensures IsSubseq(Filter(data, f), data)
    ensures forall r :: r in Filter(data, f) ==>
              r in data &&
              (Active(f.category) ==> r.category == f.category) &&
              (Active(f.market) ==> r.market == f.market) &&
              (Active(f.service) ==> r.service == f.service) &&
              (f.viewMode == ConstructView && Active(f.currency) ==> r.currency == f.currency) &&
              (f.month != "" ==> YearMonth(r.date) == f.month)
    ensures forall r :: r in data && Matches(f, r) ==>
              multiset(Filter(data, f))[r] == multiset(data)[r]
  {
    WhereSubseq(data, MatchesFn(f));
    forall r | r in data && Matches(f, r)
      ensures multiset(Filter(data, f))[r] == multiset(data)[r]
    {
      WhereMultiset(data, MatchesFn(f), r);
    }
  }

  /** With every categorical field `"All"` (or omitted) and no month, filtering
      is the identity, whatever the view mode and date. */
  lemma FilterAllIsIdentity(data: seq<Row>, f: FilterSpec)
    requires !Active(f.category) && !Active(f.market) && !Active(f.service)
    requires !Active(f.currency) && f.month == ""
    ensures Filter(data, f) == data
  {
    WhereAll(data, MatchesFn(f));
  }

  /** In the service view the currency field of the filter has no effect. */
  lemma FilterIgnoresCurrencyInServiceView(data: seq<Row>, f: FilterSpec, currency: string)
    requires f.viewMode == ServiceView
    ensures Filter(data, f) == Filter(data, f.(currency := currency))
  {
    WhereCongruent(data, MatchesFn(f), MatchesFn(f.(currency := currency)));
  }

  /** The selected date never constrains the filtered rows. */
  lemma FilterIgnoresDate(data: seq<Row>, f: FilterSpec, date: string)
    ensures Filter(data, f) == Filter(data, f.(date := date))
  {
    WhereCongruent(data, MatchesFn(f), MatchesFn(f.(date := date)));
  }
}
