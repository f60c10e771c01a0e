/** The metadata summary written beside the data file (`generateMetadata` in
    scripts/fetch_sheet.js): the row count, the date range and the distinct
    values of each filter dimension. */
module Metadata {
  import opened Collections
  import opened Records
  import opened Dimensions

  /** `dateRange`: both ends are `undefined` (None) for an empty data set. */
  datatype DateRange = DateRange(min: Option<string>, max: Option<string>)

  datatype Summary = Summary(
    lastUpdated: string,
    rowCount: nat,
    dateRange: DateRange,
    categories: seq<string>,
    markets: seq<string>,
    services: seq<string>,
    currencies: seq<string>)

  function Dates(data: seq<Row>): (dates: seq<string>)
    ensures |dates| == |data| && forall i :: 0 <= i < |data| ==> dates[i] == data[i].date
  {
    seq(|data|, i requires 0 <= i < |data| => data[i].date)
  }

  /** The first and last element of the sorted dates. Duplicates do not move
      either end, so the distinct dates serve. */
  function DateRangeOf(data: seq<Row>): (r: DateRange)
    ensures r.min.None? <==> data == []
    ensures r.max.None? <==> data == []
    ensures r.min.Some? ==>
              (exists i :: 0 <= i < |data| && data[i].date == r.min.value) &&
              forall i :: 0 <= i < |data| ==> data[i].date == r.min.value || Less(r.min.value, data[i].date)
    ensures r.max.Some? ==>
              (exists i :: 0 <= i < |data| && data[i].date == r.max.value) &&
              forall i :: 0 <= i < |data| ==> data[i].date == r.max.value || Less(data[i].date, r.max.value)
  {
    var dates := Dates(data);
    var sorted := SortedDistinct(dates);
    assert forall i :: 0 <= i < |data| ==> data[i].date in sorted;
    assert data != [] ==> data[0].date in sorted;
    DateRange(Earliest(sorted), Latest(sorted))
  }

  /** `generateMetadata`, with the clock reading `now` passed in: the values of
      each dimension are those of `getUniqueValues`. */
  function GenerateMetadata(data: seq<Row>, now: string): (m: Summary)
    ensures m.lastUpdated == now && m.rowCount == |data|
    ensures StrictlyAscending(m.categories) && StrictlyAscending(m.markets)
    ensures StrictlyAscending(m.services) && StrictlyAscending(m.currencies)
    ensures forall x :: x in m.categories <==> x != "" && exists i :: 0 <= i < |data| && data[i].category == x
    ensures forall x :: x in m.markets <==> x != "" && exists i :: 0 <= i < |data| && data[i].market == x
    ensures forall x :: x in m.services <==> x != "" && exists i :: 0 <= i < |data| && data[i].service == x
    ensures forall x :: x in m.currencies <==> x != "" && exists i :: 0 <= i < |data| && data[i].currency == x
  {
    Summary(
      lastUpdated := now,
      rowCount := |data|,
      dateRange := DateRangeOf(data),
      categories := Categories(data),
      markets := Markets(data),
      services := Services(data),
      currencies := Currencies(data))
  }

  /** The sorted distinct non-empty categories. */
  function Categories(data: seq<Row>): (r: seq<string>)
    ensures StrictlyAscending(r)
    ensures forall x :: x in r <==> x != "" && exists i :: 0 <= i < |data| && data[i].category == x
  {
    UniqueValues(data, CategoryField)
  }

  /** The sorted distinct non-empty markets. */
  function Markets(data: seq<Row>): (r: seq<string>)
    ensures StrictlyAscending(r)
    ensures forall x :: x in r <==> x != "" && exists i :: 0 <= i < |data| && data[i].market == x
  {
    UniqueValues(data, MarketField)
  }

  /** The sorted distinct non-empty services. */
  function Services(data: seq<Row>): (r: seq<string>)
    ensures StrictlyAscending(r)
    ensures forall x :: x in r <==> x != "" && exists i :: 0 <= i < |data| && data[i].service == x
  {
    UniqueValues(data, ServiceField)
  }

  /** The sorted distinct non-empty currencies. */
  function Currencies(data: seq<Row>): (r: seq<string>)
    ensures StrictlyAscending(r)
    ensures forall x :: x in r <==> x != "" && exists i :: 0 <= i < |data| && data[i].currency == x
  {
    UniqueValues(data, CurrencyField)
  }

  /** The range is never inverted. */
  lemma DateRangeOrdered(data: seq<Row>)
    requires data != []
    ensures var r := DateRangeOf(data);
            r.min.value == r.max.value || Less(r.min.value, r.max.value)
  {
    var r := DateRangeOf(data);
    var i :| 0 <= i < |data| && data[i].date == r.max.value;
    assert data[i].date == r.min.value || Less(r.min.value, data[i].date);
  }

  /** The range depends on the set of dates alone: reordering, repeating or
      dropping rows whose dates remain present does not change it. */
  lemma DateRangeDependsOnDateSet(a: seq<Row>, b: seq<Row>)
    requires forall d :: d in Dates(a) <==> d in Dates(b)
    ensures DateRangeOf(a) == DateRangeOf(b)
  {
    AscendingUnique(SortedDistinct(Dates(a)), SortedDistinct(Dates(b)));
    assert a == [] <==> Dates(a) == [];
    assert b == [] <==> Dates(b) == [];
    assert Dates(a) != [] ==> Dates(a)[0] in Dates(b);
    assert Dates(b) != [] ==> Dates(b)[0] in Dates(a);
  }
}
