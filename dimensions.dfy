/** The dimension indexer of the dashboard (src/data-utils.js): sorted,
    de-duplicated lists of the categorical values, months and dates present in a
    record collection, and the latest month and date used as default filters. */
module Dimensions {
  import opened Collections
  import opened Records

  /** The categorical fields a filter drop-down is built from. */
  datatype Dimension = CategoryField | MarketField | ServiceField | CurrencyField

  function FieldOf(r: Row, field: Dimension): string
  {
    match field
    case CategoryField => r.category
    case MarketField => r.market
    case ServiceField => r.service
    case CurrencyField => r.currency
  }

  /** `getUniqueValues`: the distinct non-empty values of one field, ascending. */
  function UniqueValues(data: seq<Row>, field: Dimension): (r: seq<string>)
    ensures StrictlyAscending(r)
    ensures forall x :: x in r <==> x != "" && exists i :: 0 <= i < |data| && FieldOf(data[i], field) == x
  {
    var values := seq(|data|, i requires 0 <= i < |data| => FieldOf(data[i], field));
    assert forall i :: 0 <= i < |data| ==> values[i] == FieldOf(data[i], field);
    SortedDistinct(Where(values, (s: string) => s != ""))
  }

  /** `getAvailableMonths`: the distinct year-months of the records' dates,
      ascending. */
  function AvailableMonths(data: seq<Row>): (r: seq<string>)
    ensures StrictlyAscending(r)
    ensures forall x :: x in r <==> exists i :: 0 <= i < |data| && YearMonth(data[i].date) == x
  {
    var months := seq(|data|, i requires 0 <= i < |data| => YearMonth(data[i].date));
    assert forall i :: 0 <= i < |data| ==> months[i] == YearMonth(data[i].date);
    SortedDistinct(months)
  }

  /** `getDatesForMonth`: the distinct dates of the records whose year-month is
      `yearMonth`, ascending. */
  function DatesForMonth(data: seq<Row>, yearMonth: string): (r: seq<string>)
    ensures StrictlyAscending(r)
    ensures forall x :: x in r <==>
              YearMonth(x) == yearMonth && exists i :: 0 <= i < |data| && data[i].date == x
  {
    var inMonth := Where(data, (row: Row) => YearMonth(row.date) == yearMonth);
    var dates := seq(|inMonth|, i requires 0 <= i < |inMonth| => inMonth[i].date);
    assert forall i :: 0 <= i < |inMonth| ==> dates[i] == inMonth[i].date;
    forall x | YearMonth(x) == yearMonth && exists i :: 0 <= i < |data| && data[i].date == x
      ensures x in dates
    {
      var i :| 0 <= i < |data| && data[i].date == x;
      assert data[i] in inMonth;
      var k :| 0 <= k < |inMonth| && inMonth[k] == data[i];
      assert dates[k] == x;
    }
    forall x | x in dates
      ensures YearMonth(x) == yearMonth && exists i :: 0 <= i < |data| && data[i].date == x
    {
      var k :| 0 <= k < |dates| && dates[k] == x;
      assert inMonth[k] in data;
    }
    SortedDistinct(dates)
  }

  /** `getLatestDateInMonth`: the greatest date of the month, `null` when no
      record falls in it. */
  function LatestDateInMonth(data: seq<Row>, yearMonth: string): (r: Option<string>)
    ensures r.None? <==> forall i :: 0 <= i < |data| ==> YearMonth(data[i].date) != yearMonth
    ensures r.Some? ==>
              YearMonth(r.value) == yearMonth &&
              (exists i :: 0 <= i < |data| && data[i].date == r.value) &&
              forall i :: 0 <= i < |data| && YearMonth(data[i].date) == yearMonth ==>
                data[i].date == r.value || Less(data[i].date, r.value)
  {
    var dates := DatesForMonth(data, yearMonth);
    assert forall i :: 0 <= i < |data| && YearMonth(data[i].date) == yearMonth ==> data[i].date in dates;
    Latest(dates)
  }

  /** `getLatestMonth`: the greatest year-month present, `null` for no data. */
  function LatestMonth(data: seq<Row>): (r: Option<string>)
    ensures r.None? <==> data == []
    ensures r.Some? ==>
              (exists i :: 0 <= i < |data| && YearMonth(data[i].date) == r.value) &&
              forall i :: 0 <= i < |data| ==>
                YearMonth(data[i].date) == r.value || Less(YearMonth(data[i].date), r.value)
  {
    var months := AvailableMonths(data);
    assert forall i :: 0 <= i < |data| ==> YearMonth(data[i].date) in months;
    Latest(months)
  }
}
