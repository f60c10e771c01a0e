/** The metrics calculator of the dashboard (src/data-utils.js): month lengths,
    the per-date KPI block of a group of rows, the month time series, the
    target-to-date pacing line and the three-band status colour. Amounts are
    `real`s; IEEE rounding is not modelled. */
module Metrics {
  import opened Collections
  import opened Records
  import opened Dimensions

  // ---------------------------------------------------------------------------
  // Month lengths
  // ---------------------------------------------------------------------------

  /** The JavaScript `Date` constructor reads a year from 0 to 99 as 1900-1999. */
  function ConstructorYear(year: int): int
  {
    if 0 <= year <= 99 then 1900 + year else year
  }

  predicate IsLeapYear(y: int)
  {
    y % 4 == 0 && (y % 100 != 0 || y % 400 == 0)
  }

  /** `new Date(year, month, 0).getDate()`: day 0 of the (zero-based) month
      `month` is the last day of the one-based month `month`; months outside
      1..12 roll over into neighbouring years. */
  function LastDayOfMonth(year: int, month: int): (d: int)
    ensures 28 <= d <= 31
    ensures 1 <= month <= 12 ==>
              (month == 2 ==> (d == 29 <==> IsLeapYear(ConstructorYear(year)))) &&
              (month == 4 || month == 6 || month == 9 || month == 11 ==> d == 30) &&
              (month != 2 && month != 4 && month != 6 && month != 9 && month != 11 ==> d == 31)
    ensures month == 0 ==> d == 31
  {
    var y := ConstructorYear(year) + (month - 1) / 12;
    var m := (month - 1) % 12 + 1;
    if m == 2 then (if IsLeapYear(y) then 29 else 28)
    else if m == 4 || m == 6 || m == 9 || m == 11 then 30
    else 31
  }

  /** `getDaysInMonth` applied to a `YYYY-MM` string. */
  function DaysInMonth(yearMonth: string): (d: int)
    requires IsYearMonth(yearMonth)
    ensures 28 <= d <= 31
    ensures var year := DigitsValue(yearMonth[..4]);
            var month := DigitsValue(yearMonth[5..]);
            1 <= month <= 12 ==>
              (month == 2 ==> (d == 29 <==> IsLeapYear(ConstructorYear(year)))) &&
              (month == 4 || month == 6 || month == 9 || month == 11 ==> d == 30) &&
              (month != 2 && month != 4 && month != 6 && month != 9 && month != 11 ==> d == 31)
    ensures DigitsValue(yearMonth[5..]) == 0 ==> d == 31
  {
    LastDayOfMonth(DigitsValue(yearMonth[..4]), DigitsValue(yearMonth[5..]))
  }

  // ---------------------------------------------------------------------------
  // Per-date metrics
  // ---------------------------------------------------------------------------

  /** The KPI block for one date of a group of rows. */
  datatype DateMetrics = DateMetrics(
    date: string,
    dayNumber: int,
    daysInMonth: int,
    mtdRevenue: real,
    monthTarget: real,
    percentToTarget: real,
    actualRunRate: real,
    requiredRunRate: real,
    totalBase: real,
    netAddsToday: real,
    dailyRevenueZAR: real,
    netAddsRevenueZAR: real)

  /** `rows.reduce((sum, row) => sum + f(row), 0)`. */
  function SumBy(rows: seq<Row>, f: Row -> real): real
    decreases |rows|
  {
    if rows == [] then 0.0 else SumBy(rows[..|rows| - 1], f) + f(rows[|rows| - 1])
  }

  function MonthRevenueOf(r: Row): real { r.monthRevenue }
  function MonthTargetOf(r: Row): real { r.monthTarget }
  function TotalSubsOf(r: Row): real { r.totalSubs }
  function NewSubsOf(r: Row): real { r.newSubs }
  /** A row's daily revenue converted at its own USD/ZAR rate. */
  function DailyRevenueZarOf(r: Row): real { r.dailyRevenue * r.usdZarRate }
  /** A row's new billed revenue converted at its own USD and USD/ZAR rates. */
  function NetAddsRevenueZarOf(r: Row): real { r.newBilledRevenue * r.usdRate * r.usdZarRate }

  function OnDate(date: string): Row -> bool
  {
    (r: Row) => r.date == date
  }

  /** `f` on the rows of `date`, zero on every other row. */
  function OnlyOn(date: string, f: Row -> real): Row -> real
  {
    (r: Row) => if r.date == date then f(r) else 0.0
  }

  /** Summing over the rows that satisfy `p` is summing, over all rows, a
      contribution that is zero where `p` fails. */
  lemma {:induction false} SumByWhere(rows: seq<Row>, p: Row -> bool, f: Row -> real, g: Row -> real)
    requires forall r :: g(r) == if p(r) then f(r) else 0.0
    ensures SumBy(Where(rows, p), f) == SumBy(rows, g)
    decreases |rows|
  {
    if rows != [] {
      var init := rows[..|rows| - 1];
      var last := rows[|rows| - 1];
      assert rows == init + [last];
      SumByWhere(init, p, f, g);
      if p(last) {
        assert (Where(init, p) + [last])[..|Where(init, p)|] == Where(init, p);
      }
    }
  }

  /** `Math.max(1, daysInMonth - dayNumber)`. */
  function RemainingDays(daysInMonth: int, dayNumber: int): (n: int)
    ensures n >= 1 && n >= daysInMonth - dayNumber
    ensures n == 1 || n == daysInMonth - dayNumber
  {
    if daysInMonth - dayNumber > 1 then daysInMonth - dayNumber else 1
  }

  /** Month-to-date revenue per elapsed day; zero when the day number is not
      positive. */
  function ActualRunRate(mtdRevenue: real, dayNumber: int): (rate: real)
    ensures dayNumber <= 0 ==> rate == 0.0
    ensures dayNumber > 0 ==> rate * (dayNumber as real) == mtdRevenue
  {
    if dayNumber > 0 then mtdRevenue / dayNumber as real else 0.0
  }

  /** The revenue per remaining day still needed to reach the target, never
      negative: zero once the target is reached. */
  function RequiredRunRate(monthTarget: real, mtdRevenue: real, remainingDays: int): (rate: real)
    requires remainingDays >= 1
    ensures rate >= 0.0
    ensures mtdRevenue >= monthTarget ==> rate == 0.0
    ensures mtdRevenue < monthTarget ==> rate * (remainingDays as real) == monthTarget - mtdRevenue
  {
    var shortfall := (monthTarget - mtdRevenue) / remainingDays as real;
    if shortfall > 0.0 then shortfall else 0.0
  }

  /** Month-to-date revenue as a percentage of the target; zero, not a
      division by zero, when the target is not positive. */
  function PercentToTarget(mtdRevenue: real, monthTarget: real): (pct: real)
    ensures monthTarget <= 0.0 ==> pct == 0.0
    ensures monthTarget > 0.0 ==> pct * monthTarget == mtdRevenue * 100.0
  {
    if monthTarget > 0.0 then (mtdRevenue / monthTarget) * 100.0 else 0.0
  }

  /** The rows of one date, in input order. */
  function DateRows(rows: seq<Row>, targetDate: string): (dr: seq<Row>)
    ensures dr == [] <==> forall i :: 0 <= i < |rows| ==> rows[i].date != targetDate
    ensures forall r :: r in dr ==> r.date == targetDate
    ensures dr != [] ==> exists i :: 0 <= i < |rows| && rows[i].date == targetDate && dr[0] == rows[i] &&
                                     forall j :: 0 <= j < i ==> rows[j].date != targetDate
  {
    var dr := Where(rows, OnDate(targetDate));
    assert forall i :: 0 <= i < |rows| && rows[i].date == targetDate ==> rows[i] in dr;
    assert dr != [] ==> dr[0] in dr;
    if dr != [] then WhereFirst(rows, OnDate(targetDate)); dr else dr
  }

  /** `calculateDateMetrics`: `null` (None) exactly when no row has the target
      date. The target date must be a `YYYY-MM-DD` string whenever some row has
      it. What the block holds is stated by `DateMetricsCharacterised`. */
  function CalculateDateMetrics(rows: seq<Row>, targetDate: string): (res: Option<DateMetrics>)
    requires IsDateString(targetDate) || forall i :: 0 <= i < |rows| ==> rows[i].date != targetDate
    ensures res.None? <==> forall i :: 0 <= i < |rows| ==> rows[i].date != targetDate
    ensures res.Some? ==> res.value.date == targetDate
  {
    var dateRows := DateRows(rows, targetDate);
    if dateRows == [] then None
    else
      var mtdRevenue := SumBy(dateRows, MonthRevenueOf);
      var monthTarget := SumBy(dateRows, MonthTargetOf);
      var totalBase := SumBy(dateRows, TotalSubsOf);
      var netAddsToday := SumBy(dateRows, NewSubsOf);
      var dailyRevenueZAR := SumBy(dateRows, DailyRevenueZarOf);
      var netAddsRevenueZAR := SumBy(dateRows, NetAddsRevenueZarOf);
      assert dateRows[0] in dateRows;
      var dayNumber := dateRows[0].monthDay;
      var daysInMonth := DaysInMonth(YearMonth(dateRows[0].date));
      var remainingDays := RemainingDays(daysInMonth, dayNumber);
      Some(DateMetrics(targetDate, dayNumber, daysInMonth, mtdRevenue, monthTarget,
                       PercentToTarget(mtdRevenue, monthTarget),
                       ActualRunRate(mtdRevenue, dayNumber),
                       RequiredRunRate(monthTarget, mtdRevenue, remainingDays),
                       totalBase, netAddsToday, dailyRevenueZAR, netAddsRevenueZAR))
  }

  /** The KPI block of a date that occurs: each total is the sum, over all the
      rows, of the row's contribution on that date (its own amounts, converted at
      its own rates) and zero on other dates; the day number is the month day of
      the first row of that date; the month length is that of the date's month;
      and the run rates and percentage follow their guarded definitions. */
  lemma DateMetricsCharacterised(rows: seq<Row>, targetDate: string)
    requires IsDateString(targetDate)
    requires exists i :: 0 <= i < |rows| && rows[i].date == targetDate
    ensures CalculateDateMetrics(rows, targetDate).Some?
    ensures var m := CalculateDateMetrics(rows, targetDate).value;
              && m.mtdRevenue == SumBy(rows, OnlyOn(targetDate, MonthRevenueOf))
              && m.monthTarget == SumBy(rows, OnlyOn(targetDate, MonthTargetOf))
              && m.totalBase == SumBy(rows, OnlyOn(targetDate, TotalSubsOf))
              && m.netAddsToday == SumBy(rows, OnlyOn(targetDate, NewSubsOf))
              && m.dailyRevenueZAR == SumBy(rows, OnlyOn(targetDate, DailyRevenueZarOf))
              && m.netAddsRevenueZAR == SumBy(rows, OnlyOn(targetDate, NetAddsRevenueZarOf))
              && (exists i :: 0 <= i < |rows| && rows[i].date == targetDate &&
                              m.dayNumber == rows[i].monthDay &&
                              forall j :: 0 <= j < i ==> rows[j].date != targetDate)
              && m.daysInMonth == DaysInMonth(YearMonth(targetDate))
              && m.actualRunRate == ActualRunRate(m.mtdRevenue, m.dayNumber)
              && m.requiredRunRate ==
                   RequiredRunRate(m.monthTarget, m.mtdRevenue, RemainingDays(m.daysInMonth, m.dayNumber))
              && m.percentToTarget == PercentToTarget(m.mtdRevenue, m.monthTarget)
  {
    var dateRows := DateRows(rows, targetDate);
    assert dateRows[0] in dateRows;
    SumByWhere(rows, OnDate(targetDate), MonthRevenueOf, OnlyOn(targetDate, MonthRevenueOf));
    SumByWhere(rows, OnDate(targetDate), MonthTargetOf, OnlyOn(targetDate, MonthTargetOf));
    SumByWhere(rows, OnDate(targetDate), TotalSubsOf, OnlyOn(targetDate, TotalSubsOf));
    SumByWhere(rows, OnDate(targetDate), NewSubsOf, OnlyOn(targetDate, NewSubsOf));
    SumByWhere(rows, OnDate(targetDate), DailyRevenueZarOf, OnlyOn(targetDate, DailyRevenueZarOf));
    SumByWhere(rows, OnDate(targetDate), NetAddsRevenueZarOf, OnlyOn(targetDate, NetAddsRevenueZarOf));
  }

  /** When every row of the date carries the same month day, that is the day
      number, whichever row comes first. */
  lemma DayNumberOfConsistentRows(rows: seq<Row>, targetDate: string, day: int)
    requires IsDateString(targetDate)
    requires forall i :: 0 <= i < |rows| && rows[i].date == targetDate ==> rows[i].monthDay == day
    requires exists i :: 0 <= i < |rows| && rows[i].date == targetDate
    ensures CalculateDateMetrics(rows, targetDate).value.dayNumber == day
  {
    DateMetricsCharacterised(rows, targetDate);
  }

  // ---------------------------------------------------------------------------
  // Month series
  // ---------------------------------------------------------------------------

  /** `calculateMonthMetrics`: one KPI block per distinct date of the month
      present in the rows, in ascending date order; none is dropped. */
  function CalculateMonthMetrics(rows: seq<Row>, yearMonth: string): (ms: seq<DateMetrics>)
    requires forall i :: 0 <= i < |rows| && YearMonth(rows[i].date) == yearMonth ==> IsDateString(rows[i].date)
    ensures forall i, j :: 0 <= i < j < |ms| ==> Less(ms[i].date, ms[j].date)
    ensures forall i :: 0 <= i < |ms| ==>
              IsDateString(ms[i].date) && YearMonth(ms[i].date) == yearMonth &&
              CalculateDateMetrics(rows, ms[i].date) == Some(ms[i])
    ensures forall k :: 0 <= k < |rows| && YearMonth(rows[k].date) == yearMonth ==>
              exists i :: 0 <= i < |ms| && ms[i].date == rows[k].date
    ensures |ms| == |DatesForMonth(rows, yearMonth)|
  {
    var dates := DatesForMonth(rows, yearMonth);
    var all := seq(|dates|, i requires 0 <= i < |dates| =>
                 MonthDatesAreDated(rows, yearMonth, dates);
                 CalculateDateMetrics(rows, dates[i]));
    var ms := Present(all);
    MonthSeriesFacts(rows, yearMonth, dates, all, ms);
    ms
  }

  lemma MonthSeriesFacts(rows: seq<Row>, yearMonth: string, dates: seq<string>,
                         all: seq<Option<DateMetrics>>, ms: seq<DateMetrics>)
    requires forall i :: 0 <= i < |rows| && YearMonth(rows[i].date) == yearMonth ==> IsDateString(rows[i].date)
    requires dates == DatesForMonth(rows, yearMonth)
    requires |all| == |dates|
    requires forall i :: 0 <= i < |dates| ==>
               (IsDateString(dates[i]) || forall k :: 0 <= k < |rows| ==> rows[k].date != dates[i]) &&
               all[i] == CalculateDateMetrics(rows, dates[i])
    requires ms == Present(all)
    ensures forall i, j :: 0 <= i < j < |ms| ==> Less(ms[i].date, ms[j].date)
    ensures forall i :: 0 <= i < |ms| ==>
              IsDateString(ms[i].date) && YearMonth(ms[i].date) == yearMonth &&
              CalculateDateMetrics(rows, ms[i].date) == Some(ms[i])
    ensures forall k :: 0 <= k < |rows| && YearMonth(rows[k].date) == yearMonth ==>
              exists i :: 0 <= i < |ms| && ms[i].date == rows[k].date
    ensures |ms| == |dates|
  {
    MonthDatesAreDated(rows, yearMonth, dates);
    MonthMetricsPresent(rows, dates, all);
    assert |ms| == |dates|;
    forall i | 0 <= i < |ms| ensures ms[i] == all[i].value && ms[i].date == dates[i] {
    }
    forall i, j | 0 <= i < j < |ms| ensures Less(ms[i].date, ms[j].date) {
      assert ms[i].date == dates[i] && ms[j].date == dates[j];
    }
    forall i | 0 <= i < |ms|
      ensures IsDateString(ms[i].date) && YearMonth(ms[i].date) == yearMonth &&
              CalculateDateMetrics(rows, ms[i].date) == Some(ms[i])
    {
      assert ms[i].date == dates[i];
    }
    forall k | 0 <= k < |rows| && YearMonth(rows[k].date) == yearMonth
      ensures exists i :: 0 <= i < |ms| && ms[i].date == rows[k].date
    {
      assert rows[k].date in dates;
      var i :| 0 <= i < |dates| && dates[i] == rows[k].date;
      assert ms[i].date == rows[k].date;
    }
  }

  lemma MonthDatesAreDated(rows: seq<Row>, yearMonth: string, dates: seq<string>)
    requires forall i :: 0 <= i < |rows| && YearMonth(rows[i].date) == yearMonth ==> IsDateString(rows[i].date)
    requires dates == DatesForMonth(rows, yearMonth)
    ensures forall i :: 0 <= i < |dates| ==>
              IsDateString(dates[i]) && YearMonth(dates[i]) == yearMonth &&
              exists k :: 0 <= k < |rows| && rows[k].date == dates[i]
    ensures forall k :: 0 <= k < |rows| && YearMonth(rows[k].date) == yearMonth ==> rows[k].date in dates
  {
    forall i | 0 <= i < |dates|
      ensures IsDateString(dates[i]) && YearMonth(dates[i]) == yearMonth &&
              exists k :: 0 <= k < |rows| && rows[k].date == dates[i]
    {
      assert dates[i] in dates;
    }
  }

  lemma MonthMetricsPresent(rows: seq<Row>, dates: seq<string>, all: seq<Option<DateMetrics>>)
    requires forall i :: 0 <= i < |dates| ==>
               IsDateString(dates[i]) && exists k :: 0 <= k < |rows| && rows[k].date == dates[i]
    requires |all| == |dates|
    requires forall i :: 0 <= i < |dates| ==> all[i] == CalculateDateMetrics(rows, dates[i])
    ensures forall i :: 0 <= i < |all| ==> all[i].Some? && all[i].value.date == dates[i]
  {
    forall i | 0 <= i < |all| ensures all[i].Some? && all[i].value.date == dates[i] {
      var k :| 0 <= k < |rows| && rows[k].date == dates[i];
    }
  }

  // ---------------------------------------------------------------------------
  // Pacing line and status colour
  // ---------------------------------------------------------------------------

  /** `calculateTargetToDate`: the month target spread evenly over the days of
      the month, up to `dayNumber`. */
  function TargetToDate(monthTarget: real, daysInMonth: int, dayNumber: int): (t: real)
    requires daysInMonth != 0
    ensures t * (daysInMonth as real) == monthTarget * (dayNumber as real)
    ensures dayNumber == 0 ==> t == 0.0
    ensures dayNumber == daysInMonth ==> t == monthTarget
  {
    (monthTarget / daysInMonth as real) * dayNumber as real
  }

  datatype StatusColor = Green | Amber | Red

  /** `getStatusColor`: green at or above 100 %, amber from 80 % up to 100 %,
      red below 80 %; ties go to the higher band. */
  function GetStatusColor(percentToTarget: real): (c: StatusColor)
    ensures c == Green <==> percentToTarget >= 100.0
    ensures c == Amber <==> 80.0 <= percentToTarget < 100.0
    ensures c == Red <==> percentToTarget < 80.0
  {
    if percentToTarget >= 100.0 then Green
    else if percentToTarget >= 80.0 then Amber
    else Red
  }

  // ---------------------------------------------------------------------------
  // Worked scenarios
  // ---------------------------------------------------------------------------

  /** The KPI block of a single row is that row's own figures. */
  lemma SingleRowMetrics(r: Row)
    requires IsDateString(r.date)
    ensures var dim := DaysInMonth(YearMonth(r.date));
            CalculateDateMetrics([r], r.date) ==
              Some(DateMetrics(r.date, r.monthDay, dim, r.monthRevenue, r.monthTarget,
                               PercentToTarget(r.monthRevenue, r.monthTarget),
                               ActualRunRate(r.monthRevenue, r.monthDay),
                               RequiredRunRate(r.monthTarget, r.monthRevenue, RemainingDays(dim, r.monthDay)),
                               r.totalSubs, r.newSubs, DailyRevenueZarOf(r), NetAddsRevenueZarOf(r)))
  {
    assert [r][..0] == [];
    assert DateRows([r], r.date) == [r];
    assert SumBy([r], MonthRevenueOf) == r.monthRevenue;
    assert SumBy([r], MonthTargetOf) == r.monthTarget;
    assert SumBy([r], TotalSubsOf) == r.totalSubs;
    assert SumBy([r], NewSubsOf) == r.newSubs;
    assert SumBy([r], DailyRevenueZarOf) == DailyRevenueZarOf(r);
    assert SumBy([r], NetAddsRevenueZarOf) == NetAddsRevenueZarOf(r);
  }

  /** February 2024 has 29 days: 2024 is a leap year. */
  lemma LeapFebruary2024()
    ensures DaysInMonth("2024-02") == 29
  {
    assert DigitsValue("2024") == 2024 by {
      assert "2024"[..3] == "202" && "202"[..2] == "20" && "20"[..1] == "2" && "2"[..0] == "";
    }
    assert DigitsValue("02") == 2 by { assert "02"[..1] == "0" && "0"[..0] == ""; }
    assert "2024-02"[..4] == "2024" && "2024-02"[5..] == "02";
  }

  /** Day 10 of February 2024 with 1000 of a 2000 target: the month has 29
      days, so 19 days remain, 100 a day has been earned and 1000/19 a day is
      still required. */
  lemma ScenarioFebruary2024(row: Row)
    requires row.date == "2024-02-10" && row.monthDay == 10
    requires row.monthRevenue == 1000.0 && row.monthTarget == 2000.0
    ensures var m := CalculateDateMetrics([row], row.date);
            m.Some? && m.value.daysInMonth == 29 && m.value.actualRunRate == 100.0 &&
            m.value.requiredRunRate == 1000.0 / 19.0 && m.value.percentToTarget == 50.0
  {
    assert IsDateString(row.date);
    SingleRowMetrics(row);
    assert YearMonth(row.date) == "2024-02";
    LeapFebruary2024();
    assert RemainingDays(29, 10) == 19;
    assert RequiredRunRate(2000.0, 1000.0, 19) == 1000.0 / 19.0;
  }

  /** Each row's revenue is converted at its own rate: 100 at 18.5 plus 50 at
      19.0 is 2800 rand, which neither rate applied to the 150 total gives. */
  lemma ScenarioPerRowExchangeRate(a: Row, b: Row)
    requires IsDateString(a.date) && b.date == a.date
    requires a.dailyRevenue == 100.0 && a.usdZarRate == 18.5
    requires b.dailyRevenue == 50.0 && b.usdZarRate == 19.0
    ensures var m := CalculateDateMetrics([a, b], a.date);
            m.Some? && m.value.dailyRevenueZAR == 2800.0 &&
            m.value.dailyRevenueZAR != (a.dailyRevenue + b.dailyRevenue) * a.usdZarRate &&
            m.value.dailyRevenueZAR != (a.dailyRevenue + b.dailyRevenue) * b.usdZarRate
  {
    var rows := [a, b];
    assert rows[0].date == a.date;
    DateMetricsCharacterised(rows, a.date);
    assert rows[..1] == [a] && [a][..0] == [];
    var g := OnlyOn(a.date, DailyRevenueZarOf);
    assert g(a) == 1850.0 && g(b) == 950.0;
    assert SumBy([a], g) == 1850.0;
    assert SumBy(rows, g) == 2800.0;
  }
}
