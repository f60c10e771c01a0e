/** The canonical record that the normaliser produces and the metrics engine
    consumes, one per category × market × service × currency × date, with the
    date helpers the engine applies to it. Money amounts are `real`s. */
module Records {

  datatype Row = Row(
    category: string,
    market: string,
    service: string,
    monthDay: int,
    date: string,
    unsubscribed: real,
    activeSubs: real,
    newSubs: real,
    totalSubs: real,
    newPaid: real,
    renewalsPaid: real,
    totalPaid: real,
    currency: string,
    newBilledRevenue: real,
    renewalRevenue: real,
    usdRate: real,
    dailyRevenue: real,
    monthCumm: real,
    usdZarRate: real,
    monthRevenue: real,
    monthTarget: real,
    targetRunRate: real,
    actualRunRate: real,
    requiredRunRate: real)

  predicate IsDigit(c: char) { '0' <= c <= '9' }

  /** `YYYY-MM-DD`: four digits, a dash, two digits, a dash, two digits. */
  predicate IsDateString(s: string)
  {
    |s| == 10 && s[4] == '-' && s[7] == '-' &&
    forall i :: 0 <= i < 10 && i != 4 && i != 7 ==> IsDigit(s[i])
  }

  /** `YYYY-MM`. */
  predicate IsYearMonth(s: string)
  {
    |s| == 7 && s[4] == '-' &&
    forall i :: 0 <= i < 7 && i != 4 ==> IsDigit(s[i])
  }

  type DateString = s: string | IsDateString(s) witness "1970-01-01"

  /** The year-month `YYYY-MM` of a date: its first seven characters. */
  function YearMonth(date: string): (ym: string)
    ensures IsDateString(date) ==> IsYearMonth(ym) && date == ym + date[7..]
  {
    if |date| >= 7 then date[..7] else date
  }

  /** Value of a string of decimal digits. */
  function DigitsValue(s: string): (n: nat)
    requires forall i :: 0 <= i < |s| ==> IsDigit(s[i])
    decreases |s|
  {
    if s == [] then 0
    else 10 * DigitsValue(s[..|s| - 1]) + DigitValue(s[|s| - 1])
  }

  function DigitValue(c: char): (d: nat)
    requires IsDigit(c)
    ensures d < 10
  {
    c as int - '0' as int
  }
}
