# Service performance dashboard: a verified model of the metrics engine

This project models the data core of a service performance dashboard. The
dashboard reads daily subscription and revenue figures from a spreadsheet.
Each row describes one *service construct* (category, market, service and
currency) on one date. The model covers two parts of the code.

- The **refresh script** (`scripts/fetch_sheet.js`). It turns the
  spreadsheet's records into clean rows. Configured spreadsheet rows are
  dropped, undated records are skipped, cells are looked up by header or by
  column letter, amounts are parsed leniently, and a month-day number and a
  currency default are applied. It also builds the metadata summary: row
  count, date range, and the sorted distinct category, market, service and
  currency values.
- The **metrics engine** (`src/data-utils.js`). It covers:
  - the dimension lists and the month and date pickers;
  - the filter;
  - grouping by construct, or by service rolled up across currencies;
  - the per-date aggregation with its guarded run rates and percentage to
    target;
  - the month series;
  - target to date and the status colour;
  - the CSV text of an export.

Modules, in dependency order:

| module | file | what it holds |
|---|---|---|
| `Collections` | `collections.dfy` | `Option`. JavaScript's default string order (`Less`). Sorted distinct lists (`[...new Set(xs)].sort()`). `Where` (`Array.prototype.filter`) and `FilterMap`. Subsequences. `Join` and `Split`. |
| `Records` | `records.dfy` | The normalised `Row`, `YYYY-MM-DD` dates and `YearMonth`. |
| `Dimensions` | `dimensions.dfy` | Unique values, available months, dates of a month, and the latest date and month. |
| `Filtering` | `filtering.dfy` | `filterData`. |
| `Grouping` | `grouping.dfy` | `groupByConstruct` and `groupByService`: the specification `Grouped` and the imperative `GroupBy` loop. |
| `Metrics` | `metrics.dfy` | Month lengths, `calculateDateMetrics`, `calculateMonthMetrics`, target to date and the status colour. |
| `CsvExport` | `csv_export.dfy` | The text that `exportToCSV` builds, and a reader that recovers that text. |
| `Numbers` | `numbers.dfy` | `parseNum` (character cleaning, then `parseFloat`) and `parseInt(monthDay) \|\| 0`. |
| `Normaliser` | `normaliser.dfy` | `parseAndCleanData`: the skip filter, the column lookup and the imperative normalising loop. |
| `Metadata` | `metadata.dfy` | `generateMetadata`. |

Modelling choices:

- **Numbers are real numbers.** IEEE rounding, `NaN` and `Infinity` are not
  modelled (see "Left out").
- **Sort order.** JavaScript's default `sort()` compares UTF-16 code units.
  It is modelled as the lexicographic order on characters (`Less`).
- **Group keys.** They stay the `|`-joined strings the code builds. This
  keeps its behaviour when a field itself contains `|` (`KeyCollision`).
- **Falsy filter fields.** An omitted, `null` or empty filter field is the
  empty string.
- **Month lengths.** The code computes `new Date(2024, 2, 0).getDate()` for
  February 2024, which is 29 because 2024 is a leap year
  (`LeapFebruary2024`). On day 10 with revenue 1000 and target 2000, 19 days
  remain, so the required run rate is 1000 / 19 (`ScenarioFebruary2024`).

## Model

| member | source | states |
|---|---|---|
| `Records.YearMonth` | src/data-utils.js:33-38 | For a `YYYY-MM-DD` date, the result is a valid year-month and the date is that year-month followed by its day part. |
| `Metrics.LastDayOfMonth` | src/data-utils.js:43-46 | `new Date(y, m, 0).getDate()` lies between 28 and 31. For months 1 to 12 it is 31, 30, 29 or 28 by the Gregorian rules. Month 0 rolls over to December of the year before and gives 31. |
| `Metrics.DaysInMonth` | src/data-utils.js:43-46 | For a `YYYY-MM` string, between 28 and 31: the Gregorian length of the month its digits name, and 31 for month `00`. |
| `Metrics.LeapFebruary2024` | src/data-utils.js:45 | `getDaysInMonth('2024-02')` is 29. |
| `Dimensions.UniqueValues` | src/data-utils.js:51-54 | Strictly ascending (so free of duplicates). Holds exactly the non-empty values of the field that occur in the data. |
| `Dimensions.AvailableMonths` | src/data-utils.js:59-62 | Strictly ascending. Holds exactly the year-months of the rows' dates. |
| `Dimensions.DatesForMonth` | src/data-utils.js:67-73 | Strictly ascending. Holds exactly the dates of the rows whose year-month is the one asked for. |
| `Dimensions.LatestDateInMonth` | src/data-utils.js:314-317 | `null` exactly when no row falls in the month. Otherwise a date of that month that occurs in the data and is not before any other such date. |
| `Dimensions.LatestMonth` | src/data-utils.js:322-325 | `null` exactly when there is no data. Otherwise the year-month of some row, and no row's year-month is later. |
| `Filtering.FilterCharacterised` | src/data-utils.js:78-109 | The result is an order-preserving subsequence of the data, and every kept row meets each active constraint. This includes the currency only in the construct view, and the month by year-month. Every row that meets them all is kept as often as it occurs. |
| `Filtering.FilterAllIsIdentity` | src/data-utils.js:78-109 | With every field `All` or omitted and no month, filtering returns the data unchanged. |
| `Filtering.FilterIgnoresCurrencyInServiceView` | src/data-utils.js:95-100 | In the service view the currency filter has no effect. |
| `Filtering.FilterIgnoresDate` | src/data-utils.js:78-109 | The selected date never changes the filtered rows. |
| `Grouping.KeyIsJoin` | src/data-utils.js:118 | The group key is the key fields joined with `\|`. |
| `Grouping.KeyInjective` | src/data-utils.js:143 | When no field contains `\|`, two rows share a key only if they share the key fields. |
| `Grouping.KeyCollision` | src/data-utils.js:143 | Rows `("a\|b","c",s)` and `("a","b\|c",s)` get the same service key although their fields differ. |
| `Grouping.Keys` | src/data-utils.js:120-128 | The keys in the order their groups are created: no key repeats, and a string is a key iff some row has it. |
| `Grouping.KeysFirstSeen` | src/data-utils.js:133 | The groups come in order of their first row: a later key first occurs after every earlier key's first occurrence. |
| `Grouping.GroupOf` | src/data-utils.js:117-131 | The group of a key is non-empty and holds exactly the rows with that key. |
| `Grouping.Grouped` | src/data-utils.js:114-134 | One non-empty group per distinct key. |
| `Grouping.GroupAt` | src/data-utils.js:120-128 | Each group's header is taken from the first row with its key: the currency is that row's currency, or `Multiple` in the service view. |
| `Grouping.GroupHeadKey` | src/data-utils.js:120-128 | The first row of group j has the j-th key. |
| `Grouping.GroupedCharacterised` | src/data-utils.js:130 | Each group's rows are exactly the rows with its key, in input order. |
| `Grouping.GroupedExactlyOnce` | src/data-utils.js:117-131 | Every row lies in the group of its key and in no other group. |
| `Grouping.RowGroup` | src/data-utils.js:117-131 | The one group that holds a given row: it holds it, and no other group does. |
| `Grouping.GroupedFirstSeenOrder` | src/data-utils.js:133 | For groups i < j, the first row of group j is preceded by a row of group i. |
| `Grouping.GroupedPartition` | src/data-utils.js:114-134 | Concatenated, the groups' rows are a permutation of the input: the same rows the same number of times. |
| `Grouping.ConstructGroupsByTuple` | src/data-utils.js:114-134 | With no `\|` in any field, every row of a construct group has that group's four header fields, and distinct groups have distinct tuples. |
| `Grouping.ServiceGroupsByTriple` | src/data-utils.js:139-159 | The same for service groups and their three fields. |
| `Grouping.GroupRowsShareTuple` | src/data-utils.js:145-153 | A group's rows carry its header fields, and service groups are labelled `Multiple`. |
| `Grouping.GroupHeadersDiffer` | src/data-utils.js:120-128 | Distinct groups have distinct headers. |
| `Grouping.ServiceRollsUpConstructs` | src/data-utils.js:137-159 | Each construct group's rows are all inside the service group of the same category, market and service. |
| `Grouping.ServiceGroupOf` | src/data-utils.js:139-159 | For construct group j, a service group with the same category, market and service. Its rows that carry the construct's key are exactly group j's rows, in order. |
| `Grouping.ServiceCoveredByConstructs` | src/data-utils.js:137-159 | The converse: every row of a service group lies in some construct group with the same category, market and service. |
| `Grouping.ConstructGroupOf` | src/data-utils.js:137-159 | That construct group, found by index, for one row of a service group. |
| `Grouping.SameTriple` | src/data-utils.js:145-153 | A construct group and a service group that share a row share their category, market and service. |
| `Grouping.GroupBy` | src/data-utils.js:115-133 | The `forEach` loop over a key-indexed table returns exactly `Grouped`. |
| `Grouping.GroupByConstruct` | src/data-utils.js:114-134 | `groupByConstruct` returns the construct grouping. |
| `Grouping.GroupByService` | src/data-utils.js:139-159 | `groupByService` returns the service grouping. |
| `Metrics.SumByWhere` | src/data-utils.js:173-186 | Summing over the filtered rows equals summing the whole group with the other rows counted as zero. |
| `Metrics.RemainingDays` | src/data-utils.js:197 | `Math.max(1, daysInMonth - dayNumber)`: at least 1 and at least the days left, and equal to one of the two. |
| `Metrics.ActualRunRate` | src/data-utils.js:194 | 0 for a non-positive day number. Otherwise rate × day number = month-to-date revenue. |
| `Metrics.RequiredRunRate` | src/data-utils.js:198 | Never negative. 0 once the target is met. Otherwise rate × remaining days = target − revenue. |
| `Metrics.PercentToTarget` | src/data-utils.js:201 | 0 without a positive target. Otherwise pct × target = revenue × 100. |
| `Metrics.DateRows` | src/data-utils.js:166 | Empty iff no row has the date. All rows have the date. The first is the first such row of the input. |
| `Metrics.CalculateDateMetrics` | src/data-utils.js:164-217 | `null` exactly when no row has the date. Otherwise the metrics carry the date asked for. |
| `Metrics.DateMetricsCharacterised` | src/data-utils.js:172-216 | The sums are over the whole group with rows of other dates as 0. ZAR amounts are converted per row at that row's own rates. The day number is the first matching row's month day. The month length is the date's month. The rates and percentage follow their guarded definitions. |
| `Metrics.DayNumberOfConsistentRows` | src/data-utils.js:189 | When all rows of the date share a month day, that is the day number. |
| `Metrics.SingleRowMetrics` | src/data-utils.js:164-217 | For a group of one row, every metric is that row's own figure (or its guarded rate). |
| `Metrics.ScenarioFebruary2024` | src/data-utils.js:189-201 | Revenue 1000, target 2000, day 10 of February 2024 give 29 days, an actual rate of 100, a required rate of 1000/19 and 50 %. |
| `Metrics.ScenarioPerRowExchangeRate` | src/data-utils.js:179-181 | Two rows (100 USD at 18.5 and 50 USD at 19.0) give 2800 ZAR of daily revenue, which neither rate applied to the 150 USD total gives. |
| `Metrics.CalculateMonthMetrics` | src/data-utils.js:222-230 | One entry per date of the month, in strictly ascending date order. Each entry is the date's metrics. Every date of the month that occurs in the rows is present. |
| `Metrics.MonthSeriesFacts` | src/data-utils.js:224-229 | Mapping the date metrics over the month's dates and dropping the `null`s loses nothing and keeps the order. |
| `Metrics.MonthDatesAreDated` | src/data-utils.js:224-227 | Every date the series is built from is a date of that month that occurs in the rows, and every such row's date is listed. |
| `Metrics.MonthMetricsPresent` | src/data-utils.js:229 | No date of the list gives `null`, so `.filter(Boolean)` drops nothing. |
| `Metrics.TargetToDate` | src/data-utils.js:236-238 | t × days in month = target × day number. 0 on day 0, and the full target on the last day. |
| `Metrics.GetStatusColor` | src/data-utils.js:243-247 | Green iff ≥ 100, amber iff 80 ≤ pct < 100, red iff < 80. |
| `CsvExport.Lookup` | src/data-utils.js:286 | A present key gives the value of its first occurrence (`row[h]` of a JavaScript object). An absent key gives `undefined` (`Missing`). |
| `CsvExport.Doubled` | src/data-utils.js:289 | `replace(/"/g, '""')` only adds quote characters: no other character appears or disappears. |
| `CsvExport.ExportToCsv` | src/data-utils.js:279-296 | Empty data has no CSV (the code throws on `data[0]`). Otherwise the lines joined with newlines. |
| `CsvExport.QuotedRoundTrip` | src/data-utils.js:289 | Reading a quoted field undoes the quote doubling exactly. |
| `CsvExport.FieldRoundTrip` | src/data-utils.js:285-292 | Reading a field written by `EncodeField` (quoted when it holds a comma or a quote) returns the value's text and stops at the following comma. |
| `CsvExport.LineRoundTrip` | src/data-utils.js:293 | Reading a joined line returns the fields' texts. |
| `CsvExport.EncodeLineRoundTrip` | src/data-utils.js:284-294 | For any row (quote-free numbers), reading its line returns exactly the texts of the values that `Values` looks up under the header keys, one per header and in header order. |
| `CsvExport.EncodeFieldNoBreak` | src/data-utils.js:288-291 | Encoding never introduces a newline. |
| `CsvExport.LineNoBreak` | src/data-utils.js:293 | A line of newline-free values contains no newline. |
| `CsvExport.CsvSplitsIntoLines` | src/data-utils.js:296 | Without newlines in headers and values, splitting the CSV at newlines gives back exactly the lines of `CsvLines`: the header line first, then one line per row. |
| `Numbers.Clean` | scripts/fetch_sheet.js:142-146 | Only digits, `.` and `-` remain. |
| `Numbers.CleanKeepsNumeric` | scripts/fetch_sheet.js:142-146 | The four replacements together keep exactly the digits, dots and minus signs, in order. |
| `Numbers.CleanOfNumeric` | scripts/fetch_sheet.js:146 | Text made only of digits, dots and minus signs is unchanged by cleaning. |
| `Numbers.ParseNum` | scripts/fetch_sheet.js:139-149 | The empty cell is 0. |
| `Numbers.ParseNumIgnoresOtherChars` | scripts/fetch_sheet.js:142-147 | The value depends only on the digits, dots and minus signs of the text. |
| `Numbers.ParseNumOfNumeric` | scripts/fetch_sheet.js:147-148 | For cleaned text, the value is `parseFloat`'s longest decimal prefix, or 0 when there is none (`NaN`). |
| `Numbers.ParseNumNat` | scripts/fetch_sheet.js:147 | A natural-number numeral reads as its value. |
| `Numbers.ParseNumNegative` | scripts/fetch_sheet.js:147 | A minus sign before a numeral negates it. |
| `Numbers.ParseNumNegatedDecimal` | scripts/fetch_sheet.js:147 | A minus sign before `whole.frac` negates whole + 0.frac. |
| `Numbers.ParseNumDecimal` | scripts/fetch_sheet.js:147 | `whole.frac` followed by another dot or sign reads as whole + 0.frac: parsing stops there. |
| `Numbers.ParseNumDollarAmount` | scripts/fetch_sheet.js:139-149 | `$1,234.56` reads as 1234.56. |
| `Numbers.ParseNumRandAmount` | scripts/fetch_sheet.js:143-147 | `R 500` reads as 500. |
| `Numbers.ParseNumNegativeDecimal` | scripts/fetch_sheet.js:147 | `-45.2` reads as −45.2. |
| `Numbers.ParseNumNoDigits` | scripts/fetch_sheet.js:148 | `N/A` reads as 0. |
| `Numbers.MonthDay` | scripts/fetch_sheet.js:158 | Text with no leading digit or sign gives 0. |
| `Numbers.MonthDayOfNumeral` | scripts/fetch_sheet.js:158 | A day numeral followed by a non-digit (`15`, `15.5`, `15th`) reads as that number. |
| `Numbers.MonthDayOfHex` | scripts/fetch_sheet.js:158 | `parseInt` reads a `0x` prefix in base 16, and a bare prefix gives 0. |
| `Normaliser.RowOfCells` | scripts/fetch_sheet.js:151-189 | The row carries the parsed date. The currency is never empty: it is the cell, or `USD` when the cell is empty. |
| `Normaliser.MakeRow` | scripts/fetch_sheet.js:151-189 | For a record: the row carries the parsed date, its currency is never empty, and a non-empty `Currency` cell (by header or by column `M`) is the currency. |
| `Normaliser.KeptIndices` | scripts/fetch_sheet.js:108-111 | Ascending; index i is kept iff i + 2 is not a configured row number. |
| `Normaliser.SkipFilter` | scripts/fetch_sheet.js:108-111 | Never longer than the records. |
| `Normaliser.SkipFilterByIndex` | scripts/fetch_sheet.js:108-111 | The kept records are exactly those at the kept indices, in order. |
| `Normaliser.SkipFilterNone` | scripts/fetch_sheet.js:108-111 | Row numbers outside the sheet drop nothing. |
| `Normaliser.SkipFilterDefault` | scripts/fetch_sheet.js:27 | The default `skipRows = [2]` drops exactly the first record. |
| `Normaliser.SkipFilterLength` | scripts/fetch_sheet.js:108-111 | Each distinct configured row number that falls on a record drops one record. |
| `Normaliser.Normalised` | scripts/fetch_sheet.js:119-192 | Never more rows than records. |
| `Normaliser.NormalisedMembers` | scripts/fetch_sheet.js:119-192 | A row is produced iff some record has a date (`DateOf`) and `Normalise` builds that row from it. |
| `Normaliser.NormalisedAllDated` | scripts/fetch_sheet.js:119-192 | When every record has a date, row i is built from record i. |
| `Normaliser.NormalisedCount` | scripts/fetch_sheet.js:133-135 | Rows produced plus records skipped for their date is the number of records. |
| `Normaliser.ParseAndCleanData` | scripts/fetch_sheet.js:95-198 | The loop produces exactly the normalised rows of the kept records. The skipped count is the number of undated kept records. Rows + skipped + dropped row numbers = records. |
| `Normaliser.CleanDataOneToOne` | scripts/fetch_sheet.js:108-192 | Without skip rows and with every record dated, record i becomes row i. |
| `Normaliser.UndatedRecordSkipped` | scripts/fetch_sheet.js:127-136 | Records with no date cell produce no row. |
| `Normaliser.LetterColumnsAgree` | scripts/fetch_sheet.js:123-188 | A sheet exported with column letters gives the same row as one with header names. |
| `Normaliser.PickAgrees` | scripts/fetch_sheet.js:123 | The same, for one cell. |
| `Metadata.DateRangeOf` | scripts/fetch_sheet.js:213-215 | No bounds exactly for empty data. Otherwise min and max are dates of the data, and no date lies below min or above max. |
| `Metadata.DateRangeOrdered` | scripts/fetch_sheet.js:213-215 | For non-empty data, min is not after max. |
| `Metadata.DateRangeDependsOnDateSet` | scripts/fetch_sheet.js:213-215 | The range depends only on which dates occur, not on their order or repetitions. |
| `Metadata.GenerateMetadata` | scripts/fetch_sheet.js:203-230 | The time stamp passed in, the row count, and four strictly ascending lists of exactly the non-empty values of each dimension. |
| `Metadata.Categories` | scripts/fetch_sheet.js:207 | Strictly ascending. Holds exactly the non-empty categories of the data. |
| `Metadata.Markets` | scripts/fetch_sheet.js:208 | Strictly ascending. Holds exactly the non-empty markets of the data. |
| `Metadata.Services` | scripts/fetch_sheet.js:209 | Strictly ascending. Holds exactly the non-empty services of the data. |
| `Metadata.Currencies` | scripts/fetch_sheet.js:210 | Strictly ascending. Holds exactly the non-empty currencies of the data. |

## Left out

- Fetching the sheet over HTTP, reading the configuration, writing the JSON
  files, logging, and `main`. These are I/O. `skipRows` and the sheet's
  records become parameters.
- The `csv-parse` library. Records arrive as maps from column name to
  trimmed cell text, and `relax_column_count` and empty-line skipping happen
  before the model starts.
- `parseDate` and `toISOString().split('T')[0]` in `scripts/fetch_sheet.js`.
  They are one abstract parameter that maps a non-empty date cell to a
  `YYYY-MM-DD` string or to no date. JavaScript's `Date` parsing and time
  zones are not modelled.
- `Metadata.GenerateMetadata`: the clock reading `new Date().toISOString()`
  is the parameter `now`.
- `Records.YearMonth`: the code goes through `new Date(...)` and local time,
  so a negative UTC offset can move a date to the previous month. The model
  takes the first seven characters of the date.
- `formatDate`, `formatNumber`, `formatCurrency` and `formatPercent`. They are
  locale formatting for display.
- The download part of `exportToCSV` (blob, link, click). It is DOM I/O.
- Floating point. Amounts and rates are exact reals, so IEEE rounding is not
  modelled. The `NaN` and `Infinity` results of a division by zero are also
  not modelled.
- `Metrics.TargetToDate` requires a non-zero month length. The source
  divides by it, and every month length is between 28 and 31.
- `Metrics.CalculateDateMetrics` requires that the target date be a
  `YYYY-MM-DD` string whenever some row has it. Other strings go through
  JavaScript's `new Date(...)` parsing, which is not modelled: some of them
  (`2024/02/10`) parse to a date, and others give `NaN` metrics.
- `Metrics.CalculateMonthMetrics` has the same requirement on the dates of
  the month.
- `Records.IsDateString` checks the `YYYY-MM-DD` shape only, so it also
  accepts impossible dates such as `2024-13-45`. For those the source's
  `new Date` is an Invalid Date, its year-month is `NaN-NaN` and its metrics
  are `NaN`. The model instead reads the year-month `2024-13` and rolls the
  month over. Dates made by the normaliser come from `toISOString()` and are
  always real dates.
- `Collections.Less`: Dafny characters are Unicode scalar values, while
  JavaScript compares UTF-16 code units. The two orders differ when a
  character above U+FFFF (a surrogate pair in UTF-16) is compared with one
  between U+E000 and U+FFFF.
- `Metrics.LastDayOfMonth`: the roll-over of months above 12 into the next
  year, and of negative months, is in its body but not stated in its
  contract.
- `Numbers.ParseNum`: `parseFloat`'s exponents, a leading `+`, leading
  whitespace and `Infinity` cannot occur after cleaning, which keeps only
  digits, `.` and `-`.
- `Numbers.MonthDay`: only `-` and `+` are handled as leading characters.
  `parseInt` also skips leading whitespace; cells arrive trimmed, so this is
  not modelled.
- `CsvExport.Texts`: numbers and other non-string values are written with
  an abstract rendered text (`Number(rendered)`). JavaScript's number-to-string
  conversion is not modelled.
- `CsvExport.EncodeLineRoundTrip` requires that no number's rendering
  contain a comma or a quote, because the source does not quote non-strings.
- The header line is joined without escaping. Fields are quoted for commas
  and quotes but not for newlines, so `CsvExport.CsvSplitsIntoLines` requires
  newline-free text.
- `ParseLine` and the other readers in `CsvExport` are not part of the
  source. They are a reference reader against which the writer is proved.
- `Metadata.DateRangeOf` takes the first and last of the sorted distinct
  dates. The source fully sorts the dates with duplicates; its first and
  last elements are the same two values.
