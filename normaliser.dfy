/** The normaliser of the data-refresh script (`parseAndCleanData` in
    scripts/fetch_sheet.js): it drops the configured spreadsheet rows, maps each
    remaining CSV record onto a canonical `Row`, and skips the records whose date
    does not parse. The CSV parser and the date parser are not modelled: the
    records arrive already parsed, and the date parser is a parameter. */
module Normaliser {
  import opened Collections
  import opened Records
  import opened Numbers

  /** One parsed CSV record: column header to trimmed cell text. */
  type SheetRecord = map<string, string>

  /** `parseDate` followed by `toISOString().split('T')[0]`: the calendar date
      of a date cell, None when it does not parse. */
  type DateParser = string -> Option<DateString>

  /** `record[name]`, with an absent column read as the empty string (both are
      falsy). */
  function Cell(rec: SheetRecord, name: string): string
  {
    if name in rec then rec[name] else ""
  }

  /** `record[name] || record[letter] || fallback`: the value under the
      column's header, else under its spreadsheet letter, else the fallback. */
  function Pick(rec: SheetRecord, name: string, letter: string, fallback: string): (v: string)
    ensures Cell(rec, name) != "" ==> v == Cell(rec, name)
    ensures Cell(rec, name) == "" && Cell(rec, letter) != "" ==> v == Cell(rec, letter)
    ensures Cell(rec, name) == "" && Cell(rec, letter) == "" ==> v == fallback
  {
    if Cell(rec, name) != "" then Cell(rec, name)
    else if Cell(rec, letter) != "" then Cell(rec, letter)
    else fallback
  }

  /** The date of a record: `parseDate` returns `null` for an empty cell before
      trying any format. */
  function DateOf(rec: SheetRecord, parseDate: DateParser): (d: Option<DateString>)
    ensures Pick(rec, "Date", "E", "") == "" ==> d.None?
    ensures Pick(rec, "Date", "E", "") != "" ==> d == parseDate(Pick(rec, "Date", "E", ""))
  {
    var dateStr := Pick(rec, "Date", "E", "");
    if dateStr == "" then None else parseDate(dateStr)
  }

  /** The header of column A to X, in order. */
  const Headers: seq<string> := [
    "Category", "Market", "Service", "Month Day", "Date", "Unsubscribed",
    "Active Subs", "New Subs", "Total Subs", "New Paid", "Renewals Paid",
    "Total Paid", "Currency", "New Billed Revenue", "Renewal Revenue",
    "USD rate", "Daily Revenue", "Month Cumm", "USD/ZAR", "Month Revenue",
    "Month Target", "Target Run Rate", "Actual Run Rate", "Required Run Rate"]

  const Letters: seq<string> := [
    "A", "B", "C", "D", "E", "F", "G", "H", "I", "J", "K", "L",
    "M", "N", "O", "P", "Q", "R", "S", "T", "U", "V", "W", "X"]

  /** `record[header] || record[letter] || ''` for each of the 24 columns. */
  function Cells(rec: SheetRecord): (cells: seq<string>)
    ensures |cells| == 24
    ensures forall j :: 0 <= j < 24 ==> cells[j] == Pick(rec, Headers[j], Letters[j], "")
  {
    seq(24, j requires 0 <= j < 24 => Pick(rec, Headers[j], Letters[j], ""))
  }

  /** The canonical row of a record with cells `cells` and date `date`: the
      identifiers as they are, `parseInt(monthDay) || 0`, `parseNum` of every
      metric column, and `USD` for a missing currency. */
  function RowOfCells(cells: seq<string>, date: DateString): (r: Row)
    requires |cells| == 24
    ensures r.date == date
    ensures r.currency != ""
    ensures cells[12] != "" ==> r.currency == cells[12]
  {
    Row(
      category := cells[0],
      market := cells[1],
      service := cells[2],
      monthDay := MonthDay(cells[3]),
      date := date,
      unsubscribed := ParseNum(cells[5]),
      activeSubs := ParseNum(cells[6]),
      newSubs := ParseNum(cells[7]),
      totalSubs := ParseNum(cells[8]),
      newPaid := ParseNum(cells[9]),
      renewalsPaid := ParseNum(cells[10]),
      totalPaid := ParseNum(cells[11]),
      currency := if cells[12] != "" then cells[12] else "USD",
      newBilledRevenue := ParseNum(cells[13]),
      renewalRevenue := ParseNum(cells[14]),
      usdRate := ParseNum(cells[15]),
      dailyRevenue := ParseNum(cells[16]),
      monthCumm := ParseNum(cells[17]),
      usdZarRate := ParseNum(cells[18]),
      monthRevenue := ParseNum(cells[19]),
      monthTarget := ParseNum(cells[20]),
      targetRunRate := ParseNum(cells[21]),
      actualRunRate := ParseNum(cells[22]),
      requiredRunRate := ParseNum(cells[23]))
  }

  /** The row built from a record whose date is `date`. */
  function MakeRow(rec: SheetRecord, date: DateString): (r: Row)
    ensures r.date == date && r.currency != ""
    ensures Pick(rec, "Currency", "M", "") != "" ==> r.currency == Pick(rec, "Currency", "M", "")
  {
    assert Headers[12] == "Currency" && Letters[12] == "M";
    RowOfCells(Cells(rec), date)
  }

  /** One loop iteration: the row of a record, None when its date is missing
      or does not parse. */
  function Normalise(rec: SheetRecord, parseDate: DateParser): (r: Option<Row>)
    ensures r.None? <==> DateOf(rec, parseDate).None?
    ensures r.Some? ==> r.value == MakeRow(rec, DateOf(rec, parseDate).value)
  {
    match DateOf(rec, parseDate)
    case None => None
    case Some(d) => Some(MakeRow(rec, d))
  }

  function DateFails(parseDate: DateParser): SheetRecord -> bool
  {
    (rec: SheetRecord) => Normalise(rec, parseDate).None?
  }

  // ---------------------------------------------------------------------------
  // Skipping configured spreadsheet rows
  // ---------------------------------------------------------------------------

  /** The positions of the records kept by the skip filter, ascending: record
      `i` is spreadsheet row `i + 2` (row 1 holds the headers). */
  function KeptIndices(n: nat, skipRows: seq<int>): (idx: seq<nat>)
    ensures forall j, k :: 0 <= j < k < |idx| ==> idx[j] < idx[k]
    ensures forall i: nat :: i in idx <==> i < n && i + 2 !in skipRows
    decreases n
  {
    if n == 0 then []
    else
      var init := KeptIndices(n - 1, skipRows);
      assert forall k :: 0 <= k < |init| ==> init[k] in init && init[k] < n - 1;
      if n + 1 in skipRows then init else init + [n - 1]
  }

  /** `records.filter((record, index) => !skipRows.includes(index + 2))`. */
  function SkipFilter(records: seq<SheetRecord>, skipRows: seq<int>): (r: seq<SheetRecord>)
    ensures |r| <= |records|
    decreases |records|
  {
    if records == [] then []
    else
      var n := |records| - 1;
      SkipFilter(records[..n], skipRows) + (if n + 2 in skipRows then [] else [records[n]])
  }

  /** The skip filter keeps exactly the records at the kept positions, in
      order. */
  lemma {:induction false} SkipFilterByIndex(records: seq<SheetRecord>, skipRows: seq<int>)
    ensures |SkipFilter(records, skipRows)| == |KeptIndices(|records|, skipRows)|
    ensures forall k :: 0 <= k < |SkipFilter(records, skipRows)| ==>
              KeptIndices(|records|, skipRows)[k] < |records| &&
              SkipFilter(records, skipRows)[k] == records[KeptIndices(|records|, skipRows)[k]]
    decreases |records|
  {
    if records != [] {
      var n := |records| - 1;
      var init := records[..n];
      SkipFilterByIndex(init, skipRows);
      assert |init| == n;
      forall j | 0 <= j < n ensures init[j] == records[j] { }
    }
  }

  /** When no configured row number falls on a record, nothing is dropped. */
  lemma {:induction false} SkipFilterNone(records: seq<SheetRecord>, skipRows: seq<int>)
    requires forall j :: j in skipRows ==> !(2 <= j < |records| + 2)
    ensures SkipFilter(records, skipRows) == records
    decreases |records|
  {
    if records != [] {
      var n := |records| - 1;
      SkipFilterNone(records[..n], skipRows);
      assert records[..n] + [records[n]] == records;
    }
  }

  /** The default configuration `skipRows = [2]` drops the first record (the
      reference row under the headers) and keeps the others. */
  lemma {:induction false} SkipFilterDefault(records: seq<SheetRecord>)
    requires records != []
    ensures SkipFilter(records, [2]) == records[1..]
    decreases |records|
  {
    var n := |records| - 1;
    if n == 0 {
      assert records[..0] == [];
    } else {
      var init := records[..n];
      SkipFilterDefault(init);
      assert init[1..] + [records[n]] == records[1..];
    }
  }

  /** The row numbers that the skip filter actually uses. */
  function SkippedNumbers(n: nat, skipRows: seq<int>): set<int>
  {
    set j | j in skipRows && 2 <= j < n + 2
  }

  /** Each configured row number drops one record when it falls on one, however
      often it is listed; the others drop nothing. */
  lemma {:induction false} SkipFilterLength(records: seq<SheetRecord>, skipRows: seq<int>)
    ensures |SkipFilter(records, skipRows)| + |SkippedNumbers(|records|, skipRows)| == |records|
    decreases |records|
  {
    if records == [] {
      assert SkippedNumbers(0, skipRows) == {};
    } else {
      var n := |records| - 1;
      SkipFilterLength(records[..n], skipRows);
      var before, after := SkippedNumbers(n, skipRows), SkippedNumbers(n + 1, skipRows);
      if n + 2 in skipRows {
        assert after == before + {n + 2};
      } else {
        assert after == before;
      }
    }
  }

  // ---------------------------------------------------------------------------
  // Normalising the kept records
  // ---------------------------------------------------------------------------

  function NormaliseFn(parseDate: DateParser): SheetRecord -> Option<Row>
  {
    (rec: SheetRecord) => Normalise(rec, parseDate)
  }

  /** The rows of the records whose date parses, in record order. */
  function Normalised(records: seq<SheetRecord>, parseDate: DateParser): (rows: seq<Row>)
    ensures |rows| <= |records|
  {
    FilterMap(records, NormaliseFn(parseDate))
  }

  /** A row is in the output exactly when it is the row of some record whose
      date parses. */
  lemma NormalisedMembers(records: seq<SheetRecord>, parseDate: DateParser, row: Row)
    ensures row in Normalised(records, parseDate) <==>
              exists i :: 0 <= i < |records| && Normalise(records[i], parseDate) == Some(row)
  {
    FilterMapMembers(records, NormaliseFn(parseDate), row);
  }

  /** When every date parses, each record gives exactly one row, in order. */
  lemma NormalisedAllDated(records: seq<SheetRecord>, parseDate: DateParser)
    requires forall i :: 0 <= i < |records| ==> DateOf(records[i], parseDate).Some?
    ensures |Normalised(records, parseDate)| == |records|
    ensures forall i :: 0 <= i < |records| ==>
              Normalised(records, parseDate)[i] == MakeRow(records[i], DateOf(records[i], parseDate).value)
  {
    FilterMapTotal(records, NormaliseFn(parseDate));
  }

  /** Every record is either normalised into a row or counted as skipped. */
  lemma NormalisedCount(records: seq<SheetRecord>, parseDate: DateParser)
    ensures |Normalised(records, parseDate)| + |Where(records, DateFails(parseDate))| == |records|
  {
    FilterMapCount(records, NormaliseFn(parseDate), DateFails(parseDate));
  }

  // ---------------------------------------------------------------------------
  // parseAndCleanData
  // ---------------------------------------------------------------------------

  /** The loop state after the records `done`: their rows, and how many of
      them were skipped. */
  ghost predicate Progress(done: seq<SheetRecord>, processed: seq<Row>, skippedRows: nat, parseDate: DateParser)
  {
    processed == Normalised(done, parseDate) &&
    skippedRows == |Where(done, DateFails(parseDate))|
  }

  lemma ProgressSkip(done: seq<SheetRecord>, rec: SheetRecord, processed: seq<Row>, skippedRows: nat, parseDate: DateParser)
    requires Progress(done, processed, skippedRows, parseDate)
    requires DateOf(rec, parseDate).None?
    ensures Progress(done + [rec], processed, skippedRows + 1, parseDate)
  {
    WhereSnoc(done, rec, DateFails(parseDate));
    FilterMapSnoc(done, rec, NormaliseFn(parseDate));
  }

  lemma ProgressKeep(done: seq<SheetRecord>, rec: SheetRecord, processed: seq<Row>, skippedRows: nat, parseDate: DateParser)
    requires Progress(done, processed, skippedRows, parseDate)
    requires DateOf(rec, parseDate).Some?
    ensures Progress(done + [rec], processed + [MakeRow(rec, DateOf(rec, parseDate).value)], skippedRows, parseDate)
  {
    WhereSnoc(done, rec, DateFails(parseDate));
    FilterMapSnoc(done, rec, NormaliseFn(parseDate));
  }

  /** `parseAndCleanData` on already-parsed records: the kept records'
      rows and the number of kept records skipped for their date. */
  method ParseAndCleanData(records: seq<SheetRecord>, skipRows: seq<int>, parseDate: DateParser)
    returns (processed: seq<Row>, skippedRows: nat)
    ensures processed == Normalised(SkipFilter(records, skipRows), parseDate)
    ensures skippedRows == |Where(SkipFilter(records, skipRows), DateFails(parseDate))|
    ensures |processed| + skippedRows + |SkippedNumbers(|records|, skipRows)| == |records|
  {
    var filtered := SkipFilter(records, skipRows);
    processed := [];
    skippedRows := 0;
    for i := 0 to |filtered|
      invariant Progress(filtered[..i], processed, skippedRows, parseDate)
    {
      var rec := filtered[i];
      TakeSnoc(filtered, i);
      var date := DateOf(rec, parseDate);
      if date.None? {
        ProgressSkip(filtered[..i], rec, processed, skippedRows, parseDate);
        skippedRows := skippedRows + 1;
        continue;
      }
      ProgressKeep(filtered[..i], rec, processed, skippedRows, parseDate);
      processed := processed + [MakeRow(rec, date.value)];
    }
    assert filtered[..|filtered|] == filtered;
    NormalisedCount(filtered, parseDate);
    SkipFilterLength(records, skipRows);
  }

  /** With nothing skipped and every date parsing, the output is one row per
      record, in record order. */
  lemma CleanDataOneToOne(records: seq<SheetRecord>, parseDate: DateParser)
    requires forall i :: 0 <= i < |records| ==> DateOf(records[i], parseDate).Some?
    ensures |Normalised(SkipFilter(records, []), parseDate)| == |records|
    ensures forall i :: 0 <= i < |records| ==>
              Normalised(SkipFilter(records, []), parseDate)[i] ==
                MakeRow(records[i], DateOf(records[i], parseDate).value)
  {
    SkipFilterNone(records, []);
    NormalisedAllDated(records, parseDate);
  }

  /** A record whose date cell is empty under both `Date` and `E` never yields
      a row, whatever the date parser does. */
  lemma UndatedRecordSkipped(records: seq<SheetRecord>, parseDate: DateParser)
    requires forall i :: 0 <= i < |records| ==> Pick(records[i], "Date", "E", "") == ""
    ensures Normalised(records, parseDate) == []
  {
    if Normalised(records, parseDate) != [] {
      var r := Normalised(records, parseDate)[0];
      NormalisedMembers(records, parseDate, r);
    }
  }

  /** Column `j` of `named`, under its header, holds what column `j` of
      `lettered` holds under its letter, and neither uses the other's key. */
  predicate ColumnAgrees(named: SheetRecord, lettered: SheetRecord, j: int)
    requires 0 <= j < 24
  {
    Headers[j] !in lettered && Letters[j] !in named &&
    Cell(named, Headers[j]) == Cell(lettered, Letters[j])
  }

  /** A record keyed by the spreadsheet's column letters normalises to the same
      row as one keyed by the header names. */
  lemma LetterColumnsAgree(named: SheetRecord, lettered: SheetRecord, date: DateString)
    requires forall j :: 0 <= j < 24 ==> ColumnAgrees(named, lettered, j)
    ensures MakeRow(named, date) == MakeRow(lettered, date)
  {
    forall j | 0 <= j < 24
      ensures Cells(named)[j] == Cells(lettered)[j]
    {
      assert ColumnAgrees(named, lettered, j);
      PickAgrees(named, lettered, Headers[j], Letters[j]);
    }
    assert Cells(named) == Cells(lettered);
  }

  lemma PickAgrees(named: SheetRecord, lettered: SheetRecord, name: string, letter: string)
    requires name !in lettered && letter !in named
    requires Cell(named, name) == Cell(lettered, letter)
    ensures Pick(named, name, letter, "") == Pick(lettered, name, letter, "")
  {
  }
}
