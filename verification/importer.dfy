/** The one-shot spreadsheet import that produces the schedule table: one
    sheet per month named like "January 2026", one row per day, times stored
    as fractions of a day and written out as "HH:MM".

    The model starts from the whole number of seconds the fraction rounds to;
    the floating-point step before it is not modelled. */
module Importer {
  import opened Wrappers
  import opened Text
  import opened Clock
  import opened Schedule

  /** Rounding a fraction of a day to whole seconds gives at most a full day. */
  type DaySeconds = s: nat | s <= 86400

  /** A spreadsheet cell as `formatTime` sees it. */
  datatype Cell =
    | Empty                               // undefined, null or "" (falsy)
    | NotANumber                          // a value `isNaN` rejects
    | ZeroValue                           // the number 0 itself (falsy)
    | TimeValue(totalSeconds: DaySeconds) // any other number: its fraction, in seconds

  const NoonSeconds: nat := 43200

  /** The clock reading of a second count: whole hours and the minutes left
      over, seconds dropped. */
  function Reading(totalSeconds: DaySeconds): (t: ClockTime)
    ensures t.minute < 60 && t.hour <= 24
    ensures t.hour * 3600 + t.minute * 60 <= totalSeconds < t.hour * 3600 + t.minute * 60 + 60
    // a value that rounds up to a whole day comes out as hour 24
    ensures t.hour == 24 <==> totalSeconds == 86400
  {
    ClockTime(totalSeconds / 3600, (totalSeconds % 3600) / 60)
  }

  /** The reading, with hours below 12 moved to the afternoon when the column
      is forced to PM. */
  function ClockOf(totalSeconds: DaySeconds, isPm: bool): (t: ClockTime)
    ensures !isPm ==> t == Reading(totalSeconds)
    ensures isPm ==> 12 <= t.hour <= 24
    // forcing PM reads a morning-looking time twelve hours later, and leaves an afternoon one alone
    ensures isPm && totalSeconds < NoonSeconds ==> t == Reading(totalSeconds + NoonSeconds)
    ensures isPm && totalSeconds >= NoonSeconds ==> t == Reading(totalSeconds)
  {
    var t := Reading(totalSeconds);
    if isPm && t.hour < 12 then ClockTime(t.hour + 12, t.minute) else t
  }

  /** `formatTime(excelTime, isPm)`: null for a falsy or non-numeric cell,
      otherwise the zero-padded "HH:MM". */
  function FormatTime(c: Cell, isPm: bool): (r: Option<string>)
    ensures r.Some? <==> c.TimeValue?
    ensures r.Some? ==> |r.value| == 5 && r.value[2] == ':'
  {
    match c
    case TimeValue(s) =>
      var t := ClockOf(s, isPm);
      Some(Hhmm(t.hour, t.minute))
    case _ => None
  }

  /** The written time reads back, as the screens parse it, to the same hour
      and minute. */
  lemma FormatTimeRoundTrip(c: Cell, isPm: bool)
    requires c.TimeValue?
    ensures ParseClock(FormatTime(c, isPm).value) == Some(ClockOf(c.totalSeconds, isPm))
    ensures ParseMinutes(FormatTime(c, isPm)) == Some(MinuteOfDay(ClockOf(c.totalSeconds, isPm)))
  {
    var t := ClockOf(c.totalSeconds, isPm);
    ParseHhmm(t.hour, t.minute);
    ParseMinutesHhmm(t.hour, t.minute);
  }

  /** Midnight stored as the number 0 is indistinguishable from a blank cell,
      while the same time stored as a whole day number is kept. */
  lemma MidnightZeroIsMissing(isPm: bool)
    ensures FormatTime(ZeroValue, isPm).None?
    ensures FormatTime(TimeValue(0), false) == Some("00:00")
  {
    assert Reading(0) == ClockTime(0, 0);
    assert NatToString(0) == "0";
    assert Pad2(0) == "00";
    assert ClockOf(0, false) == ClockTime(0, 0);
    assert Hhmm(0, 0) == "00:00";
  }

  // ---------------------------------------------------------------------
  // Sheet names and date keys

  const MonthNames: seq<string> := [
    "January", "February", "March", "April", "May", "June",
    "July", "August", "September", "October", "November", "December"
  ]

  /** The `MONTHS` lookup: the zero-based month of an exact English name. */
  function MonthIndex(name: string): (r: Option<nat>)
    ensures r.Some? ==> r.value < |MonthNames| && MonthNames[r.value] == name
    ensures r.None? ==> forall i :: 0 <= i < |MonthNames| ==> MonthNames[i] != name
  {
    FindMonth(name, 0)
  }

  function FindMonth(name: string, i: nat): (r: Option<nat>)
    requires i <= |MonthNames|
    ensures r.Some? ==> i <= r.value < |MonthNames| && MonthNames[r.value] == name
    ensures r.None? ==> forall j :: i <= j < |MonthNames| ==> MonthNames[j] != name
    decreases |MonthNames| - i
  {
    if i == |MonthNames| then None
    else if MonthNames[i] == name then Some(i)
    else FindMonth(name, i + 1)
  }

  datatype SheetDate = SheetDate(monthIndex: nat, year: int)

  /** `const [monthName, yearStr] = sheetName.split(' ')`, the month lookup and
      `parseInt(yearStr)`; None is a skipped sheet. */
  function ParseSheetName(name: string): (r: Option<SheetDate>)
    ensures r.Some? <==>
      MonthIndex(FirstPiece(name, ' ')).Some? && AfterFirst(name, ' ').Some? &&
      ParseInt(FirstPiece(AfterFirst(name, ' ').value, ' ')).Some?
    ensures r.Some? ==> r.value.monthIndex < 12 && MonthNames[r.value.monthIndex] == FirstPiece(name, ' ')
    ensures r.Some? ==> r.value.year == ParseInt(FirstPiece(AfterFirst(name, ' ').value, ' ')).value
  {
    var month := MonthIndex(FirstPiece(name, ' '));
    var year := match AfterFirst(name, ' ')
      case None => None
      case Some(rest) => ParseInt(FirstPiece(rest, ' '));
    if month.Some? && year.Some? then Some(SheetDate(month.value, year.value)) else None
  }

  lemma MonthNamesHaveNoSpace(i: nat)
    requires i < |MonthNames|
    ensures forall j :: 0 <= j < |MonthNames[i]| ==> MonthNames[i][j] != ' '
  {
  }

  /** A sheet named "<Month> <year>" is read back as that month and year. */
  lemma SheetNameRoundTrip(i: nat, year: nat)
    requires i < |MonthNames|
    ensures ParseSheetName(MonthNames[i] + " " + NatToString(year)) == Some(SheetDate(i, year))
  {
    var y := NatToString(year);
    var name := MonthNames[i] + " " + y;
    MonthNamesHaveNoSpace(i);
    assert name == MonthNames[i] + [' '] + y;
    FirstPieceOfJoin(MonthNames[i], ' ', y);
    FirstPieceOfDigits(y, ' ');
    ParseNatToString(year);
    assert ParseInt(y) == Some(year);
    MonthNamesDistinct();
    assert MonthIndex(MonthNames[i]) == Some(i);
  }

  lemma MonthNamesDistinct()
    ensures forall i, j :: 0 <= i < j < |MonthNames| ==> MonthNames[i] != MonthNames[j]
  {
  }

  /** `${year}-${MM}-${DD}` with the one-based month and the day padded. */
  function DateKey(year: int, monthIndex: nat, day: nat): string {
    IntToString(year) + "-" + Pad2(monthIndex + 1) + "-" + Pad2(day)
  }

  lemma {:induction false} FourDigitYear(n: nat)
    requires 1000 <= n < 10000
    ensures |NatToString(n)| == 4
  {
    assert NatToString(n) == NatToString(n / 10) + [DigitChar(n % 10)];
    assert NatToString(n / 10) == NatToString(n / 100) + [DigitChar((n / 10) % 10)];
    assert |NatToString(n / 100)| == 2;
  }

  /** For four-digit years the key is "YYYY-MM-DD" and each field reads back. */
  lemma DateKeyFields(year: int, monthIndex: nat, day: nat)
    requires 1000 <= year < 10000 && monthIndex < 12 && day < 100
    ensures
      var k := DateKey(year, monthIndex, day);
      && |k| == 10 && k[4] == '-' && k[7] == '-'
      && AllDigits(k[..4]) && AllDigits(k[5..7]) && AllDigits(k[8..])
      && ParseDigits(k[..4]) == year
      && ParseDigits(k[5..7]) == monthIndex + 1
      && ParseDigits(k[8..]) == day
  {
    var y := IntToString(year);
    FourDigitYear(year);
    ParseNatToString(year);
    var k := DateKey(year, monthIndex, day);
    assert k[..4] == y;
    assert k[5..7] == Pad2(monthIndex + 1);
    assert k[8..] == Pad2(day);
  }

  // ---------------------------------------------------------------------
  // Rows

  /** One data row: the day of the month (0 when the cell is blank), the
      Hijri label cell, and the cells by column number. */
  datatype Row = Row(day: nat, hijri: Option<string>, cells: seq<Cell>)

  /** `row[i]`: a missing trailing cell reads as undefined. */
  function CellAt(row: Row, i: nat): (c: Cell)
    ensures i >= |row.cells| ==> c == Empty
  {
    if i < |row.cells| then row.cells[i] else Empty
  }

  /** The record written for one row. Columns 3-5 (Fajr adhan and jamat,
      Shuruq) are taken as they are; columns 6-12 are forced to PM; column 10
      serves as both Maghrib times. */
  function BuildDay(row: Row): (d: StoredDay)
    ensures d.maghrib.adhan == d.maghrib.jamat
    ensures d.hijri == row.hijri
    // a time is written exactly when its column holds a non-zero number
    ensures d.fajr.adhan.Some? <==> CellAt(row, 3).TimeValue?
    ensures d.fajr.jamat.Some? <==> CellAt(row, 4).TimeValue?
    ensures d.shuruq.Some? <==> CellAt(row, 5).TimeValue?
    ensures d.dhuhr.adhan.Some? <==> CellAt(row, 6).TimeValue?
    ensures d.dhuhr.jamat.Some? <==> CellAt(row, 7).TimeValue?
    ensures d.asr.adhan.Some? <==> CellAt(row, 8).TimeValue?
    ensures d.asr.jamat.Some? <==> CellAt(row, 9).TimeValue?
    ensures d.maghrib.adhan.Some? <==> CellAt(row, 10).TimeValue?
    ensures d.isha.adhan.Some? <==> CellAt(row, 11).TimeValue?
    ensures d.isha.jamat.Some? <==> CellAt(row, 12).TimeValue?
  {
    StoredDay(
      StoredSlot(FormatTime(CellAt(row, 3), false), FormatTime(CellAt(row, 4), false)),
      FormatTime(CellAt(row, 5), false),
      StoredSlot(FormatTime(CellAt(row, 6), true), FormatTime(CellAt(row, 7), true)),
      StoredSlot(FormatTime(CellAt(row, 8), true), FormatTime(CellAt(row, 9), true)),
      StoredSlot(FormatTime(CellAt(row, 10), true), FormatTime(CellAt(row, 10), true)),
      StoredSlot(FormatTime(CellAt(row, 11), true), FormatTime(CellAt(row, 12), true)),
      row.hijri)
  }

  /** The time a column contributes once the record is loaded back. */
  function ColumnMinutes(row: Row, col: nat, isPm: bool): Option<nat> {
    ParseMinutes(FormatTime(CellAt(row, col), isPm))
  }

  lemma ColumnMinutesBounds(row: Row, col: nat, isPm: bool)
    ensures ColumnMinutes(row, col, isPm).Some? <==> CellAt(row, col).TimeValue?
    ensures ColumnMinutes(row, col, isPm).Some? && !isPm ==>
      ColumnMinutes(row, col, isPm).value == CellAt(row, col).totalSeconds / 60
    ensures ColumnMinutes(row, col, isPm).Some? && isPm ==>
      ColumnMinutes(row, col, isPm).value >= 12 * 60
  {
    var c := CellAt(row, col);
    if c.TimeValue? {
      FormatTimeRoundTrip(c, isPm);
      var t := ClockOf(c.totalSeconds, isPm);
      if !isPm {
        assert t.hour * 60 + t.minute == c.totalSeconds / 60;
      }
    }
  }

  /** Loading an imported row back: the morning columns keep the clock reading
      of the sheet, every afternoon and evening time is at or after noon, and
      a time is present exactly when its cell held a non-zero number. */
  lemma ImportedRowLoads(row: Row)
    ensures
      var d := Load(BuildDay(row));
      && d.fajr.adhan == ColumnMinutes(row, 3, false)
      && d.fajr.jamat == ColumnMinutes(row, 4, false)
      && d.shuruq == ColumnMinutes(row, 5, false)
      && d.dhuhr.adhan == ColumnMinutes(row, 6, true)
      && d.dhuhr.jamat == ColumnMinutes(row, 7, true)
      && d.asr.adhan == ColumnMinutes(row, 8, true)
      && d.asr.jamat == ColumnMinutes(row, 9, true)
      && d.maghrib.adhan == ColumnMinutes(row, 10, true)
      && d.isha.adhan == ColumnMinutes(row, 11, true)
      && d.isha.jamat == ColumnMinutes(row, 12, true)
      && (d.fajr.adhan.Some? ==> d.fajr.adhan.value == CellAt(row, 3).totalSeconds / 60)
      && (d.shuruq.Some? ==> d.shuruq.value == CellAt(row, 5).totalSeconds / 60)
      && (d.dhuhr.adhan.Some? ==> d.dhuhr.adhan.value >= 720)
      && (d.dhuhr.jamat.Some? ==> d.dhuhr.jamat.value >= 720)
      && (d.asr.adhan.Some? ==> d.asr.adhan.value >= 720)
      && (d.asr.jamat.Some? ==> d.asr.jamat.value >= 720)
      && (d.maghrib.adhan.Some? ==> d.maghrib.adhan.value >= 720)
      && d.maghrib.adhan == d.maghrib.jamat
      && (d.isha.adhan.Some? ==> d.isha.adhan.value >= 720)
      && (d.isha.jamat.Some? ==> d.isha.jamat.value >= 720)
      && (d.fajr.adhan.Some? <==> CellAt(row, 3).TimeValue?)
      && (d.isha.adhan.Some? <==> CellAt(row, 11).TimeValue?)
  {
    ColumnMinutesBounds(row, 3, false);
    ColumnMinutesBounds(row, 4, false);
    ColumnMinutesBounds(row, 5, false);
    ColumnMinutesBounds(row, 6, true);
    ColumnMinutesBounds(row, 7, true);
    ColumnMinutesBounds(row, 8, true);
    ColumnMinutesBounds(row, 9, true);
    ColumnMinutesBounds(row, 10, true);
    ColumnMinutesBounds(row, 11, true);
    ColumnMinutesBounds(row, 12, true);
  }

  // ---------------------------------------------------------------------
  // Sheets and the workbook

  datatype Sheet = Sheet(name: string, rows: seq<Row>)

  /** Data starts on the third row; the first two are titles and headers. */
  const FirstDataRow: nat := 2

  /** The key a row is stored under, None when its day cell is blank. */
  function RowKey(date: SheetDate, row: Row): (k: Option<string>)
    ensures k.Some? <==> row.day > 0
  {
    if row.day > 0 then Some(DateKey(date.year, date.monthIndex, row.day)) else None
  }

  /** Some row from position `i` on is stored under key `k`. */
  ghost predicate KeyFromRows(date: SheetDate, rows: seq<Row>, i: nat, k: string) {
    exists j :: i <= j < |rows| && RowKey(date, rows[j]) == Some(k)
  }

  /** The row loop from position `i` on, writing into `acc`; a later row with
      the same key overwrites an earlier one. */
  function ImportRows(date: SheetDate, rows: seq<Row>, i: nat, acc: map<string, StoredDay>): (r: map<string, StoredDay>)
    ensures forall k :: k in r <==> (k in acc || KeyFromRows(date, rows, i, k))
    decreases |rows| - i
  {
    if i >= |rows| then acc
    else
      var acc' := match RowKey(date, rows[i])
        case None => acc
        case Some(k) => acc[k := BuildDay(rows[i])];
      var r := ImportRows(date, rows, i + 1, acc');
      KeyFromRowsStep(date, rows, i);
      r
  }

  lemma KeyFromRowsStep(date: SheetDate, rows: seq<Row>, i: nat)
    requires i < |rows|
    ensures forall k :: KeyFromRows(date, rows, i, k) <==>
      (RowKey(date, rows[i]) == Some(k) || KeyFromRows(date, rows, i + 1, k))
  {
    forall k
      ensures KeyFromRows(date, rows, i, k) ==> (RowKey(date, rows[i]) == Some(k) || KeyFromRows(date, rows, i + 1, k))
    {
      if KeyFromRows(date, rows, i, k) {
        var j :| i <= j < |rows| && RowKey(date, rows[j]) == Some(k);
        if j > i {
          assert KeyFromRows(date, rows, i + 1, k);
        }
      }
    }
  }

  /** A row whose key no later row repeats is stored exactly as built. */
  lemma {:induction false} ImportRowsLastWins(date: SheetDate, rows: seq<Row>, i: nat, acc: map<string, StoredDay>, j: nat)
    requires i <= j < |rows| && RowKey(date, rows[j]).Some?
    requires forall j' :: j < j' < |rows| ==> RowKey(date, rows[j']) != RowKey(date, rows[j])
    ensures RowKey(date, rows[j]).value in ImportRows(date, rows, i, acc)
    ensures ImportRows(date, rows, i, acc)[RowKey(date, rows[j]).value] == BuildDay(rows[j])
    decreases |rows| - i
  {
    var acc' := match RowKey(date, rows[i])
      case None => acc
      case Some(k) => acc[k := BuildDay(rows[i])];
    if i < j {
      ImportRowsLastWins(date, rows, i + 1, acc', j);
    } else {
      ImportRowsUntouched(date, rows, i + 1, acc', RowKey(date, rows[j]).value);
    }
  }

  /** Keys no remaining row writes keep the value they had. */
  lemma {:induction false} ImportRowsUntouched(date: SheetDate, rows: seq<Row>, i: nat, acc: map<string, StoredDay>, k: string)
    requires k in acc
    requires forall j :: i <= j < |rows| ==> RowKey(date, rows[j]) != Some(k)
    ensures k in ImportRows(date, rows, i, acc) && ImportRows(date, rows, i, acc)[k] == acc[k]
    decreases |rows| - i
  {
    if i < |rows| {
      var acc' := match RowKey(date, rows[i])
        case None => acc
        case Some(k') => acc[k' := BuildDay(rows[i])];
      ImportRowsUntouched(date, rows, i + 1, acc', k);
    }
  }

  /** One sheet's contribution: nothing when its name is not "<Month> <year>". */
  function AddSheet(acc: map<string, StoredDay>, sheet: Sheet): (r: map<string, StoredDay>)
    ensures ParseSheetName(sheet.name).None? ==> r == acc
    ensures acc.Keys <= r.Keys
  {
    match ParseSheetName(sheet.name)
    case None => acc
    case Some(date) => ImportRows(date, sheet.rows, FirstDataRow, acc)
  }

  /** The key of row `j` of a sheet, None for a skipped sheet, a header row or
      a blank day. */
  function SheetRowKey(sheet: Sheet, j: nat): Option<string> {
    match ParseSheetName(sheet.name)
    case None => None
    case Some(date) => if FirstDataRow <= j < |sheet.rows| then RowKey(date, sheet.rows[j]) else None
  }

  /** Some row of `sheet` is stored under key `k`. */
  ghost predicate KeyFromSheet(sheet: Sheet, k: string) {
    exists j: nat :: SheetRowKey(sheet, j) == Some(k)
  }

  /** Some row of some sheet is stored under key `k`. */
  ghost predicate KeyFromSheets(sheets: seq<Sheet>, k: string) {
    exists i :: 0 <= i < |sheets| && KeyFromSheet(sheets[i], k)
  }

  /** The whole import, sheet by sheet in workbook order; later sheets
      overwrite earlier ones on a shared key. */
  function Import(sheets: seq<Sheet>): (r: map<string, StoredDay>)
    ensures |sheets| > 0 ==> Import(sheets[..|sheets| - 1]).Keys <= r.Keys
    decreases |sheets|
  {
    if |sheets| == 0 then map[]
    else AddSheet(Import(sheets[..|sheets| - 1]), sheets[|sheets| - 1])
  }

  /** A key is in the imported table exactly when some data row of some
      well-named sheet produced it. */
  lemma {:induction false} ImportKeys(sheets: seq<Sheet>)
    ensures forall k :: k in Import(sheets) <==> KeyFromSheets(sheets, k)
    decreases |sheets|
  {
    if |sheets| > 0 {
      var prefix := sheets[..|sheets| - 1];
      var last := sheets[|sheets| - 1];
      assert prefix + [last] == sheets;
      var before := Import(prefix);
      assert Import(sheets) == AddSheet(before, last);
      ImportKeys(prefix);
      KeysOfAddSheet(before, last);
      KeyFromSheetsSnoc(prefix, last);
    }
  }

  lemma KeyFromSheetsSnocAt(sheets: seq<Sheet>, last: Sheet, k: string)
    ensures KeyFromSheets(sheets + [last], k) <==> (KeyFromSheets(sheets, k) || KeyFromSheet(last, k))
  {
    var all := sheets + [last];
    if KeyFromSheets(all, k) {
      var i :| 0 <= i < |all| && KeyFromSheet(all[i], k);
      if i < |sheets| {
        assert all[i] == sheets[i];
      }
    }
    if KeyFromSheets(sheets, k) {
      var i :| 0 <= i < |sheets| && KeyFromSheet(sheets[i], k);
      assert all[i] == sheets[i];
    }
    if KeyFromSheet(last, k) {
      assert all[|sheets|] == last;
    }
  }

  lemma KeyFromSheetsSnoc(sheets: seq<Sheet>, last: Sheet)
    ensures forall k :: KeyFromSheets(sheets + [last], k) <==> (KeyFromSheets(sheets, k) || KeyFromSheet(last, k))
  {
    forall k
      ensures KeyFromSheets(sheets + [last], k) <==> (KeyFromSheets(sheets, k) || KeyFromSheet(last, k))
    {
      KeyFromSheetsSnocAt(sheets, last, k);
    }
  }

  lemma KeysOfAddSheet(acc: map<string, StoredDay>, sheet: Sheet)
    ensures forall k :: k in AddSheet(acc, sheet) <==> (k in acc || KeyFromSheet(sheet, k))
  {
    match ParseSheetName(sheet.name)
    case None =>
    case Some(date) =>
      forall k
        ensures KeyFromSheet(sheet, k) <==> KeyFromRows(date, sheet.rows, FirstDataRow, k)
      {
        if KeyFromSheet(sheet, k) {
          var j: nat :| SheetRowKey(sheet, j) == Some(k);
          assert FirstDataRow <= j < |sheet.rows| && RowKey(date, sheet.rows[j]) == Some(k);
        }
        if KeyFromRows(date, sheet.rows, FirstDataRow, k) {
          var j :| FirstDataRow <= j < |sheet.rows| && RowKey(date, sheet.rows[j]) == Some(k);
          assert SheetRowKey(sheet, j) == Some(k);
        }
      }
  }

  /** A sheet whose name is not "<Month> <year>" adds nothing to the table. */
  lemma SkippedSheetAddsNothing(sheets: seq<Sheet>, sheet: Sheet)
    requires ParseSheetName(sheet.name).None?
    ensures Import(sheets + [sheet]) == Import(sheets)
  {
    assert (sheets + [sheet])[..|sheets|] == sheets;
  }
}
