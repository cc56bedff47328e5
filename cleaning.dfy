/**
 * The cleaning steps of `generate_dashboard`: every row's doctor name is
 * normalised, rows without a visit date or dated before 2024 are dropped, the
 * surviving rows get their "YYYY-MM" month label and, when both time columns
 * exist, their visit duration; the photo column is reduced to stripped text.
 *
 * `pd.to_datetime` is not modelled: a row arrives with its date already
 * parsed, or missing when pandas could not parse it (NaT).
 */
module Cleaning {
  import opened Wrappers
  import opened Text
  import Names
  import Times

  datatype Date = Date(year: int, month: int, day: int)

  predicate IsLeapYear(y: int) {
    y % 4 == 0 && (y % 100 != 0 || y % 400 == 0)
  }

  function DaysInMonth(y: int, m: int): int
    requires 1 <= m <= 12
  {
    if m == 2 then (if IsLeapYear(y) then 29 else 28)
    else if m == 4 || m == 6 || m == 9 || m == 11 then 30
    else 31
  }

  predicate ValidDate(d: Date) {
    1 <= d.year <= 9999 && 1 <= d.month <= 12 && 1 <= d.day <= DaysInMonth(d.year, d.month)
  }

  /** A proleptic Gregorian date, years 1-9999. */
  type CalendarDate = d: Date | ValidDate(d) witness Date(2024, 1, 1)

  /** Dates as one number, in chronological order. */
  function DateKey(d: CalendarDate): nat {
    d.year * 10000 + d.month * 100 + d.day
  }

  /** Chronological order of two dates: by year, then month, then day. */
  predicate Earlier(d1: CalendarDate, d2: CalendarDate) {
    d1.year < d2.year || (d1.year == d2.year && (d1.month < d2.month || (d1.month == d2.month && d1.day < d2.day)))
  }

  lemma DateKeyOrder(d1: CalendarDate, d2: CalendarDate)
    ensures DateKey(d1) < DateKey(d2) <==> Earlier(d1, d2)
    ensures DateKey(d1) == DateKey(d2) <==> d1 == d2
  {
  }

  /** `strftime('%Y-%m-%d')`. */
  function FormatDate(d: CalendarDate): string {
    Pad(d.year, 4) + ("-" + (Pad(d.month, 2) + ("-" + Pad(d.day, 2))))
  }

  /** `strftime('%Y-%m')`. */
  function MonthLabel(d: CalendarDate): string {
    Pad(d.year, 4) + ("-" + Pad(d.month, 2))
  }

  lemma DashOrder(x: string, y: string)
    ensures LexLess("-" + x, "-" + y) <==> LexLess(x, y)
  {
    LexLessConcat("-", x, "-", y);
    LexLessIrreflexive("-");
  }

  /** Month labels compare as strings exactly as their months compare in time,
      and two dates share a label exactly when they fall in the same month. */
  lemma {:induction false} MonthLabelOrder(d1: CalendarDate, d2: CalendarDate)
    ensures LexLess(MonthLabel(d1), MonthLabel(d2)) <==>
            d1.year < d2.year || (d1.year == d2.year && d1.month < d2.month)
    ensures MonthLabel(d1) == MonthLabel(d2) <==> d1.year == d2.year && d1.month == d2.month
  {
    PadOrder(d1.year, d2.year, 4);
    PadOrder(d1.month, d2.month, 2);
    LexLessConcat(Pad(d1.year, 4), "-" + Pad(d1.month, 2), Pad(d2.year, 4), "-" + Pad(d2.month, 2));
    DashOrder(Pad(d1.month, 2), Pad(d2.month, 2));
    if MonthLabel(d1) == MonthLabel(d2) {
      assert MonthLabel(d1)[..4] == Pad(d1.year, 4) && MonthLabel(d2)[..4] == Pad(d2.year, 4);
      assert MonthLabel(d1)[5..] == Pad(d1.month, 2) && MonthLabel(d2)[5..] == Pad(d2.month, 2);
    }
  }

  /** Formatted dates compare as strings exactly as the dates compare in time,
      and formatting loses nothing. */
  lemma {:induction false} FormatDateOrder(d1: CalendarDate, d2: CalendarDate)
    ensures LexLess(FormatDate(d1), FormatDate(d2)) <==> Earlier(d1, d2)
    ensures FormatDate(d1) == FormatDate(d2) <==> d1 == d2
  {
    var m1, m2 := Pad(d1.month, 2), Pad(d2.month, 2);
    var l1, l2 := Pad(d1.day, 2), Pad(d2.day, 2);
    PadOrder(d1.year, d2.year, 4);
    PadOrder(d1.month, d2.month, 2);
    PadOrder(d1.day, d2.day, 2);
    LexLessConcat(Pad(d1.year, 4), "-" + (m1 + ("-" + l1)), Pad(d2.year, 4), "-" + (m2 + ("-" + l2)));
    DashOrder(m1 + ("-" + l1), m2 + ("-" + l2));
    LexLessConcat(m1, "-" + l1, m2, "-" + l2);
    DashOrder(l1, l2);
    if FormatDate(d1) == FormatDate(d2) {
      var f1, f2 := FormatDate(d1), FormatDate(d2);
      assert f1[..4] == Pad(d1.year, 4) && f2[..4] == Pad(d2.year, 4);
      assert f1[5..7] == m1 && f2[5..7] == m2;
      assert f1[8..] == l1 && f2[8..] == l2;
    }
  }

  /** One spreadsheet row as read: every cell may be empty. */
  datatype RawRow = RawRow(
    doctor: Option<string>,
    visitDate: Option<CalendarDate>,
    checkIn: Option<string>,
    checkOut: Option<string>,
    status: Option<string>,
    comment: Option<string>,
    photo: Option<string>)

  /** Which optional columns the spreadsheet has: both "Ingreso" and "Salida",
      and "Foto". */
  datatype Columns = Columns(hasTimes: bool, hasPhoto: bool)

  /** A row after cleaning. */
  datatype Row = Row(
    doctor: string,
    date: CalendarDate,
    month: string,
    duration: Option<nat>,
    status: Option<string>,
    comment: Option<string>,
    photo: string)

  const MinYear: int := 2024

  /** The rows `dropna` and the year filter let through. */
  predicate Kept(r: RawRow) {
    r.visitDate.Some? && r.visitDate.value.year >= MinYear
  }

  /** The "Foto" cell: `fillna('').astype(str).str.strip()`, or '' for every row
      when the column is missing. */
  function NormalizePhoto(hasPhoto: bool, photo: Option<string>): (p: string)
    ensures !hasPhoto || photo.None? ==> p == ""
    ensures hasPhoto && photo.Some? ==> p == Strip(photo.value)
    ensures p == [] || (!IsSpace(p[0]) && !IsSpace(p[|p| - 1]))
  {
    if hasPhoto then Strip(photo.GetOr("")) else ""
  }

  /** What every cleaned row satisfies: a date in 2024 or later, the month
      label of that date, a duration below one day and only when both time
      columns exist, and a stripped photo. */
  predicate WellFormed(r: Row, cols: Columns) {
    r.date.year >= MinYear && r.month == MonthLabel(r.date) &&
    (r.duration.Some? ==> cols.hasTimes && r.duration.value < Times.SecondsPerDay) &&
    (r.photo == [] || (!IsSpace(r.photo[0]) && !IsSpace(r.photo[|r.photo| - 1])))
  }

  /** The cleaned form of a surviving row. */
  function CleanRow(r: RawRow, cols: Columns): (c: Row)
    requires Kept(r)
    ensures WellFormed(c, cols)
  {
    Row(Names.NormalizeName(r.doctor), r.visitDate.value, MonthLabel(r.visitDate.value),
        if cols.hasTimes then Times.DurationSeconds(r.checkIn, r.checkOut) else None,
        r.status, r.comment, NormalizePhoto(cols.hasPhoto, r.photo))
  }

  /** The cleaned table: the surviving rows, cleaned, in their original order. */
  function CleanRows(raw: seq<RawRow>, cols: Columns): (rows: seq<Row>)
    ensures |rows| <= |raw|
    ensures forall k :: 0 <= k < |rows| ==> WellFormed(rows[k], cols)
  {
    if raw == [] then []
    else
      var last := raw[|raw| - 1];
      CleanRows(raw[..|raw| - 1], cols) + (if Kept(last) then [CleanRow(last, cols)] else [])
  }

  /** The positions of the surviving rows. */
  function KeptIndices(raw: seq<RawRow>): (ks: seq<nat>)
    ensures forall j :: 0 <= j < |ks| ==> ks[j] < |raw| && Kept(raw[ks[j]])
    ensures forall i, j :: 0 <= i < j < |ks| ==> ks[i] < ks[j]
    ensures forall k :: 0 <= k < |raw| && Kept(raw[k]) ==> k in ks
  {
    if raw == [] then []
    else
      var n := |raw| - 1;
      var init := raw[..n];
      var before := KeptIndices(init);
      assert forall k :: 0 <= k < n ==> init[k] == raw[k];
      before + (if Kept(raw[n]) then [n] else [])
  }

  /** The cleaned table is exactly the surviving rows, cleaned, in order. */
  lemma {:induction false} CleanRowsAreKept(raw: seq<RawRow>, cols: Columns)
    ensures |CleanRows(raw, cols)| == |KeptIndices(raw)|
    ensures forall j :: 0 <= j < |KeptIndices(raw)| ==>
              CleanRows(raw, cols)[j] == CleanRow(raw[KeptIndices(raw)[j]], cols)
  {
    if raw != [] {
      var n := |raw| - 1;
      var init := raw[..n];
      CleanRowsAreKept(init, cols);
      assert forall k :: 0 <= k < n ==> init[k] == raw[k];
    }
  }

  // Counting rows by position

  /** A proof step for the counting folds: the matching positions among `n + 1`
      rows are those among the first `n`, and `n` itself when the last row
      matches. */
  lemma CountStep(before: set<nat>, after: set<nat>, n: nat, last: bool)
    requires forall k :: k in before ==> k < n
    requires forall k :: k in after <==> k in before || (last && k == n)
    ensures |after| == |before| + (if last then 1 else 0)
  {
    if last {
      assert after == before + {n};
    } else {
      assert after == before;
    }
  }
}
