/**
 * The frequency tables and averages of `generate_dashboard`: visits per month
 * (`groupby('Month').size()`, in label order), the status distribution
 * (`value_counts()`, most frequent first), the average visit duration and
 * the average number of visits per visited day.
 */
module Aggregation {
  import opened Wrappers
  import opened Text
  import opened Cleaning
  import opened Doctors
  import Sorting
  import Times

  /** One line of a frequency table. */
  datatype Count = Count(value: string, count: nat)

  function CountValue(c: Count): nat { c.count }
  function CountLabel(c: Count): string { c.value }

  /** How often `x` occurs in `xs`. */
  function Occurrences(xs: seq<string>, x: string): (n: nat)
    ensures n <= |xs|
  {
    if xs == [] then 0 else Occurrences(xs[..|xs| - 1], x) + (if xs[|xs| - 1] == x then 1 else 0)
  }

  /** A value occurs exactly when it is an element. */
  lemma {:induction false} OccurrencesPositive(xs: seq<string>, x: string)
    ensures Occurrences(xs, x) > 0 <==> x in xs
  {
    if xs != [] {
      var init := xs[..|xs| - 1];
      OccurrencesPositive(init, x);
      assert xs == init + [xs[|xs| - 1]];
    }
  }

  lemma OccurrencesAppend(xs: seq<string>, x: string, y: string)
    ensures Occurrences(xs + [x], y) == Occurrences(xs, y) + (if x == y then 1 else 0)
  {
    assert (xs + [x])[..|xs|] == xs;
  }

  /** The distinct values of `xs`, ascending: the keys of a `groupby`. */
  function Distinct(xs: seq<string>): (ks: seq<string>)
    ensures Ascending(ks)
    ensures forall x :: x in ks <==> x in xs
  {
    if xs == [] then []
    else
      var init := xs[..|xs| - 1];
      assert xs == init + [xs[|xs| - 1]];
      InsertName(xs[|xs| - 1], Distinct(init))
  }

  /** Every distinct value with its number of occurrences, in ascending
      order of the values. */
  function Table(xs: seq<string>): (t: seq<Count>)
    ensures |t| == |Distinct(xs)|
    ensures forall i :: 0 <= i < |t| ==> t[i].value == Distinct(xs)[i]
    ensures forall i :: 0 <= i < |t| ==> t[i].count == Occurrences(xs, Distinct(xs)[i])
  {
    var ks := Distinct(xs);
    seq(|ks|, i requires 0 <= i < |ks| => Count(ks[i], Occurrences(xs, ks[i])))
  }

  /** A frequency table lists each value of `xs` once, in ascending order, with
      a positive count equal to its number of occurrences. */
  lemma TableFacts(xs: seq<string>)
    ensures Sorting.StrictlyAscending(Table(xs), CountLabel)
    ensures forall i :: 0 <= i < |Table(xs)| ==>
              Table(xs)[i].value in xs && Table(xs)[i].count == Occurrences(xs, Table(xs)[i].value) > 0
    ensures forall x :: x in xs ==> exists i :: 0 <= i < |Table(xs)| && Table(xs)[i].value == x
  {
    var t, ks := Table(xs), Distinct(xs);
    forall i, j | 0 <= i < j < |t| ensures LexLess(CountLabel(t[i]), CountLabel(t[j])) {
      assert t[i].value == ks[i] && t[j].value == ks[j];
    }
    forall i | 0 <= i < |t| ensures t[i].value in xs && t[i].count == Occurrences(xs, t[i].value) > 0 {
      assert ks[i] in ks;
      OccurrencesPositive(xs, ks[i]);
    }
    forall x | x in xs ensures exists i :: 0 <= i < |t| && t[i].value == x {
      var i :| 0 <= i < |ks| && ks[i] == x;
      assert t[i].value == x;
    }
  }

  /** Total number of occurrences of the keys `ks`. */
  function OccurrenceSum(ks: seq<string>, xs: seq<string>): nat {
    if ks == [] then 0 else OccurrenceSum(ks[..|ks| - 1], xs) + Occurrences(xs, ks[|ks| - 1])
  }

  lemma {:induction false} OccurrenceSumEmpty(ks: seq<string>)
    ensures OccurrenceSum(ks, []) == 0
  {
    if ks != [] {
      OccurrenceSumEmpty(ks[..|ks| - 1]);
    }
  }

  lemma {:induction false} OccurrenceSumStep(ks: seq<string>, xs: seq<string>, x: string)
    ensures OccurrenceSum(ks, xs + [x]) == OccurrenceSum(ks, xs) + KeyCount(ks, x)
  {
    if ks != [] {
      OccurrenceSumStep(ks[..|ks| - 1], xs, x);
      OccurrencesAppend(xs, x, ks[|ks| - 1]);
    }
  }

  /** Distinct keys that cover every value count every value once. */
  lemma {:induction false} OccurrencePartition(ks: seq<string>, xs: seq<string>)
    requires Ascending(ks)
    requires forall k :: 0 <= k < |xs| ==> xs[k] in ks
    ensures OccurrenceSum(ks, xs) == |xs|
  {
    if xs == [] {
      OccurrenceSumEmpty(ks);
    } else {
      var init, last := xs[..|xs| - 1], xs[|xs| - 1];
      assert forall k :: 0 <= k < |init| ==> init[k] == xs[k];
      OccurrencePartition(ks, init);
      OccurrenceSumStep(ks, init, last);
      KeyCountAscending(ks, last);
      assert xs == init + [last];
    }
  }

  lemma {:induction false} SumOfOccurrences(t: seq<Count>, ks: seq<string>, xs: seq<string>, j: nat)
    requires |t| == |ks| && j <= |ks|
    requires forall i :: 0 <= i < |t| ==> t[i].count == Occurrences(xs, ks[i])
    ensures Sorting.Sum(t[..j], CountValue) == OccurrenceSum(ks[..j], xs)
  {
    if j > 0 {
      SumOfOccurrences(t, ks, xs, j - 1);
      Sorting.SumPrefix(t, CountValue, j);
      assert ks[..j][..j - 1] == ks[..j - 1];
      assert ks[..j][j - 1] == ks[j - 1];
    }
  }

  /** The counts of a frequency table add up to the number of values. */
  lemma TableSum(xs: seq<string>)
    ensures Sorting.Sum(Table(xs), CountValue) == |xs|
  {
    var t, ks := Table(xs), Distinct(xs);
    SumOfOccurrences(t, ks, xs, |ks|);
    assert t[..|ks|] == t && ks[..|ks|] == ks;
    OccurrencePartition(ks, xs);
  }

  /** The labels of a table, in its order. */
  function LabelsOf(t: seq<Count>): (ls: seq<string>)
    ensures |ls| == |t| && forall i :: 0 <= i < |t| ==> ls[i] == t[i].value
  {
    seq(|t|, i requires 0 <= i < |t| => t[i].value)
  }

  /** The counts of a table, in its order. */
  function CountsOf(t: seq<Count>): (cs: seq<nat>)
    ensures |cs| == |t| && forall i :: 0 <= i < |t| ==> cs[i] == t[i].count
  {
    seq(|t|, i requires 0 <= i < |t| => t[i].count)
  }

  // Visits per month

  /** The "Month" column. */
  function Months(rows: seq<Row>): (ms: seq<string>)
    ensures |ms| == |rows| && forall k :: 0 <= k < |rows| ==> ms[k] == rows[k].month
  {
    if rows == [] then [] else Months(rows[..|rows| - 1]) + [rows[|rows| - 1].month]
  }

  /** `monthly_stats`: each month with visits, in label order, with its count. */
  function MonthTable(rows: seq<Row>): seq<Count> {
    Table(Months(rows))
  }

  /** Every month listed has at least one visit of that month, and the counts
      add up to the number of visits. */
  lemma MonthTableFacts(rows: seq<Row>)
    ensures Sorting.StrictlyAscending(MonthTable(rows), CountLabel)
    ensures forall i :: 0 <= i < |MonthTable(rows)| ==>
              MonthTable(rows)[i].count == Occurrences(Months(rows), MonthTable(rows)[i].value) > 0
    ensures Sorting.Sum(MonthTable(rows), CountValue) == |rows|
  {
    TableFacts(Months(rows));
    TableSum(Months(rows));
  }

  /** Every month with a visit has its line. */
  lemma MonthListed(rows: seq<Row>, k: nat) returns (i: nat)
    requires k < |rows|
    ensures i < |MonthTable(rows)| && MonthTable(rows)[i].value == rows[k].month
  {
    var ms := Months(rows);
    TableFacts(ms);
    assert ms[k] in ms;
    i :| 0 <= i < |Table(ms)| && Table(ms)[i].value == ms[k];
  }

  /** A month of the table is the month of one of the visits. */
  lemma MonthOfVisit(rows: seq<Row>, i: nat) returns (k: nat)
    requires i < |MonthTable(rows)|
    ensures k < |rows| && rows[k].month == MonthTable(rows)[i].value
  {
    TableFacts(Months(rows));
    var ms := Months(rows);
    k :| 0 <= k < |ms| && ms[k] == MonthTable(rows)[i].value;
  }

  /** Because the labels have a fixed width, label order is calendar order:
      an earlier entry of the table belongs to an earlier month. */
  lemma MonthsChronological(rows: seq<Row>, cols: Columns, i: nat, j: nat) returns (k1: nat, k2: nat)
    requires forall k :: 0 <= k < |rows| ==> WellFormed(rows[k], cols)
    requires i < j < |MonthTable(rows)|
    ensures k1 < |rows| && rows[k1].month == MonthTable(rows)[i].value
    ensures k2 < |rows| && rows[k2].month == MonthTable(rows)[j].value
    ensures rows[k1].date.year < rows[k2].date.year ||
            (rows[k1].date.year == rows[k2].date.year && rows[k1].date.month < rows[k2].date.month)
  {
    MonthTableFacts(rows);
    k1 := MonthOfVisit(rows, i);
    k2 := MonthOfVisit(rows, j);
    assert LexLess(CountLabel(MonthTable(rows)[i]), CountLabel(MonthTable(rows)[j]));
    MonthLabelOrder(rows[k1].date, rows[k2].date);
  }

  // Status distribution

  /** The statuses that are present, in table order (`value_counts` drops
      missing values). */
  function Statuses(rows: seq<Row>): (ss: seq<string>)
    ensures |ss| <= |rows|
    ensures forall k :: 0 <= k < |rows| && rows[k].status.Some? ==> rows[k].status.value in ss
  {
    if rows == [] then []
    else
      var init, last := rows[..|rows| - 1], rows[|rows| - 1];
      assert forall k :: 0 <= k < |init| ==> init[k] == rows[k];
      Statuses(init) + (if last.status.Some? then [last.status.value] else [])
  }

  /** Every listed status is the status of some row. */
  lemma {:induction false} StatusOfRow(rows: seq<Row>, x: string) returns (k: nat)
    requires x in Statuses(rows)
    ensures k < |rows| && rows[k].status == Some(x)
  {
    var init, last := rows[..|rows| - 1], rows[|rows| - 1];
    if last.status == Some(x) {
      k := |rows| - 1;
    } else {
      k := StatusOfRow(init, x);
      assert init[k] == rows[k];
    }
  }

  /** `status_counts`: the frequency table of the statuses, most frequent
      first. */
  function StatusTable(rows: seq<Row>): seq<Count> {
    Sorting.SortDesc(Table(Statuses(rows)), CountValue)
  }

  /** The status table lists each status that occurs once, with its count,
      larger counts first and equal counts in label order. */
  lemma StatusTableFacts(rows: seq<Row>)
    ensures Sorting.Ranked(StatusTable(rows), CountValue, CountLabel)
    ensures forall i :: 0 <= i < |StatusTable(rows)| ==>
              StatusTable(rows)[i].value in Statuses(rows) &&
              StatusTable(rows)[i].count == Occurrences(Statuses(rows), StatusTable(rows)[i].value) > 0
    ensures Sorting.Sum(StatusTable(rows), CountValue) == |Statuses(rows)| <= |rows|
  {
    var ss := Statuses(rows);
    var t, st := Table(ss), StatusTable(rows);
    TableFacts(ss);
    Sorting.SortRanked(t, CountValue, CountLabel);
    Sorting.SortDescFacts(t, CountValue);
    forall i | 0 <= i < |st|
      ensures st[i].value in ss && st[i].count == Occurrences(ss, st[i].value) > 0
    {
      assert st[i] in multiset(t);
      var k :| 0 <= k < |t| && t[k] == st[i];
    }
    TableSum(ss);
    Sorting.SortSum(t, CountValue);
  }

  /** Every status that occurs in the table has its line. */
  lemma StatusListed(rows: seq<Row>, k: nat) returns (i: nat)
    requires k < |rows| && rows[k].status.Some?
    ensures i < |StatusTable(rows)| && StatusTable(rows)[i].value == rows[k].status.value
  {
    var ss := Statuses(rows);
    var t := Table(ss);
    TableFacts(ss);
    var x := rows[k].status.value;
    var m :| 0 <= m < |t| && t[m].value == x;
    i := Sorting.SortKeeps(t, CountValue, t[m]);
  }

  /** Two lines of the status table never share a label. */
  lemma StatusLabelsDistinct(rows: seq<Row>, i: nat, j: nat)
    requires i < j < |StatusTable(rows)|
    ensures StatusTable(rows)[i].value != StatusTable(rows)[j].value
  {
    StatusTableFacts(rows);
    var st := StatusTable(rows);
    assert Sorting.RankedBefore(st[i], st[j], CountValue, CountLabel);
    if st[i].value == st[j].value {
      assert st[i] == st[j];
      Sorting.RankedDistinct(st, CountValue, CountLabel, i, j);
    }
  }

  /** The positions of the rows whose status is `x`. */
  function StatusValuePositions(rows: seq<Row>, x: string): set<nat> {
    set k | 0 <= k < |rows| && rows[k].status == Some(x)
  }

  /** The positions of the rows that have a status. */
  function StatusPresentPositions(rows: seq<Row>): set<nat> {
    set k | 0 <= k < |rows| && rows[k].status.Some?
  }

  /** Each status occurs in the list once per row that has it. */
  lemma {:induction false} StatusMultiplicity(rows: seq<Row>, x: string)
    ensures Occurrences(Statuses(rows), x) == |StatusValuePositions(rows, x)|
  {
    if rows != [] {
      var init, last := rows[..|rows| - 1], rows[|rows| - 1];
      StatusMultiplicity(init, x);
      StatusValueStep(rows, x);
      if last.status.Some? {
        OccurrencesAppend(Statuses(init), last.status.value, x);
      } else {
        assert Statuses(rows) == Statuses(init);
      }
    }
  }

  /** A proof step of `StatusMultiplicity`: the last row adds its position when
      its status is `x`. */
  lemma StatusValueStep(rows: seq<Row>, x: string)
    requires rows != []
    ensures |StatusValuePositions(rows, x)| ==
            |StatusValuePositions(rows[..|rows| - 1], x)| + (if rows[|rows| - 1].status == Some(x) then 1 else 0)
  {
    var init := rows[..|rows| - 1];
    assert forall k :: 0 <= k < |init| ==> init[k] == rows[k];
    CountStep(StatusValuePositions(init, x), StatusValuePositions(rows, x), |init|, rows[|rows| - 1].status == Some(x));
  }

  /** The list holds one status per row that has one. */
  lemma {:induction false} StatusesPresent(rows: seq<Row>)
    ensures |Statuses(rows)| == |StatusPresentPositions(rows)|
  {
    if rows != [] {
      var init, last := rows[..|rows| - 1], rows[|rows| - 1];
      StatusesPresent(init);
      assert forall k :: 0 <= k < |init| ==> init[k] == rows[k];
      CountStep(StatusPresentPositions(init), StatusPresentPositions(rows), |init|, last.status.Some?);
    }
  }

  /** `value_counts`: each line counts the rows with that status, and the
      counts add up to the rows that have a status. */
  lemma StatusCountsRows(rows: seq<Row>)
    ensures forall i :: 0 <= i < |StatusTable(rows)| ==>
              StatusTable(rows)[i].count == |StatusValuePositions(rows, StatusTable(rows)[i].value)|
    ensures Sorting.Sum(StatusTable(rows), CountValue) == |StatusPresentPositions(rows)|
  {
    StatusTableFacts(rows);
    forall i | 0 <= i < |StatusTable(rows)|
      ensures StatusTable(rows)[i].count == |StatusValuePositions(rows, StatusTable(rows)[i].value)|
    {
      StatusMultiplicity(rows, StatusTable(rows)[i].value);
    }
    StatusesPresent(rows);
  }

  /** With no surviving row there is nothing to list: no month, no status and
      no doctor entry. */
  lemma NoRowsNoTables()
    ensures MonthTable([]) == [] && StatusTable([]) == [] && Ranking([]) == []
  {
    assert Distinct([]) == [] && SortedNames([]) == [];
  }

  // Averages

  /** The distinct visit dates (`dt.date.nunique()` counts them). */
  function VisitDays(rows: seq<Row>): (ds: set<CalendarDate>)
    ensures |ds| <= |rows|
    ensures rows != [] ==> |ds| > 0
    ensures forall k :: 0 <= k < |rows| ==> rows[k].date in ds
  {
    if rows == [] then {}
    else
      var init, d := rows[..|rows| - 1], rows[|rows| - 1].date;
      var before := VisitDays(init);
      assert forall k :: 0 <= k < |init| ==> init[k] == rows[k];
      assert |before + {d}| <= |before| + 1 by {
        if d in before {
          assert before + {d} == before;
        }
      }
      before + {d}
  }

  /** Every visit day is the date of some visit. */
  lemma {:induction false} DayOfVisit(rows: seq<Row>, d: CalendarDate) returns (k: nat)
    requires d in VisitDays(rows)
    ensures k < |rows| && rows[k].date == d
  {
    var init := rows[..|rows| - 1];
    if rows[|rows| - 1].date == d {
      k := |rows| - 1;
    } else {
      k := DayOfVisit(init, d);
      assert init[k] == rows[k];
    }
  }

  /** The visit days are exactly the dates of the rows. */
  lemma VisitDaysAre(rows: seq<Row>)
    ensures VisitDays(rows) == set k | 0 <= k < |rows| :: rows[k].date
  {
    var dates := set k | 0 <= k < |rows| :: rows[k].date;
    forall d | d in VisitDays(rows) ensures d in dates {
      var k := DayOfVisit(rows, d);
    }
  }

  /** `avg_visits_per_day` before rounding: visits per distinct visit date,
      or 0 without visits. Every visited day has a visit, so it is at least
      1, and it never exceeds the number of visits. */
  function AvgVisitsPerDay(rows: seq<Row>): (r: real)
    ensures rows == [] ==> r == 0.0
    ensures rows != [] ==> 1.0 <= r <= |rows| as real
  {
    var days := |VisitDays(rows)|;
    if days > 0 then
      RatioBounds(|rows|, days, 1, |rows|);
      (|rows| as real) / (days as real)
    else 0.0
  }

  /** A quotient of naturals lies between `lo` and `hi` when the dividend
      lies between `lo` and `hi` times the divisor. */
  lemma RatioBounds(a: nat, b: nat, lo: nat, hi: nat)
    requires b > 0 && lo * b <= a <= hi * b
    ensures lo as real <= (a as real) / (b as real) <= hi as real
  {
    assert (lo * b) as real == (lo as real) * (b as real);
    assert (hi * b) as real == (hi as real) * (b as real);
  }

  /** How many rows have a duration. */
  function TimedVisits(rows: seq<Row>): (n: nat)
    ensures n <= |rows|
  {
    if rows == [] then 0
    else TimedVisits(rows[..|rows| - 1]) + (if rows[|rows| - 1].duration.Some? then 1 else 0)
  }

  /** The durations of the rows that have one, added up, in seconds. */
  function TotalSeconds(rows: seq<Row>): nat {
    if rows == [] then 0
    else TotalSeconds(rows[..|rows| - 1]) + rows[|rows| - 1].duration.GetOr(0)
  }

  /** The positions of the rows that have a duration. */
  function TimedPositions(rows: seq<Row>): set<nat> {
    set k | 0 <= k < |rows| && rows[k].duration.Some?
  }

  /** `TimedVisits` counts exactly the rows that have a duration
      (`Duration.count()`, which skips the missing ones). */
  lemma {:induction false} TimedVisitsRows(rows: seq<Row>)
    ensures TimedVisits(rows) == |TimedPositions(rows)|
  {
    if rows != [] {
      var init := rows[..|rows| - 1];
      TimedVisitsRows(init);
      assert forall k :: 0 <= k < |init| ==> init[k] == rows[k];
      CountStep(TimedPositions(init), TimedPositions(rows), |init|, rows[|rows| - 1].duration.Some?);
    }
  }

  /** No duration is counted exactly when every duration is missing
      (`Duration.isna().all()`). */
  lemma TimedVisitsZero(rows: seq<Row>)
    ensures TimedVisits(rows) == 0 <==> forall k :: 0 <= k < |rows| ==> rows[k].duration.None?
  {
    TimedVisitsRows(rows);
    var s := TimedPositions(rows);
    if |s| > 0 {
      var k :| k in s;
    } else {
      assert s == {};
    }
  }

  /** The total of a table split in two is the sum of the totals of the parts. */
  lemma {:induction false} TotalSecondsAppend(xs: seq<Row>, ys: seq<Row>)
    ensures TotalSeconds(xs + ys) == TotalSeconds(xs) + TotalSeconds(ys)
    decreases |ys|
  {
    if ys == [] {
      assert xs + ys == xs;
    } else {
      var n := |ys| - 1;
      assert (xs + ys)[..|xs + ys| - 1] == xs + ys[..n];
      TotalSecondsAppend(xs, ys[..n]);
    }
  }

  /** One row adds its duration, or nothing when it has none (pandas skips the
      missing values). */
  lemma TotalSecondsOne(r: Row)
    ensures TotalSeconds([r]) == if r.duration.Some? then r.duration.value else 0
  {
    assert [r][..0] == [];
  }

  /** Durations between `lo` and `hi` add up to between `lo` and `hi` times
      their number. */
  lemma {:induction false} TotalSecondsBetween(rows: seq<Row>, lo: nat, hi: nat)
    requires forall k :: 0 <= k < |rows| && rows[k].duration.Some? ==> lo <= rows[k].duration.value <= hi
    ensures lo * TimedVisits(rows) <= TotalSeconds(rows) <= hi * TimedVisits(rows)
  {
    if rows != [] {
      var init, last := rows[..|rows| - 1], rows[|rows| - 1];
      assert forall k :: 0 <= k < |init| ==> init[k] == rows[k];
      TotalSecondsBetween(init, lo, hi);
      if last.duration.Some? {
        assert lo * (TimedVisits(init) + 1) == lo * TimedVisits(init) + lo;
        assert hi * (TimedVisits(init) + 1) == hi * TimedVisits(init) + hi;
      }
    }
  }

  /** `avg_duration_mins` before rounding: the mean of the durations that
      exist, in minutes; 0 when the time columns are missing or no row has
      a duration. */
  function AvgDurationMins(rows: seq<Row>, cols: Columns): (r: real)
    ensures !cols.hasTimes || (forall k :: 0 <= k < |rows| ==> rows[k].duration.None?) ==> r == 0.0
    ensures cols.hasTimes && TimedVisits(rows) > 0 ==> r * 60.0 * (TimedVisits(rows) as real) == TotalSeconds(rows) as real
  {
    TimedVisitsZero(rows);
    var n := TimedVisits(rows);
    if cols.hasTimes && n > 0 then (TotalSeconds(rows) as real / n as real) / 60.0 else 0.0
  }

  /** The mean lies between any lower and any upper bound of the durations. */
  lemma AvgDurationBetween(rows: seq<Row>, cols: Columns, lo: nat, hi: nat)
    requires cols.hasTimes && TimedVisits(rows) > 0
    requires forall k :: 0 <= k < |rows| && rows[k].duration.Some? ==> lo <= rows[k].duration.value <= hi
    ensures (lo as real) / 60.0 <= AvgDurationMins(rows, cols) <= (hi as real) / 60.0
  {
    TotalSecondsBetween(rows, lo, hi);
    RatioBounds(TotalSeconds(rows), TimedVisits(rows), lo, hi);
  }

  /** Every duration is below a day, so the mean is in [0, 1440) minutes. */
  lemma AvgDurationBelowDay(rows: seq<Row>, cols: Columns)
    requires forall k :: 0 <= k < |rows| ==> WellFormed(rows[k], cols)
    ensures 0.0 <= AvgDurationMins(rows, cols) < 1440.0
  {
    if cols.hasTimes && TimedVisits(rows) > 0 {
      AvgDurationBetween(rows, cols, 0, Times.SecondsPerDay - 1);
    }
  }

  // Top doctors

  const TopCount: nat := 10

  /** `doctor_stats[:10]`. */
  function Top(ds: seq<DoctorStat>): (t: seq<DoctorStat>)
    ensures |t| == if |ds| < TopCount then |ds| else TopCount
    ensures forall i :: 0 <= i < |t| ==> t[i] == ds[i]
  {
    if |ds| <= TopCount then ds else ds[..TopCount]
  }

  /** No doctor left out of the top list has more visits than one in it. */
  lemma TopIsBest(rows: seq<Row>, i: nat, j: nat)
    requires i < |Top(Ranking(rows))| <= j < |Ranking(rows)|
    ensures Top(Ranking(rows))[i].visits >= Ranking(rows)[j].visits
  {
    RankingOrder(rows);
    assert Sorting.RankedBefore(Ranking(rows)[i], Ranking(rows)[j], Visits, StatName);
  }
}
