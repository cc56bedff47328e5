/**
 * `generate_dashboard` from the loaded spreadsheet to the data the page
 * embeds: the rows are cleaned, the headline figures computed, and the
 * doctor entries built one group at a time, then ranked by visits.
 */
module Dashboard {
  import opened Text
  import opened Cleaning
  import opened Doctors
  import opened Aggregation
  import Sorting

  /** The object serialised into the page. */
  datatype Report = Report(
    totalVisits: nat,
    uniqueDoctors: nat,
    avgDurationMins: real,
    avgVisitsPerDay: real,
    monthlyLabels: seq<string>,
    monthlyData: seq<nat>,
    statusLabels: seq<string>,
    statusData: seq<nat>,
    topDoctorsLabels: seq<string>,
    topDoctorsData: seq<nat>,
    topDoctorsVisited: seq<nat>,
    topDoctorsNotVisited: seq<nat>,
    doctors: seq<DoctorStat>)

  /** The dashboard data of the spreadsheet rows `raw`, whose optional columns
      are `cols`. */
  method BuildReport(raw: seq<RawRow>, cols: Columns) returns (report: Report)
    // the headline figures
    ensures var rows := CleanRows(raw, cols);
            report.totalVisits == |rows| && report.uniqueDoctors == |DoctorNames(rows)| &&
            report.avgDurationMins == AvgDurationMins(rows, cols) &&
            report.avgVisitsPerDay == AvgVisitsPerDay(rows)
    ensures 0.0 <= report.avgDurationMins < 1440.0
    ensures report.totalVisits == 0 ==> report.avgVisitsPerDay == 0.0
    ensures report.totalVisits > 0 ==> report.avgVisitsPerDay >= 1.0
    // visits per month, in calendar order, adding up to the visits
    ensures var t := MonthTable(CleanRows(raw, cols));
            report.monthlyLabels == LabelsOf(t) && report.monthlyData == CountsOf(t) &&
            Sorting.Sum(t, CountValue) == report.totalVisits
    ensures forall i, j :: 0 <= i < j < |report.monthlyLabels| ==> LexLess(report.monthlyLabels[i], report.monthlyLabels[j])
    ensures forall i :: 0 <= i < |report.monthlyData| ==> report.monthlyData[i] > 0
    // the status distribution, most frequent first
    ensures var t := StatusTable(CleanRows(raw, cols));
            report.statusLabels == LabelsOf(t) && report.statusData == CountsOf(t) &&
            Sorting.Sum(t, CountValue) <= report.totalVisits
    ensures forall i, j :: 0 <= i < j < |report.statusData| ==> report.statusData[i] >= report.statusData[j]
    // one entry per doctor, ranked by visits, ties in name order
    ensures report.doctors == Ranking(CleanRows(raw, cols))
    ensures |report.doctors| == report.uniqueDoctors
    ensures Sorting.Ranked(report.doctors, Visits, StatName)
    ensures Sorting.Sum(report.doctors, Visits) == report.totalVisits
    // the top ten, as four aligned columns
    ensures var n := |report.topDoctorsLabels|;
            n == (if |report.doctors| < TopCount then |report.doctors| else TopCount) &&
            |report.topDoctorsData| == n && |report.topDoctorsVisited| == n && |report.topDoctorsNotVisited| == n
    ensures forall i :: 0 <= i < |report.topDoctorsLabels| ==>
              report.topDoctorsLabels[i] == report.doctors[i].name &&
              report.topDoctorsData[i] == report.doctors[i].visits &&
              report.topDoctorsVisited[i] == report.doctors[i].visitedCount &&
              report.topDoctorsNotVisited[i] == report.doctors[i].notVisitedCount
  {
    var rows := CleanRows(raw, cols);
    var totalVisits, uniqueDoctors, avgDurationMins, avgVisitsPerDay := Headline(rows, cols);
    var monthlyLabels, monthlyData := MonthlySeries(rows);
    var doctorStats := RankDoctors(rows);
    var topLabels, topData, topVisited, topNotVisited := TopColumns(doctorStats);
    var statusLabels, statusData := StatusSeries(rows);
    report := Report(totalVisits, uniqueDoctors, avgDurationMins, avgVisitsPerDay,
                     monthlyLabels, monthlyData, statusLabels, statusData,
                     topLabels, topData, topVisited, topNotVisited, doctorStats);
  }

  /** `total_visits`, `unique_doctors`, `avg_duration_mins` and
      `avg_visits_per_day` of the cleaned rows. */
  method Headline(rows: seq<Row>, cols: Columns) returns (totalVisits: nat, uniqueDoctors: nat, avgDurationMins: real, avgVisitsPerDay: real)
    requires forall k :: 0 <= k < |rows| ==> WellFormed(rows[k], cols)
    ensures totalVisits == |rows| && uniqueDoctors == |DoctorNames(rows)|
    ensures avgDurationMins == AvgDurationMins(rows, cols) && 0.0 <= avgDurationMins < 1440.0
    ensures avgVisitsPerDay == AvgVisitsPerDay(rows)
    ensures rows == [] ==> avgVisitsPerDay == 0.0
    ensures rows != [] ==> avgVisitsPerDay >= 1.0
  {
    totalVisits := |rows|;
    uniqueDoctors := |DoctorNames(rows)|;
    avgDurationMins := AvgDurationMins(rows, cols);
    AvgDurationBelowDay(rows, cols);
    avgVisitsPerDay := AvgVisitsPerDay(rows);
  }

  /** `monthly_labels` and `monthly_data`. */
  method MonthlySeries(rows: seq<Row>) returns (labels: seq<string>, data: seq<nat>)
    ensures labels == LabelsOf(MonthTable(rows)) && data == CountsOf(MonthTable(rows))
    ensures forall i, j :: 0 <= i < j < |labels| ==> LexLess(labels[i], labels[j])
    ensures forall i :: 0 <= i < |data| ==> data[i] > 0
    ensures Sorting.Sum(MonthTable(rows), CountValue) == |rows|
  {
    var monthly := MonthTable(rows);
    MonthTableFacts(rows);
    labels := LabelsOf(monthly);
    data := CountsOf(monthly);
    assert forall i, j :: 0 <= i < j < |labels| ==> LexLess(CountLabel(monthly[i]), CountLabel(monthly[j]));
  }

  /** `status_labels` and `status_data`. */
  method StatusSeries(rows: seq<Row>) returns (labels: seq<string>, data: seq<nat>)
    ensures labels == LabelsOf(StatusTable(rows)) && data == CountsOf(StatusTable(rows))
    ensures forall i, j :: 0 <= i < j < |data| ==> data[i] >= data[j]
    ensures Sorting.Sum(StatusTable(rows), CountValue) <= |rows|
  {
    var status := StatusTable(rows);
    StatusTableFacts(rows);
    assert Sorting.NonIncreasing(status, CountValue);
    labels := LabelsOf(status);
    data := CountsOf(status);
    assert forall i, j :: 0 <= i < j < |data| ==> CountValue(status[i]) >= CountValue(status[j]);
  }

  /** `doctor_stats` after the sort at line 107. */
  method RankDoctors(rows: seq<Row>) returns (doctorStats: seq<DoctorStat>)
    ensures doctorStats == Ranking(rows)
    ensures |doctorStats| == |DoctorNames(rows)|
    ensures Sorting.Ranked(doctorStats, Visits, StatName)
    ensures Sorting.Sum(doctorStats, Visits) == |rows|
  {
    doctorStats := DoctorEntries(rows);
    doctorStats := Sorting.SortDesc(doctorStats, Visits);
    RankingOrder(rows);
    RankingEntries(rows);
    RankingVisitsTotal(rows);
  }

  /** The loop over the groups: one entry per doctor, in the ascending name
      order of the groups. */
  method DoctorEntries(rows: seq<Row>) returns (doctorStats: seq<DoctorStat>)
    ensures doctorStats == Entries(rows)
  {
    var keys := SortedNames(rows);
    KeysHaveGroups(rows);
    ghost var entries := Entries(rows);
    doctorStats := [];
    var j := 0;
    while j < |keys|
      invariant j <= |keys|
      invariant doctorStats == entries[..j]
    {
      var entry := GroupEntry(rows, keys[j]);
      assert entry == entries[j];
      NextPrefix(entries, j);
      doctorStats := doctorStats + [entry];
      j := j + 1;
    }
    assert entries[..j] == entries;
  }

  /** A proof step of the loop: a prefix one longer is the shorter prefix and
      the next element. */
  lemma NextPrefix<T>(s: seq<T>, j: nat)
    requires j < |s|
    ensures s[..j + 1] == s[..j] + [s[j]]
  {
  }

  /** One iteration of the loop: the entry of doctor `medico`, from the rows of
      their group. */
  method GroupEntry(rows: seq<Row>, medico: string) returns (entry: DoctorStat)
    requires |GroupOf(rows, medico)| > 0
    ensures entry == StatOf(medico, GroupOf(rows, medico))
  {
    var group := GroupOf(rows, medico);
    var visits := |group|;
    var visitedCount := CountStatus(group, Visited);
    var notVisitedCount := CountStatus(group, NotVisited);
    var lastVisit := FormatDate(MaxDate(group));
    entry := DoctorStat(medico, visits, visitedCount, notVisitedCount, lastVisit, History(group));
  }

  /** The four `top_doctors_*` lists: the names, visits, visited and not
      visited counts of the first ten entries, index by index. */
  method TopColumns(doctors: seq<DoctorStat>) returns (labels: seq<string>, data: seq<nat>, visited: seq<nat>, notVisited: seq<nat>)
    ensures |labels| == (if |doctors| < TopCount then |doctors| else TopCount)
    ensures |data| == |labels| && |visited| == |labels| && |notVisited| == |labels|
    ensures forall i :: 0 <= i < |labels| ==>
              labels[i] == doctors[i].name && data[i] == doctors[i].visits &&
              visited[i] == doctors[i].visitedCount && notVisited[i] == doctors[i].notVisitedCount
  {
    var top := Top(doctors);
    labels := seq(|top|, i requires 0 <= i < |top| => top[i].name);
    data := seq(|top|, i requires 0 <= i < |top| => top[i].visits);
    visited := seq(|top|, i requires 0 <= i < |top| => top[i].visitedCount);
    notVisited := seq(|top|, i requires 0 <= i < |top| => top[i].notVisitedCount);
  }
}
