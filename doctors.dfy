/**
 * The per-doctor statistics of `generate_dashboard`: the cleaned rows are
 * grouped by normalised name (`df.groupby('Medico')`, whose groups come in
 * ascending name order), and each group yields its visit count, how many of
 * its statuses are "visitado" / "no visitado" ignoring case, the newest visit
 * date and the history of its rows, newest first.
 */
module Doctors {
  import opened Wrappers
  import opened Text
  import opened Cleaning
  import Sorting

  /** Strictly ascending strings, as the keys of a pandas `groupby`. */
  predicate Ascending(ks: seq<string>) {
    forall i, j :: 0 <= i < j < |ks| ==> LexLess(ks[i], ks[j])
  }

  /** The distinct doctor names of the table. */
  function DoctorNames(rows: seq<Row>): (ns: set<string>)
    ensures forall k :: 0 <= k < |rows| ==> rows[k].doctor in ns
  {
    if rows == [] then {}
    else
      var init := rows[..|rows| - 1];
      assert forall k :: 0 <= k < |init| ==> init[k] == rows[k];
      DoctorNames(init) + {rows[|rows| - 1].doctor}
  }

  /** `n` added to an ascending list of names, where it belongs. */
  function InsertName(n: string, ks: seq<string>): (r: seq<string>)
    requires Ascending(ks)
    ensures Ascending(r)
    ensures forall x :: x in r <==> x == n || x in ks
    ensures n in ks ==> r == ks
    ensures n !in ks ==> |r| == |ks| + 1
  {
    if ks == [] then [n]
    else if ks[0] == n then ks
    else if LexLess(n, ks[0]) then
      assert forall j :: 0 <= j < |ks| ==> LexLess(n, ks[j]) by {
        forall j | 0 <= j < |ks| ensures LexLess(n, ks[j]) {
          if j > 0 {
            LexLessTransitive(n, ks[0], ks[j]);
          }
        }
      }
      assert n !in ks by {
        if n in ks {
          var j :| 0 <= j < |ks| && ks[j] == n;
          LexLessIrreflexive(n);
        }
      }
      [n] + ks
    else
      LexLessTotal(n, ks[0]);
      assert Ascending(ks[1..]) by {
        forall i, j | 0 <= i < j < |ks[1..]| ensures LexLess(ks[1..][i], ks[1..][j]) {
          assert ks[1..][i] == ks[i + 1] && ks[1..][j] == ks[j + 1];
        }
      }
      var rest := InsertName(n, ks[1..]);
      assert forall j :: 0 <= j < |rest| ==> LexLess(ks[0], rest[j]) by {
        forall j | 0 <= j < |rest| ensures LexLess(ks[0], rest[j]) {
          if rest[j] != n {
            assert rest[j] in ks[1..];
            var m :| 0 <= m < |ks[1..]| && ks[1..][m] == rest[j];
            assert ks[m + 1] == rest[j];
          }
        }
      }
      assert ks == [ks[0]] + ks[1..];
      assert n in ks <==> n in ks[1..];
      [ks[0]] + rest
  }

  /** The group keys in the order pandas visits them: each name once, ascending. */
  function SortedNames(rows: seq<Row>): (ks: seq<string>)
    ensures Ascending(ks)
    ensures forall n :: n in ks <==> n in DoctorNames(rows)
    ensures |ks| == |DoctorNames(rows)|
  {
    if rows == [] then []
    else
      var init := rows[..|rows| - 1];
      var n := rows[|rows| - 1].doctor;
      var ks := SortedNames(init);
      assert DoctorNames(rows) == DoctorNames(init) + {n};
      InsertNameCounts(n, ks, DoctorNames(init));
      InsertName(n, ks)
  }

  /** Adding a name to the key list adds it to the set of names the list holds. */
  lemma InsertNameCounts(n: string, ks: seq<string>, names: set<string>)
    requires Ascending(ks) && (forall x :: x in ks <==> x in names) && |ks| == |names|
    ensures forall x :: x in InsertName(n, ks) <==> x in names + {n}
    ensures |InsertName(n, ks)| == |names + {n}|
  {
    if n in names {
      assert names + {n} == names;
    } else {
      assert |names + {n}| == |names| + 1;
    }
  }

  /** The rows of doctor `n`, in table order. */
  function GroupOf(rows: seq<Row>, n: string): (g: seq<Row>)
    ensures forall k :: 0 <= k < |g| ==> g[k].doctor == n
    ensures |g| > 0 <==> n in DoctorNames(rows)
  {
    if rows == [] then []
    else
      var init := rows[..|rows| - 1];
      var last := rows[|rows| - 1];
      assert DoctorNames(rows) == DoctorNames(init) + {last.doctor};
      GroupOf(init, n) + (if last.doctor == n then [last] else [])
  }

  /** The group of `n` holds exactly the rows of doctor `n`, each as often as
      the table does. */
  lemma {:induction false} GroupOfRows(rows: seq<Row>, n: string)
    ensures forall r :: multiset(GroupOf(rows, n))[r] == if r.doctor == n then multiset(rows)[r] else 0
  {
    if rows != [] {
      var init := rows[..|rows| - 1];
      var last := rows[|rows| - 1];
      GroupOfRows(init, n);
      assert rows == init + [last];
    }
  }

  /** The names are exactly the doctors of the rows. */
  lemma {:induction false} NamesAreDoctors(rows: seq<Row>, n: string) returns (k: nat)
    requires n in DoctorNames(rows)
    ensures k < |rows| && rows[k].doctor == n
  {
    var init := rows[..|rows| - 1];
    if n == rows[|rows| - 1].doctor {
      k := |rows| - 1;
    } else {
      k := NamesAreDoctors(init, n);
      assert init[k] == rows[k];
    }
  }

  const Visited: string := "visitado"
  const NotVisited: string := "no visitado"

  /** `status.str.lower() == word`; a missing status never matches. */
  predicate HasStatus(r: Row, word: string) {
    r.status.Some? && Lower(r.status.value) == word
  }

  /** How many rows have the status `word`, ignoring case. */
  function CountStatus(rows: seq<Row>, word: string): (c: nat)
    ensures c <= |rows|
  {
    if rows == [] then 0
    else CountStatus(rows[..|rows| - 1], word) + (if HasStatus(rows[|rows| - 1], word) then 1 else 0)
  }

  /** No row counts both as visited and as not visited. */
  lemma {:induction false} StatusCountsDisjoint(rows: seq<Row>)
    ensures CountStatus(rows, Visited) + CountStatus(rows, NotVisited) <= |rows|
  {
    if rows != [] {
      StatusCountsDisjoint(rows[..|rows| - 1]);
    }
  }

  /** The positions of the rows whose lower-cased status is `word`. */
  function StatusPositions(rows: seq<Row>, word: string): set<nat> {
    set k | 0 <= k < |rows| && HasStatus(rows[k], word)
  }

  /** `CountStatus` is the number of rows whose lower-cased status is `word`. */
  lemma {:induction false} CountStatusRows(rows: seq<Row>, word: string)
    ensures CountStatus(rows, word) == |StatusPositions(rows, word)|
  {
    if rows != [] {
      var init := rows[..|rows| - 1];
      CountStatusRows(init, word);
      assert forall k :: 0 <= k < |init| ==> init[k] == rows[k];
      CountStep(StatusPositions(init, word), StatusPositions(rows, word), |init|, HasStatus(rows[|rows| - 1], word));
    }
  }

  /** The count is positive exactly when some row has the status. */
  lemma CountStatusPositive(rows: seq<Row>, word: string)
    ensures CountStatus(rows, word) > 0 <==> exists k :: 0 <= k < |rows| && HasStatus(rows[k], word)
  {
    CountStatusRows(rows, word);
    var s := StatusPositions(rows, word);
    if |s| > 0 {
      var k :| k in s;
    } else {
      assert s == {};
    }
  }

  /** Statuses "Visitado", "visitado" and "No visitado": two visited and one not
      visited. */
  lemma StatusExample(r1: Row, r2: Row, r3: Row)
    requires r1.status == Some("Visitado") && r2.status == Some("visitado") && r3.status == Some("No visitado")
    ensures CountStatus([r1, r2, r3], Visited) == 2
    ensures CountStatus([r1, r2, r3], NotVisited) == 1
  {
    assert Lower("Visitado") == Visited;
    assert Lower("visitado") == Visited;
    assert Lower("No visitado") == NotVisited;
    assert HasStatus(r1, Visited) && HasStatus(r2, Visited) && !HasStatus(r3, Visited);
    assert !HasStatus(r1, NotVisited) && !HasStatus(r2, NotVisited) && HasStatus(r3, NotVisited);
    var g := [r1, r2, r3];
    assert g[..2] == [r1, r2] && g[..2][..1] == [r1] && [r1][..0] == [];
    assert CountStatus([r1], Visited) == 1 && CountStatus([r1], NotVisited) == 0;
    assert CountStatus([r1, r2], Visited) == 2 && CountStatus([r1, r2], NotVisited) == 0;
  }

  /** The newest date of a non-empty group (`group['Fecha de visita'].max()`). */
  function MaxDate(g: seq<Row>): (d: CalendarDate)
    requires |g| > 0
  {
    var last := g[|g| - 1];
    if |g| == 1 then last.date
    else
      var m := MaxDate(g[..|g| - 1]);
      if DateKey(m) < DateKey(last.date) then last.date else m
  }

  /** The newest date is the date of one of the group's rows, at the position
      returned, and no row is newer. */
  lemma {:induction false} MaxDateFacts(g: seq<Row>) returns (k: nat)
    requires |g| > 0
    ensures k < |g| && g[k].date == MaxDate(g)
    ensures forall i :: 0 <= i < |g| ==> DateKey(g[i].date) <= DateKey(MaxDate(g))
  {
    var n := |g| - 1;
    if n == 0 {
      k := 0;
    } else {
      var init := g[..n];
      assert forall i :: 0 <= i < n ==> init[i] == g[i];
      k := MaxDateFacts(init);
      if DateKey(MaxDate(init)) < DateKey(g[n].date) {
        k := n;
      }
    }
  }

  /** One record of a doctor's history. */
  datatype HistoryEntry = HistoryEntry(date: string, comment: Option<string>, status: Option<string>, photo: string)

  function EntryOf(r: Row): HistoryEntry {
    HistoryEntry(FormatDate(r.date), r.comment, r.status, r.photo)
  }

  function RowDateKey(r: Row): nat { DateKey(r.date) }

  /** The group's rows newest first. */
  function HistoryRows(g: seq<Row>): seq<Row> {
    Sorting.SortDesc(g, RowDateKey)
  }

  function History(g: seq<Row>): (h: seq<HistoryEntry>)
    ensures |h| == |g|
  {
    var rs := HistoryRows(g);
    seq(|rs|, i requires 0 <= i < |rs| => EntryOf(rs[i]))
  }

  /** The history holds every row of the group once, newest first, and its
      first record carries the group's last visit date. */
  lemma HistoryFacts(g: seq<Row>)
    requires |g| > 0
    ensures multiset(HistoryRows(g)) == multiset(g)
    ensures forall i, j :: 0 <= i < j < |g| ==> DateKey(HistoryRows(g)[i].date) >= DateKey(HistoryRows(g)[j].date)
    ensures forall i :: 0 <= i < |g| ==> History(g)[i] == EntryOf(HistoryRows(g)[i])
    ensures History(g)[0].date == FormatDate(MaxDate(g))
  {
    var rs := HistoryRows(g);
    Sorting.SortDescFacts(g, RowDateKey);
    forall i, j | 0 <= i < j < |g| ensures DateKey(rs[i].date) >= DateKey(rs[j].date) {
      assert RowDateKey(rs[i]) >= RowDateKey(rs[j]);
    }
    var m := MaxDate(g);
    var k := MaxDateFacts(g);
    assert g[k] in multiset(rs);
    var i :| 0 <= i < |rs| && rs[i] == g[k];
    if i > 0 {
      assert RowDateKey(rs[0]) >= RowDateKey(rs[i]);
    }
    assert rs[0] in multiset(g);
    var k0 :| 0 <= k0 < |g| && g[k0] == rs[0];
    DateKeyOrder(rs[0].date, m);
  }

  /** One element of `doctor_stats`. */
  datatype DoctorStat = DoctorStat(
    name: string,
    visits: nat,
    visitedCount: nat,
    notVisitedCount: nat,
    lastVisit: string,
    history: seq<HistoryEntry>)

  /** The statistics of doctor `name`, whose rows are `g`. */
  function StatOf(name: string, g: seq<Row>): (d: DoctorStat)
    requires |g| > 0
    ensures d.name == name && d.visits == |g| && |d.history| == |g|
    ensures d.visitedCount + d.notVisitedCount <= d.visits
  {
    StatusCountsDisjoint(g);
    DoctorStat(name, |g|, CountStatus(g, Visited), CountStatus(g, NotVisited), FormatDate(MaxDate(g)), History(g))
  }

  function Visits(d: DoctorStat): nat { d.visits }
  function StatName(d: DoctorStat): string { d.name }

  /** Every key has a non-empty group. */
  lemma KeysHaveGroups(rows: seq<Row>)
    ensures forall i :: 0 <= i < |SortedNames(rows)| ==> |GroupOf(rows, SortedNames(rows)[i])| > 0
  {
    var ks := SortedNames(rows);
    forall i | 0 <= i < |ks| ensures |GroupOf(rows, ks[i])| > 0 {
      assert ks[i] in ks;
    }
  }

  /** `doctor_stats` before sorting: one entry per group, in group order. */
  function Entries(rows: seq<Row>): (es: seq<DoctorStat>)
    ensures |es| == |SortedNames(rows)|
    ensures forall i :: 0 <= i < |es| ==> es[i].name == SortedNames(rows)[i]
    ensures forall i :: 0 <= i < |es| ==> es[i].visits == |GroupOf(rows, SortedNames(rows)[i])|
  {
    var ks := SortedNames(rows);
    KeysHaveGroups(rows);
    seq(|ks|, i requires 0 <= i < |ks| => StatOf(ks[i], GroupOf(rows, ks[i])))
  }

  /** `doctor_stats` after `sort(key=visits, reverse=True)`. */
  function Ranking(rows: seq<Row>): seq<DoctorStat> {
    Sorting.SortDesc(Entries(rows), Visits)
  }

  /** The ranking puts more visits first and, among equal visit counts, keeps
      the ascending name order of the groups. */
  lemma RankingOrder(rows: seq<Row>)
    ensures Sorting.Ranked(Ranking(rows), Visits, StatName)
  {
    var es := Entries(rows);
    assert Sorting.StrictlyAscending(es, StatName) by {
      forall i, j | 0 <= i < j < |es| ensures LexLess(StatName(es[i]), StatName(es[j])) {
        assert es[i].name == SortedNames(rows)[i] && es[j].name == SortedNames(rows)[j];
      }
    }
    Sorting.SortRanked(es, Visits, StatName);
  }

  /** Every entry of the ranking holds the statistics of one of the doctors. */
  lemma RankingEntries(rows: seq<Row>)
    ensures |Ranking(rows)| == |DoctorNames(rows)|
    ensures forall i :: 0 <= i < |Ranking(rows)| ==>
              Ranking(rows)[i].name in DoctorNames(rows) &&
              Ranking(rows)[i] == StatOf(Ranking(rows)[i].name, GroupOf(rows, Ranking(rows)[i].name))
  {
    var es, rs, ks := Entries(rows), Ranking(rows), SortedNames(rows);
    Sorting.SortDescFacts(es, Visits);
    forall i | 0 <= i < |rs|
      ensures rs[i].name in DoctorNames(rows) && rs[i] == StatOf(rs[i].name, GroupOf(rows, rs[i].name))
    {
      assert rs[i] in multiset(es);
      var k :| 0 <= k < |es| && es[k] == rs[i];
      assert ks[k] in ks;
    }
  }

  /** Every doctor has an entry in the ranking. */
  lemma RankingCoversDoctors(rows: seq<Row>)
    ensures forall n :: n in DoctorNames(rows) ==> exists i :: 0 <= i < |Ranking(rows)| && Ranking(rows)[i].name == n
  {
    forall n | n in DoctorNames(rows) ensures exists i :: 0 <= i < |Ranking(rows)| && Ranking(rows)[i].name == n {
      RankingHas(rows, n);
    }
  }

  lemma RankingHas(rows: seq<Row>, n: string)
    requires n in DoctorNames(rows)
    ensures exists i :: 0 <= i < |Ranking(rows)| && Ranking(rows)[i].name == n
  {
    var es, ks := Entries(rows), SortedNames(rows);
    assert n in ks;
    var k :| 0 <= k < |ks| && ks[k] == n;
    var e := es[k];
    assert e.name == n;
    var i := Sorting.SortKeeps(es, Visits, e);
    assert Ranking(rows)[i].name == n;
  }

  /** No doctor has two entries in the ranking. */
  lemma RankingNamesDistinct(rows: seq<Row>)
    ensures forall i, j :: 0 <= i < j < |Ranking(rows)| ==> Ranking(rows)[i].name != Ranking(rows)[j].name
  {
    var rs := Ranking(rows);
    RankingOrder(rows);
    RankingEntries(rows);
    forall i, j | 0 <= i < j < |rs| ensures rs[i].name != rs[j].name {
      Sorting.RankedDistinct(rs, Visits, StatName, i, j);
    }
  }

  /** Total size of the groups of the keys `ks`. */
  function GroupSizes(ks: seq<string>, rows: seq<Row>): nat {
    if ks == [] then 0 else GroupSizes(ks[..|ks| - 1], rows) + |GroupOf(rows, ks[|ks| - 1])|
  }

  /** How often `n` occurs in `ks`. */
  function KeyCount(ks: seq<string>, n: string): nat {
    if ks == [] then 0 else KeyCount(ks[..|ks| - 1], n) + (if ks[|ks| - 1] == n then 1 else 0)
  }

  lemma {:induction false} KeyCountAscending(ks: seq<string>, n: string)
    requires Ascending(ks)
    ensures KeyCount(ks, n) == if n in ks then 1 else 0
  {
    if ks != [] {
      var init := ks[..|ks| - 1];
      assert Ascending(init) by {
        forall i, j | 0 <= i < j < |init| ensures LexLess(init[i], init[j]) {
          assert init[i] == ks[i] && init[j] == ks[j];
        }
      }
      KeyCountAscending(init, n);
      assert ks == init + [ks[|ks| - 1]];
      if ks[|ks| - 1] == n && n in init {
        var i :| 0 <= i < |init| && init[i] == n;
        assert LexLess(ks[i], ks[|ks| - 1]);
        LexLessIrreflexive(n);
      }
    }
  }

  lemma {:induction false} GroupSizesEmpty(ks: seq<string>)
    ensures GroupSizes(ks, []) == 0
  {
    if ks != [] {
      GroupSizesEmpty(ks[..|ks| - 1]);
    }
  }

  /** One more row adds one to the group of each key equal to its doctor. */
  lemma {:induction false} GroupSizesStep(ks: seq<string>, rows: seq<Row>, r: Row)
    ensures GroupSizes(ks, rows + [r]) == GroupSizes(ks, rows) + KeyCount(ks, r.doctor)
  {
    if ks != [] {
      var k := ks[|ks| - 1];
      GroupSizesStep(ks[..|ks| - 1], rows, r);
      assert (rows + [r])[..|rows + [r]| - 1] == rows;
      assert GroupOf(rows + [r], k) == GroupOf(rows, k) + (if r.doctor == k then [r] else []);
    }
  }

  /** Groups over distinct keys that cover every doctor partition the rows. */
  lemma {:induction false} Partition(ks: seq<string>, rows: seq<Row>)
    requires Ascending(ks)
    requires forall k :: 0 <= k < |rows| ==> rows[k].doctor in ks
    ensures GroupSizes(ks, rows) == |rows|
  {
    if rows == [] {
      GroupSizesEmpty(ks);
    } else {
      var init, last := rows[..|rows| - 1], rows[|rows| - 1];
      assert forall k :: 0 <= k < |init| ==> init[k] == rows[k];
      Partition(ks, init);
      GroupSizesStep(ks, init, last);
      KeyCountAscending(ks, last.doctor);
      assert rows == init + [last];
    }
  }

  /** Entries whose visits are the sizes of the groups of `ks` add up to the
      total size of those groups. */
  lemma {:induction false} SumOfGroupSizes(es: seq<DoctorStat>, ks: seq<string>, rows: seq<Row>, j: nat)
    requires |es| == |ks| && j <= |ks|
    requires forall i :: 0 <= i < |es| ==> es[i].visits == |GroupOf(rows, ks[i])|
    ensures Sorting.Sum(es[..j], Visits) == GroupSizes(ks[..j], rows)
  {
    if j > 0 {
      SumOfGroupSizes(es, ks, rows, j - 1);
      Sorting.SumPrefix(es, Visits, j);
      assert ks[..j][..j - 1] == ks[..j - 1];
      assert ks[..j][j - 1] == ks[j - 1];
    }
  }

  /** The visits of all entries add up to the number of rows. */
  lemma RankingVisitsTotal(rows: seq<Row>)
    ensures Sorting.Sum(Ranking(rows), Visits) == |rows|
  {
    Sorting.SortSum(Entries(rows), Visits);
    EntriesVisitsTotal(rows);
  }

  lemma EntriesVisitsTotal(rows: seq<Row>)
    ensures Sorting.Sum(Entries(rows), Visits) == |rows|
  {
    var es, ks := Entries(rows), SortedNames(rows);
    SumOfGroupSizes(es, ks, rows, |ks|);
    assert es[..|ks|] == es;
    assert ks[..|ks|] == ks;
    Partition(ks, rows);
  }
}
