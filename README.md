# Visit dashboard: cleaning and aggregation, modelled in Dafny

`build_dashboard.py` reads a spreadsheet of a sales representative's doctor
visits. It cleans the rows and computes the figures that a self-contained
HTML dashboard embeds:

- total visits and distinct doctors;
- the average visit length and the average visits per visited day;
- visits per month;
- the status distribution;
- one entry per doctor with a visit history, ranked by visits;
- the top ten doctors.

This project models that pipeline and proves what it promises.

Modules, one per part of the program:

- `Text` (`text.dfy`): the string primitives with Python's meaning:
  - `str.isspace`, `str.strip()` and `str.replace`;
  - ASCII case mapping;
  - code-point string order;
  - zero-padded decimal fields as `strftime` writes them.
- `Names` (`names.dfy`): `normalize_name`. A missing name becomes
  "Desconocido". Otherwise the name is reduced to ASCII, stripped and
  title-cased.
- `Times` (`times.dfy`): `parse_custom_time` and the nested
  `calculate_duration`.
  - Parsing: the text normalisation, then the `strptime('%I:%M:%S %p')`
    grammar in the C locale, then the conversion to a 24-hour time of day.
  - Duration: in whole seconds, modulo one day.
- `Cleaning` (`cleaning.dfy`): the row pipeline at lines 34-75.
  - Name normalisation, the date filter (a date present, year 2024 or later)
    and the `YYYY-MM` month label.
  - The durations, only when both time columns exist.
  - The stripped photo column.
  - Proved: the cleaned table is exactly the surviving rows, cleaned, in
    their original order.
- `Sorting` (`sorting.dfy`): the stable descending sort by a numeric key
  (`list.sort(key=..., reverse=True)`). It is proved a permutation,
  non-increasing and total-preserving. It ranks equal keys by name when the
  input is in name order.
- `Doctors` (`doctors.dfy`): `groupby('Medico')` and the per-doctor
  statistics: visits, "visitado" / "no visitado" counts ignoring case, last
  visit, and history newest first. Also the ranking after line 107.
- `Aggregation` (`aggregation.dfy`):
  - the month table and the status table (`value_counts`);
  - the two averages before rounding, as exact reals;
  - the top-ten slice.
- `Dashboard` (`dashboard.dfy`): `BuildReport`, the imperative driver.
  - It cleans the rows and computes the headline figures.
  - A `while` loop appends one entry per group in ascending name order, as
    the `for medico, group in df.groupby('Medico')` loop does.
  - It sorts the entries by visits, then takes the top ten and the status
    and month series.
  - Its postcondition states the whole report.

Inputs and what stands in for the parts outside the model:

- A spreadsheet row arrives as a `RawRow` whose cells are all optional.
- The visit date comes already parsed, as `pd.to_datetime` would leave it: a
  `CalendarDate`, or missing for NaT.
- `Columns` says whether the "Ingreso"/"Salida" pair and "Foto" exist.
- "Estatus" and "Comentario" are always present, with optional values (see
  Left out).
- Durations are whole seconds; the average duration is their mean divided by
  60 as an exact real.

Where the code does less than its comments suggest, the model follows the
code:

- The spellings the comment at `build_dashboard.py:22` names, "10:00 p m",
  "10:00 pm" and "10:00 a. m.", have no seconds. The format
  `'%I:%M:%S %p'` demands seconds, so all three are refused
  (`Times.MinutesOnlyRefused`).
- `%I` refuses hour 0, so a 24-hour reading such as "00:15:00 am" is no time.
- One-digit fields such as "9:5:7 pm" are accepted.
- Any run of whitespace before the meridiem is accepted, because the space
  of the format matches `\s+`.
- A name made only of whitespace becomes "", not the placeholder.
- A missing status counts neither as visited nor as not visited. It is also
  left out of the status distribution, because `value_counts` drops missing
  values.

## Model

| member | source | states |
|---|---|---|
| Names.NormalizeName | build_dashboard.py:6-10 | A missing name gives "Desconocido". Otherwise the result is ASCII, has no leading or trailing whitespace, and upper-cases a letter exactly when it does not follow a letter. Ignoring case it equals the stripped ASCII reduction of the input. |
| Names.NormalizeNameIdempotent | build_dashboard.py:6-10 | Normalising an already normalised name returns it unchanged. |
| Names.PlaceholderIsNormal | build_dashboard.py:7 | The placeholder "Desconocido" is itself ASCII, title-cased and has no surrounding whitespace. |
| Names.AsciiFold | build_dashboard.py:9 | What NFKD followed by an ASCII-ignoring encode leaves of one character is ASCII, and an ASCII character is kept as it is. |
| Names.ToAscii | build_dashboard.py:9 | The ASCII reduction of a name contains only ASCII. |
| Names.ToAsciiKeepsAscii | build_dashboard.py:9 | The ASCII reduction leaves ASCII text unchanged. |
| Names.TitleFrom | build_dashboard.py:10 | `str.title`: keeps the length, changes only letter case, leaves non-letters in place, and upper-cases a letter exactly when it does not follow a letter. |
| Names.Title | build_dashboard.py:10 | Definition: `str.title` from the start of the text; its properties are `TitleFrom`. |
| Names.TitleFixed | build_dashboard.py:10 | Title-casing text that is already title-cased changes nothing. |
| Names.TitleKeepsShape | build_dashboard.py:10 | Title-casing keeps ASCII text ASCII and does not change whether the first and last characters are whitespace. |
| Text.Strip | build_dashboard.py:10 | `str.strip()`: the result neither starts nor ends with whitespace, and it is what remains of the input after removing leading and trailing whitespace only. |
| Text.StripUnchanged | build_dashboard.py:10 | Stripping text that has no surrounding whitespace changes nothing. |
| Text.Lower | build_dashboard.py:18 | Lower-casing keeps the length and maps each character through the ASCII lower-case mapping. |
| Text.ReplaceChar | build_dashboard.py:17 | `str.replace` of one character: the same length, with every occurrence of `c` replaced by `d` and all else kept. |
| Text.DeleteChar | build_dashboard.py:18 | `replace('.', '')`: the result has no `c` left, and text without `c` is unchanged. |
| Text.IsSpace | build_dashboard.py:10 | Definition: the characters `str.isspace` accepts, the set that `strip()` removes (also at lines 15 and 73). |
| Text.DeleteCharAppend | build_dashboard.py:18 | Deleting a character distributes over concatenation. With `CharLevelUnit` this fixes `replace('.', '')` character by character. |
| Text.ReplaceAll | build_dashboard.py:23 | Definition: `str.replace`, left to right and without overlaps. |
| Text.ReplaceAllSkipsPrefix | build_dashboard.py:23 | `str.replace` of a pattern leaves a prefix alone when that prefix cannot start the pattern. |
| Text.LexLess | build_dashboard.py:85 | Definition: Python's `<` on `str`, lexicographic by code point with a proper prefix first; the order of the groupby keys (line 85) and of the month labels (lines 78-79). |
| Text.LexLessIrreflexive | build_dashboard.py:85 | String order never puts a string before itself. |
| Text.LexLessTransitive | build_dashboard.py:85 | String order is transitive. |
| Text.LexLessTotal | build_dashboard.py:85 | Any two different strings are ordered one way or the other. |
| Names.StripKeepsAscii | build_dashboard.py:10 | Stripping ASCII text leaves ASCII text. |
| Times.CharLevel | build_dashboard.py:17-18 | Definition: both no-break spaces become spaces, letters are lower-cased and periods deleted; its properties are `CharLevelUnit` and `CharLevelAppend`. |
| Times.NormalizeTimeText | build_dashboard.py:15-23 | Definition: strip, the character-level pass, then the two meridiem replacements; its properties are `VariantNormalizes`. |
| Times.ParseTime | build_dashboard.py:12-27 | A missing time stays missing, and every time that is read is a valid time of day (hour below 24, minute and second below 60). |
| Times.VariantNormalizes | build_dashboard.py:15-23 | The normalisation turns every spelling of the meridiem into the compact " am" / " pm". This covers upper or lower case, periods, a split "a m" / "p m", and a space, NO-BREAK SPACE or NARROW NO-BREAK SPACE before or inside the meridiem. |
| Times.VariantParsesAsCompact | build_dashboard.py:12-27 | Each of those variant spellings parses to exactly the time its compact "hh:mm:ss am/pm" form parses to. |
| Times.CharLevelMeridiem | build_dashboard.py:17-18 | Replacing the no-break spaces, lower-casing and deleting periods reduce any meridiem spelling to its letter, an optional space and "m". |
| Times.VariantCharLevel | build_dashboard.py:17-18 | Those character-level steps leave a digits-and-colons clock untouched and turn the separator and meridiem into " a m"-style text. |
| Times.JoinMeridiem | build_dashboard.py:23 | The two `replace` calls join " a m" / " p m" into " am" / " pm" and leave a compact meridiem alone. |
| Times.VariantUnstripped | build_dashboard.py:15 | `strip()` does not change a clock followed by a separator and a meridiem. |
| Times.CharLevelAppend | build_dashboard.py:17-18 | The character-level steps distribute over concatenation. |
| Times.CharLevelUnit | build_dashboard.py:17-18 | On one character: '.' vanishes, a no-break space becomes ' ', and anything else is lower-cased. |
| Times.To24 | build_dashboard.py:25 | `%I` with `%p`: the 24-hour hour is below 24, agrees with the 12-hour one modulo 12, and is 12 or more exactly for pm (12 am is 0, 12 pm is 12). |
| Times.ParseClock | build_dashboard.py:25 | Whatever `strptime('%I:%M:%S %p')` reads is a valid time of day. |
| Times.ReadAt | build_dashboard.py:25 | At fixed cut points, the text is read exactly when the four tokens match the grammar and the second is below 60, and what is read is the time those tokens denote. |
| Times.Reading | build_dashboard.py:25 | The time a matching text denotes has an hour below 24, a minute below 60 and the second written in the text. |
| Times.ParseClockSound | build_dashboard.py:25 | Every accepted text splits into tokens of the grammar: an hour, ':', a minute, ':', a second below 60, whitespace, and a meridiem ending the text. The value read is the time that split denotes. |
| Times.ParseClockComplete | build_dashboard.py:25-27 | Every text that splits that way is accepted when its second is below 60 and refused otherwise. The refusal covers the 60 and 61 that the pattern lets through. |
| Times.FormattedTimeParses | build_dashboard.py:12-27 | The text "hh:mm:ss am" / "hh:mm:ss pm" of any 12-hour reading parses back to that reading on the 24-hour clock. |
| Times.NoSecondsRefused | build_dashboard.py:22-25 | A clock with at most one colon is refused whatever meridiem spelling follows, because the format demands seconds. |
| Times.MinutesOnlyRefused | build_dashboard.py:22-25 | "10:00 p m", "10:00 pm" and "10:00 a. m." are all refused. |
| Times.QuarterToMidnight | build_dashboard.py:12-27 | "11:45:00 pm" parses to 23:45:00. |
| Times.QuarterPastMidnight | build_dashboard.py:12-27 | "12:15:00 am" parses to 00:15:00. |
| Times.DurationSeconds | build_dashboard.py:48-56 | The duration is missing exactly when either time fails to parse. Otherwise it is below one day and equals check-out minus check-in, modulo 24 hours. |
| Times.ElapsedBetween | build_dashboard.py:51-56 | For two parsed times the duration is missing exactly when either is missing; otherwise it is (t2 - t1) modulo one day. |
| Times.Elapsed | build_dashboard.py:52-55 | Check-out minus check-in on one dummy day, plus a day when check-out is earlier: below one day and equal to the difference modulo 24 hours. |
| Times.WrapDay | build_dashboard.py:54 | Adding one day to a negative difference of two times of day is taking it modulo one day. |
| Times.DurationSameTime | build_dashboard.py:48-56 | Checking out at the check-in time gives 0, whenever that time parses. |
| Times.MidnightCrossing | build_dashboard.py:48-56 | From "11:45:00 pm" to "12:15:00 am" is 1800 seconds (30 minutes). |
| Text.DecimalValue | build_dashboard.py:25 | Definition: the number a run of decimal digits denotes, as `strptime` reads its `%I`, `%M` and `%S` fields; it is below 10 to the number of digits. |
| Text.Pad | build_dashboard.py:41 | A `strftime` numeric field is exactly `w` decimal digits. |
| Text.PadValue | build_dashboard.py:41 | Reading a zero-padded field back gives the number, when the number fits the width. |
| Text.PadOrder | build_dashboard.py:41 | Fixed-width fields compare as strings exactly as their numbers compare, and are equal exactly when the numbers are. |
| Cleaning.MonthLabel | build_dashboard.py:41 | Definition: `strftime('%Y-%m')`, the four-digit year, "-" and the two-digit month; its properties are `MonthLabelOrder`. |
| Cleaning.FormatDate | build_dashboard.py:92 | Definition: `strftime('%Y-%m-%d')`; its properties are `FormatDateOrder`. |
| Cleaning.MonthLabelOrder | build_dashboard.py:41 | "YYYY-MM" labels compare as strings exactly as their (year, month) compare in time. Two dates share a label exactly when they fall in the same month. |
| Cleaning.FormatDateOrder | build_dashboard.py:92 | "YYYY-MM-DD" dates compare as strings exactly as the dates compare in time, and formatting loses nothing. |
| Cleaning.DateKeyOrder | build_dashboard.py:92 | The numeric key of a date orders dates chronologically, and equal keys mean equal dates. |
| Cleaning.Kept | build_dashboard.py:38-39 | Definition: a row survives when its date is present and its year is 2024 or later. |
| Cleaning.NormalizePhoto | build_dashboard.py:72-75 | Without a "Foto" column, or for an empty cell, the photo is ''. Otherwise it is the stripped cell text. Either way it has no surrounding whitespace. |
| Cleaning.CleanRow | build_dashboard.py:34-58 | A surviving row, cleaned, is well formed. Its date is 2024 or later and its month label is that date's "YYYY-MM". A duration exists only when both time columns do, and is below a day. The photo is stripped. |
| Cleaning.CleanRows | build_dashboard.py:34-58 | The cleaned table is no longer than the input, and every row in it is well formed. |
| Cleaning.KeptIndices | build_dashboard.py:38-39 | The positions of the rows with a date from 2024 or later: strictly increasing, each such a row, and every such row included. |
| Cleaning.CleanRowsAreKept | build_dashboard.py:34-58 | The cleaned table is exactly the surviving rows, cleaned, in their original order. |
| Sorting.SortDesc | build_dashboard.py:107 | The sort keeps the length of the list. |
| Sorting.SortDescFacts | build_dashboard.py:107 | The sorted list is a permutation of the input, in non-increasing key order. |
| Sorting.SortRanked | build_dashboard.py:107 | Stability: sorting a list in ascending name order gives larger keys first and equal keys in name order. |
| Sorting.SortKeeps | build_dashboard.py:107 | Every element of the input is at some position of the sorted list. |
| Sorting.SortSum | build_dashboard.py:107 | Sorting keeps the total of the keys. |
| Sorting.RankedDistinct | build_dashboard.py:107 | A ranking never holds the same element twice. |
| Doctors.DoctorNames | build_dashboard.py:65 | The doctor of every row is among the names that `nunique` counts. |
| Doctors.NamesAreDoctors | build_dashboard.py:65 | Every name counted is the doctor of some row. |
| Doctors.SortedNames | build_dashboard.py:85 | The group keys ascend strictly and hold exactly the distinct names, each once. |
| Doctors.InsertName | build_dashboard.py:85 | Adding a name to ascending keys keeps them ascending and adds exactly that name, once. |
| Doctors.GroupOf | build_dashboard.py:85 | A group holds only rows of its doctor, and it is non-empty exactly for the doctors of the table. |
| Doctors.GroupOfRows | build_dashboard.py:85 | A doctor's group holds exactly that doctor's rows, each as often as the table does. |
| Doctors.KeysHaveGroups | build_dashboard.py:85 | Every group key has a non-empty group. |
| Doctors.Partition | build_dashboard.py:85 | The group sizes add up to the number of rows. |
| Doctors.CountStatus | build_dashboard.py:89-90 | A status count never exceeds the group size. |
| Doctors.HasStatus | build_dashboard.py:89-90 | Definition: a row has the status `word` when its status is present and lower-cases to `word`. |
| Doctors.CountStatusRows | build_dashboard.py:89-90 | `visited_count` / `not_visited_count`: the count is exactly the number of row positions whose lower-cased status equals the word. |
| Doctors.CountStatusPositive | build_dashboard.py:89-90 | The count is positive exactly when some row of the group has the status. |
| Doctors.StatusExample | build_dashboard.py:89-90 | A group with the statuses "Visitado", "visitado" and "No visitado" has two visited and one not visited. |
| Doctors.StatusCountsDisjoint | build_dashboard.py:89-90 | No row counts both as "visitado" and as "no visitado", so the two counts add up to at most the visits. |
| Doctors.MaxDate | build_dashboard.py:92 | Definition: the latest date of a non-empty group; its properties are `MaxDateFacts`. |
| Doctors.MaxDateFacts | build_dashboard.py:92 | The last visit is the date of one of the group's rows, and no row of the group is newer. |
| Doctors.History | build_dashboard.py:94-96 | The history has one record per row of the group. |
| Doctors.HistoryRows | build_dashboard.py:94 | Definition: the group's rows sorted by date, newest first; its properties are `HistoryFacts`. |
| Doctors.HistoryFacts | build_dashboard.py:94-96 | The history holds the group's rows as a permutation with non-increasing dates, each turned into (date as "YYYY-MM-DD", comment, status, photo). Its first record carries the last visit date. |
| Doctors.StatOf | build_dashboard.py:86-105 | A doctor's entry carries the doctor's name, the group size as visits and a history as long as the group. Its visited and not-visited counts add up to at most the visits. |
| Doctors.Entries | build_dashboard.py:84-105 | Before sorting there is one entry per group key, in key order: the i-th entry is named after the i-th key, and its visits are that group's size. |
| Doctors.EntriesVisitsTotal | build_dashboard.py:84-105 | The visits of the entries add up to the number of rows. |
| Doctors.Ranking | build_dashboard.py:107 | Definition: `doctor_stats` after the sort, the entries sorted stably by visits, largest first; its properties are `RankingOrder`, `RankingEntries` and `RankingVisitsTotal`. |
| Doctors.RankingOrder | build_dashboard.py:107 | After the sort, entries are non-increasing by visits; equal visit counts keep ascending name order. |
| Doctors.RankingEntries | build_dashboard.py:84-107 | The ranking has one entry per distinct doctor, and each entry is the statistics of its doctor's group. |
| Doctors.RankingCoversDoctors | build_dashboard.py:84-107 | Every doctor of the table has an entry in the ranking. |
| Doctors.RankingHas | build_dashboard.py:84-107 | A doctor of the table has an entry at some position of the ranking. |
| Doctors.InsertNameCounts | build_dashboard.py:85 | Adding a name to keys that list a set of names exactly, once each, lists the set with that name added, once each. |
| Doctors.RankingNamesDistinct | build_dashboard.py:84-107 | No doctor has two entries. |
| Doctors.RankingVisitsTotal | build_dashboard.py:84-107 | The visits of the ranking add up to the number of rows (`total_visits`). |
| Aggregation.Occurrences | build_dashboard.py:78 | A value occurs at most as often as the list is long. |
| Aggregation.OccurrencesPositive | build_dashboard.py:78 | A value occurs at least once exactly when it is in the list. |
| Aggregation.Distinct | build_dashboard.py:78 | The distinct values ascend strictly and are exactly the values of the list. |
| Aggregation.Table | build_dashboard.py:78 | The frequency table has one line per distinct value, in ascending order, and each line's count is the number of occurrences of its value. |
| Aggregation.TableFacts | build_dashboard.py:78-81 | The labels ascend strictly. Every line is a value of the list with a count of at least 1 equal to its occurrences. Every value of the list has a line. |
| Aggregation.TableSum | build_dashboard.py:78 | The counts of a frequency table add up to the length of the list. |
| Aggregation.Months | build_dashboard.py:78 | The month column holds each row's month label, row by row. |
| Aggregation.MonthTable | build_dashboard.py:78-79 | Definition: the frequency table of the month labels, in label order; its properties are `MonthTableFacts`. |
| Aggregation.MonthTableFacts | build_dashboard.py:78-81 | The month labels ascend strictly. Every count is at least 1 and equals the visits of its month. The counts add up to the number of rows. |
| Aggregation.MonthListed | build_dashboard.py:78-81 | Every visit's month has a line in the month table. |
| Aggregation.MonthOfVisit | build_dashboard.py:78-81 | Every month in the table is the month of some visit, so there is no zero-filled month. |
| Aggregation.MonthsChronological | build_dashboard.py:79 | An earlier line of the month table is an earlier calendar month than a later line. |
| Aggregation.Statuses | build_dashboard.py:118 | The non-missing statuses: at most one per row, and every status present in a row is among them. |
| Aggregation.StatusOfRow | build_dashboard.py:118 | Every counted status is the status of some row. |
| Aggregation.StatusTableFacts | build_dashboard.py:117-120 | Status lines come largest count first, ties in label order. Each line is a present status, case preserved, with a count of at least 1 equal to its occurrences. The counts add up to the rows with a status, at most the number of rows. |
| Aggregation.StatusTable | build_dashboard.py:118 | Definition: the frequency table of the present statuses, sorted stably by count, largest first; its properties are `StatusTableFacts` and `StatusCountsRows`. |
| Aggregation.StatusMultiplicity | build_dashboard.py:118 | Each status occurs in the status list exactly once per row whose status it is. |
| Aggregation.StatusesPresent | build_dashboard.py:118 | The status list holds exactly one status per row that has one. |
| Aggregation.StatusCountsRows | build_dashboard.py:117-120 | `value_counts`: each line's count is the number of rows with that status, and the counts add up to the number of rows that have a status. |
| Aggregation.StatusListed | build_dashboard.py:118 | Every present status has a line in the status table. |
| Aggregation.StatusLabelsDistinct | build_dashboard.py:118 | No status has two lines. |
| Aggregation.LabelsOf | build_dashboard.py:80 | The label column of a table, line by line. |
| Aggregation.CountsOf | build_dashboard.py:81 | The count column of a table, line by line. |
| Aggregation.NoRowsNoTables | build_dashboard.py:117-123 | With no surviving row, the month table, the status table and the ranking are all empty, which is what lines 121-123 give when the "Estatus" column is missing. |
| Aggregation.VisitDays | build_dashboard.py:68 | The distinct visit dates contain every row's date, number at most the rows, and are at least one when a row exists. |
| Aggregation.DayOfVisit | build_dashboard.py:68 | Every visit day is the date of some row. |
| Aggregation.VisitDaysAre | build_dashboard.py:68 | The visit days are exactly the set of the rows' dates, the set whose size `dt.date.nunique()` gives. |
| Aggregation.AvgVisitsPerDay | build_dashboard.py:67-69 | Visits per visited day before rounding: 0 without visits, and otherwise between 1 and the number of visits. With `VisitDaysAre`, the divisor is the number of distinct dates. |
| Aggregation.RatioBounds | build_dashboard.py:59-69 | A quotient lies between `lo` and `hi` when the dividend lies between `lo` and `hi` times the divisor. |
| Aggregation.TimedVisits | build_dashboard.py:59 | The rows with a duration are at most all the rows. |
| Aggregation.TimedVisitsRows | build_dashboard.py:59 | The number of durations is exactly the number of row positions that have a duration, which is what the mean divides by. |
| Aggregation.TimedVisitsZero | build_dashboard.py:59 | No duration is counted exactly when every row's duration is missing: the `isna().all()` test. |
| Aggregation.TotalSeconds | build_dashboard.py:59 | Definition: the durations of the rows, added up in seconds, a missing one adding nothing. |
| Aggregation.TotalSecondsAppend | build_dashboard.py:59 | The total over two runs of rows is the sum of their totals. |
| Aggregation.TotalSecondsOne | build_dashboard.py:59 | One row adds its duration, or nothing when it has none, as pandas skips missing values. Together with `TotalSecondsAppend` this fixes the total. |
| Aggregation.TotalSecondsBetween | build_dashboard.py:59 | Durations between `lo` and `hi` add up to between `lo` and `hi` times their number. |
| Aggregation.AvgDurationMins | build_dashboard.py:59-61 | The average duration is 0 when the time columns are missing or every row's duration is missing. Otherwise it is the mean of the existing durations in minutes: times 60 and times their number, it gives their total. |
| Aggregation.AvgDurationBetween | build_dashboard.py:59 | When every duration lies between `lo` and `hi` seconds and at least one exists, the mean in minutes lies between `lo`/60 and `hi`/60. |
| Aggregation.AvgDurationBelowDay | build_dashboard.py:59 | The mean duration of cleaned rows is in [0, 1440) minutes. |
| Aggregation.Top | build_dashboard.py:110 | `doctor_stats[:10]`: the first min(10, n) entries, unchanged. |
| Aggregation.TopIsBest | build_dashboard.py:107-110 | No doctor left out of the top ten has more visits than one in it. |
| Dashboard.BuildReport | build_dashboard.py:33-123 | The report: `total_visits`, the distinct doctors, and the two averages of the cleaned rows. The month series comes in calendar order, with positive counts adding up to the visits. The status series is most frequent first, adding up to at most the visits. The doctor entries are the ranking, one per doctor, ranked, adding up to the visits. The four top-ten lists are aligned with the first min(10, n) entries. |
| Dashboard.Headline | build_dashboard.py:59-69 | `total_visits` is the number of rows and `unique_doctors` the number of distinct names. The average duration is in [0, 1440). Visits per day is 0 without rows and at least 1 otherwise. |
| Dashboard.MonthlySeries | build_dashboard.py:78-81 | The month labels and counts of the month table: labels strictly ascending, counts positive and adding up to the rows. |
| Dashboard.StatusSeries | build_dashboard.py:117-120 | The status labels and counts of the status table: counts non-increasing and adding up to at most the rows. |
| Dashboard.DoctorEntries | build_dashboard.py:84-105 | The loop over the groups appends, key by key in ascending name order, the entry of each group. The result is the entry list before sorting. |
| Dashboard.GroupEntry | build_dashboard.py:86-105 | One iteration: the entry it builds from a group's rows is that doctor's statistics. |
| Dashboard.RankDoctors | build_dashboard.py:84-107 | The sorted entry list is the ranking: one entry per doctor, ranked by visits with ties in name order, adding up to the rows. |
| Dashboard.TopColumns | build_dashboard.py:110-114 | The four top lists have min(10, n) items, aligned index by index with the names, visits, visited and not-visited counts of the first entries. |

## Left out

- Reading the spreadsheet (line 31), the JSON serialisation, the HTML
  template, the file write and the console output: these are I/O and
  library formatting.
- `pd.to_datetime` (line 35): permissive date parsing by a foreign library.
  The model takes the parsed date, or missing for NaT, as its input.
- The time part of the visit timestamps: `last_visit`, the history dates and
  the month labels keep only the calendar date.
- `round(..., 1)` (lines 59 and 69) and the floating-point minutes of
  `total_seconds() / 60`. The averages are exact reals.
- Names.AsciiFold: NFKD is not modelled in full, because it depends on the
  Unicode tables. The model covers ASCII, the Latin-1 letters and
  compatibility characters, and the Unicode spaces that decompose to a
  space; every other character is dropped.
- Times.ParseClock: `\d` in Python's `strptime` pattern also matches
  non-ASCII decimal digits. The model accepts ASCII digits only.
- Text.Lower: only ASCII letters are lower-cased. Other letters cannot
  become characters that the time grammar or the words "visitado" /
  "no visitado" contain, so no result changes.
- A spreadsheet without the "Estatus" or "Comentario" column. Both columns
  are modelled as always present, with optional values. When such a file
  has a surviving row, the column selection at line 94 raises `KeyError`
  and the run stops. Such a run completes only when no row survives; the
  loop at line 85 then does not run and lines 121-123 give empty lists. The
  output is then the same as the model's: no doctor entries and empty
  status lists (`Aggregation.NoRowsNoTables`).
- A status column whose every value is missing: pandas then stores it as
  floats, and `.str` at line 89 raises. This is a library dtype behaviour,
  not modelled.
- `df.apply(calculate_duration, axis=1)` on a table left empty by the filter:
  a pandas special case. The model gives every row its duration, so the
  mean is 0.
- Doctors.HistoryFacts: the order of history rows with the same date is not
  fixed, because `sort_values` at line 94 uses pandas' non-stable default
  sort. The model sorts stably and proves only permutation and
  non-increasing dates.
- Aggregation.StatusTableFacts: the order of statuses with equal counts in
  `value_counts` is not fixed. The model puts them in label order.
