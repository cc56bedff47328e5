/**
 * Check-in / check-out times (`parse_custom_time`) and the visit duration
 * computed from them (the nested `calculate_duration`).
 *
 * A time is first normalised: surrounding whitespace is stripped, NARROW
 * NO-BREAK SPACE and NO-BREAK SPACE become spaces, letters are lower-cased,
 * every '.' is deleted and the split meridiem forms " a m" / " p m" are
 * joined to " am" / " pm". The result must then match
 * `strptime('%I:%M:%S %p')` in the C locale, or the time is missing.
 */
module Times {
  import opened Wrappers
  import opened Text

  datatype TimeOfDay = TimeOfDay(hour: nat, minute: nat, second: nat)

  predicate ValidTime(t: TimeOfDay) {
    t.hour < 24 && t.minute < 60 && t.second < 60
  }

  const NarrowNoBreakSpace: char := '\U{202F}'
  const NoBreakSpace: char := '\U{A0}'

  /** The character-by-character part of the normalisation: the two no-break
      spaces become spaces, ASCII letters are lower-cased, periods vanish. */
  function CharLevel(s: string): string {
    DeleteChar(Lower(ReplaceChar(ReplaceChar(s, NarrowNoBreakSpace, ' '), NoBreakSpace, ' ')), '.')
  }

  /** The text handed to `strptime`. Python lower-cases every letter, but only
      ASCII letters can turn into characters that the time grammar accepts, so
      lower-casing ASCII alone gives the same parse. */
  function NormalizeTimeText(s: string): string {
    ReplaceAll(ReplaceAll(CharLevel(Strip(s)), " a m", " am"), " p m", " pm")
  }

  /** `%I`: `1[0-2]|0[1-9]|[1-9]`. */
  predicate HourToken(h: string) {
    AllDigits(h) &&
    ((|h| == 1 && h[0] != '0') ||
     (|h| == 2 && ((h[0] == '0' && h[1] != '0') || (h[0] == '1' && h[1] <= '2'))))
  }

  /** `%M`: `[0-5]\d|\d`. */
  predicate MinuteToken(m: string) {
    AllDigits(m) && (|m| == 1 || (|m| == 2 && m[0] <= '5'))
  }

  /** `%S`: `6[0-1]|[0-5]\d|\d`; the values 60 and 61 pass the pattern and are
      refused afterwards, when the `datetime` is built. */
  predicate SecondToken(s: string) {
    AllDigits(s) && (|s| == 1 || (|s| == 2 && (s[0] <= '5' || (s[0] == '6' && s[1] <= '1'))))
  }

  /** `%p` in the C locale. */
  predicate MeridiemToken(p: string) {
    p == "am" || p == "pm"
  }

  /** The 24-hour clock hour of a 12-hour clock reading: 12 am is 0, 12 pm is 12
      and the other pm hours move up by 12. */
  function To24(h: nat, pm: bool): (r: nat)
    requires 1 <= h <= 12
    ensures r < 24
    ensures r % 12 == h % 12
    ensures pm <==> r >= 12
  {
    if pm then (if h == 12 then 12 else h + 12) else (if h == 12 then 0 else h)
  }

  /** Index of the first `c` in `s` at or after `i`, or `|s|`. */
  function IndexFrom(s: string, c: char, i: nat): (j: nat)
    requires i <= |s|
    ensures i <= j <= |s|
    ensures j < |s| ==> s[j] == c
    ensures forall k :: i <= k < j ==> s[k] != c
    decreases |s| - i
  {
    if i == |s| || s[i] == c then i else IndexFrom(s, c, i + 1)
  }

  /** Index of the first whitespace character of `s` at or after `i`, or `|s|`. */
  function SpaceFrom(s: string, i: nat): (j: nat)
    requires i <= |s|
    ensures i <= j <= |s|
    ensures j < |s| ==> IsSpace(s[j])
    ensures forall k :: i <= k < j ==> !IsSpace(s[k])
    decreases |s| - i
  {
    if i == |s| || IsSpace(s[i]) then i else SpaceFrom(s, i + 1)
  }

  /** Index of the first non-whitespace character of `s` at or after `i`, or `|s|`. */
  function NonSpaceFrom(s: string, i: nat): (j: nat)
    requires i <= |s|
    ensures i <= j <= |s|
    ensures j < |s| ==> !IsSpace(s[j])
    ensures forall k :: i <= k < j ==> IsSpace(s[k])
    decreases |s| - i
  {
    if i == |s| || !IsSpace(s[i]) then i else NonSpaceFrom(s, i + 1)
  }

  /** The cut points of `text` as hour ':' minute ':' second, a run of
      whitespace (the format's ' ', matched as `\s+`), and the meridiem, which
      must end the text. */
  predicate MatchesAt(text: string, a: nat, b: nat, c: nat, d: nat) {
    a < b < c < d <= |text| && text[a] == ':' && text[b] == ':' &&
    HourToken(text[..a]) && MinuteToken(text[a + 1..b]) && SecondToken(text[b + 1..c]) &&
    (forall k :: c <= k < d ==> IsSpace(text[k])) && MeridiemToken(text[d..])
  }

  lemma TokenValues(s: string)
    requires AllDigits(s) && 1 <= |s| <= 2
    ensures |s| == 1 ==> DecimalValue(s) == DigitValue(s[0])
    ensures |s| == 2 ==> DecimalValue(s) == 10 * DigitValue(s[0]) + DigitValue(s[1])
  {
    assert s[..|s| - 1][..0] == [];
    if |s| == 2 {
      assert s[..1] == [s[0]];
    }
  }

  /** The time of day the cut text denotes. */
  function Reading(text: string, a: nat, b: nat, c: nat, d: nat): (t: TimeOfDay)
    requires MatchesAt(text, a, b, c, d)
    ensures t.hour < 24 && t.minute < 60 && t.second == DecimalValue(text[b + 1..c])
  {
    TokenValues(text[..a]);
    TokenValues(text[a + 1..b]);
    TimeOfDay(To24(DecimalValue(text[..a]), text[d..] == "pm"),
              DecimalValue(text[a + 1..b]), DecimalValue(text[b + 1..c]))
  }

  /** The reading at given cut points, once the colons and the whitespace run
      are known to be where they are. */
  function ReadAt(text: string, a: nat, b: nat, c: nat, d: nat): (r: Option<TimeOfDay>)
    requires a < b < c <= d <= |text| && text[a] == ':' && text[b] == ':'
    requires forall k :: c <= k < d ==> IsSpace(text[k])
    ensures r.Some? <==> MatchesAt(text, a, b, c, d) && DecimalValue(text[b + 1..c]) < 60
    ensures r.Some? ==> ValidTime(r.value) && r.value == Reading(text, a, b, c, d)
  {
    if HourToken(text[..a]) && MinuteToken(text[a + 1..b]) && SecondToken(text[b + 1..c]) && c < d
       && MeridiemToken(text[d..]) && DecimalValue(text[b + 1..c]) < 60
    then Some(Reading(text, a, b, c, d))
    else None
  }

  /** `datetime.strptime(text, '%I:%M:%S %p').time()`, or missing when the text
      does not match or the second is out of range. The hour ends at the first
      colon, the minute at the next one, the second at the first whitespace
      after it, and the meridiem starts after that whitespace run. */
  function ParseClock(text: string): (r: Option<TimeOfDay>)
    ensures r.Some? ==> ValidTime(r.value)
  {
    var a := IndexFrom(text, ':', 0);
    if a == |text| then None
    else
      var b := IndexFrom(text, ':', a + 1);
      if b == |text| then None else ReadAfter(text, a, b)
  }

  /** The rest of the parse, once the colons at `a` and `b` are found: the
      second ends at the first whitespace after `b`, and the meridiem starts
      after that whitespace run. */
  function ReadAfter(text: string, a: nat, b: nat): (r: Option<TimeOfDay>)
    requires a < b < |text| && text[a] == ':' && text[b] == ':'
    ensures r.Some? ==> ValidTime(r.value)
  {
    var c := SpaceFrom(text, b + 1);
    ReadAt(text, a, b, c, NonSpaceFrom(text, c))
  }

  /** Whatever `ParseClock` accepts splits as the grammar says, and it reads the
      time that split denotes. */
  lemma ParseClockSound(text: string) returns (a: nat, b: nat, c: nat, d: nat)
    requires ParseClock(text).Some?
    ensures MatchesAt(text, a, b, c, d) && DecimalValue(text[b + 1..c]) < 60
    ensures ParseClock(text) == Some(Reading(text, a, b, c, d))
  {
    a := IndexFrom(text, ':', 0);
    b := IndexFrom(text, ':', a + 1);
    assert ParseClock(text) == ReadAfter(text, a, b);
    c := SpaceFrom(text, b + 1);
    d := NonSpaceFrom(text, c);
    assert ReadAfter(text, a, b) == ReadAt(text, a, b, c, d);
  }

  /** The characters of a digit token are digits of the whole text. */
  lemma DigitsAt(text: string, from: nat, to: nat)
    requires from <= to <= |text| && AllDigits(text[from..to])
    ensures forall k :: from <= k < to ==> IsDigit(text[k])
  {
    forall k | from <= k < to ensures IsDigit(text[k]) {
      assert text[from..to][k - from] == text[k];
    }
  }

  /** Every text the grammar splits is read as that split says: accepted when
      the second is below 60, refused otherwise. */
  lemma ParseClockComplete(text: string, a: nat, b: nat, c: nat, d: nat)
    requires MatchesAt(text, a, b, c, d)
    ensures ParseClock(text) == if DecimalValue(text[b + 1..c]) < 60 then Some(Reading(text, a, b, c, d)) else None
  {
    ColonsAt(text, a, b, c, d);
    SpacesAt(text, a, b, c, d);
    assert ParseClock(text) == ReadAfter(text, a, b);
    assert ReadAfter(text, a, b) == ReadAt(text, a, b, c, d);
  }

  /** The scan for colons stops at the two colons of a match. */
  lemma ColonsAt(text: string, a: nat, b: nat, c: nat, d: nat)
    requires MatchesAt(text, a, b, c, d)
    ensures IndexFrom(text, ':', 0) == a && IndexFrom(text, ':', a + 1) == b
  {
    assert text[0..a] == text[..a];
    DigitsAt(text, 0, a);
    DigitsAt(text, a + 1, b);
  }

  /** The scans for whitespace stop at the ends of the whitespace run of a match. */
  lemma SpacesAt(text: string, a: nat, b: nat, c: nat, d: nat)
    requires MatchesAt(text, a, b, c, d)
    ensures SpaceFrom(text, b + 1) == c && NonSpaceFrom(text, c) == d
  {
    DigitsAt(text, b + 1, c);
    assert IsSpace(text[c]);
    assert text[d..][0] == text[d] && !IsSpace(text[d]);
  }

  /** `parse_custom_time`: a missing value stays missing; a present one is
      normalised and parsed. */
  function ParseTime(value: Option<string>): (r: Option<TimeOfDay>)
    ensures value.None? ==> r.None?
    ensures r.Some? ==> ValidTime(r.value)
  {
    match value
    case None => None
    case Some(s) => ParseClock(NormalizeTimeText(s))
  }

  const SecondsPerDay: nat := 86400

  function SecondsOfDay(t: TimeOfDay): nat {
    t.hour * 3600 + t.minute * 60 + t.second
  }

  /** `calculate_duration`, in whole seconds (the source divides by 60 to get
      minutes): check-out minus check-in on one shared day, a day later when
      check-out is earlier. Missing when either time is; otherwise the
      difference modulo 24 hours. */
  function DurationSeconds(checkIn: Option<string>, checkOut: Option<string>): (r: Option<nat>)
    ensures r.Some? <==> ParseTime(checkIn).Some? && ParseTime(checkOut).Some?
    ensures r.Some? ==> r.value < SecondsPerDay
    ensures r.Some? ==> r.value == (SecondsOfDay(ParseTime(checkOut).value) - SecondsOfDay(ParseTime(checkIn).value)) % SecondsPerDay
  {
    ElapsedBetween(ParseTime(checkIn), ParseTime(checkOut))
  }

  /** The duration between two parsed times, missing when either is. */
  function ElapsedBetween(t1: Option<TimeOfDay>, t2: Option<TimeOfDay>): (r: Option<nat>)
    requires t1.Some? ==> ValidTime(t1.value)
    requires t2.Some? ==> ValidTime(t2.value)
    ensures r.Some? <==> t1.Some? && t2.Some?
    ensures r.Some? ==> r.value < SecondsPerDay
    ensures r.Some? ==> r.value == (SecondsOfDay(t2.value) - SecondsOfDay(t1.value)) % SecondsPerDay
  {
    if t1.Some? && t2.Some? then Some(Elapsed(t1.value, t2.value)) else None
  }

  /** Seconds from `t1` to `t2`, crossing midnight when `t2` is earlier. */
  function Elapsed(t1: TimeOfDay, t2: TimeOfDay): (r: nat)
    requires ValidTime(t1) && ValidTime(t2)
    ensures r < SecondsPerDay
    ensures r == (SecondsOfDay(t2) - SecondsOfDay(t1)) % SecondsPerDay
  {
    var s1, s2 := SecondsOfDay(t1), SecondsOfDay(t2);
    WrapDay(s2 - s1);
    if s2 < s1 then s2 + SecondsPerDay - s1 else s2 - s1
  }

  /** A difference of two times of day, taken modulo one day. */
  lemma WrapDay(d: int)
    requires 0 < d + SecondsPerDay && d < SecondsPerDay
    ensures d % SecondsPerDay == if d < 0 then d + SecondsPerDay else d
  {
    if d < 0 {
      assert d + SecondsPerDay == d - (-1) * SecondsPerDay;
    }
  }

  /** Text that is nothing but digits and colons. */
  predicate ClockText(clock: string) {
    clock != [] && forall i :: 0 <= i < |clock| ==> IsDigit(clock[i]) || clock[i] == ':'
  }

  /** The space variants found before and inside the meridiem. */
  predicate SpaceVariant(c: char) {
    c == ' ' || c == NoBreakSpace || c == NarrowNoBreakSpace
  }

  /** A spelling of "am" / "pm": upper or lower case, with or without a period
      after each letter, and optionally split by a space variant, as in
      "a. m.", "P.M." or "p m". */
  function MeridiemText(pm: bool, upper: bool, dots: bool, split: Option<char>): string {
    var first := if pm then (if upper then 'P' else 'p') else (if upper then 'A' else 'a');
    var dot := if dots then "." else "";
    var gap := match split case Some(c) => [c] case None => [];
    [first] + dot + gap + [if upper then 'M' else 'm'] + dot
  }

  lemma CharLevelAppend(x: string, y: string)
    ensures CharLevel(x + y) == CharLevel(x) + CharLevel(y)
  {
    ReplaceCharAppend(x, y, NarrowNoBreakSpace, ' ');
    var x1, y1 := ReplaceChar(x, NarrowNoBreakSpace, ' '), ReplaceChar(y, NarrowNoBreakSpace, ' ');
    ReplaceCharAppend(x1, y1, NoBreakSpace, ' ');
    var x2, y2 := ReplaceChar(x1, NoBreakSpace, ' '), ReplaceChar(y1, NoBreakSpace, ' ');
    LowerAppend(x2, y2);
    DeleteCharAppend(Lower(x2), Lower(y2), '.');
  }

  lemma CharLevelClock(clock: string)
    requires ClockText(clock)
    ensures CharLevel(clock) == clock
  {
    var m := Lower(ReplaceChar(ReplaceChar(clock, NarrowNoBreakSpace, ' '), NoBreakSpace, ' '));
    assert m == clock;
  }

  lemma CharLevelSpace(c: char)
    requires SpaceVariant(c)
    ensures CharLevel([c]) == " "
  {
    assert Lower(ReplaceChar(ReplaceChar([c], NarrowNoBreakSpace, ' '), NoBreakSpace, ' ')) == " ";
  }

  /** The character-level normalisation of one character. */
  lemma CharLevelUnit(c: char)
    ensures CharLevel([c]) == if c == '.' then [] else if c == NoBreakSpace || c == NarrowNoBreakSpace then " " else [ToLower(c)]
  {
    var r1 := ReplaceChar([c], NarrowNoBreakSpace, ' ');
    var r2 := ReplaceChar(r1, NoBreakSpace, ' ');
    assert |r2| == 1;
    var l := Lower(r2);
    assert l == [ToLower(r2[0])];
    assert DeleteChar(l, '.') == if l[0] == '.' then DeleteChar([], '.') else [l[0]] + DeleteChar([], '.') by {
      assert l[1..] == [];
    }
  }

  lemma CharLevelMeridiem(pm: bool, upper: bool, dots: bool, split: Option<char>)
    requires split.Some? ==> SpaceVariant(split.value)
    ensures CharLevel(MeridiemText(pm, upper, dots, split)) == MeridiemLetters(pm, split.Some?)
  {
    var first := if pm then (if upper then 'P' else 'p') else (if upper then 'A' else 'a');
    var dot := if dots then "." else "";
    var gap := match split case Some(c) => [c] case None => [];
    var last := if upper then 'M' else 'm';
    CharLevelDot(dots);
    CharLevelGap(split);
    CharLevelLetter(first);
    CharLevelLetter(last);
    CharLevelParts([first], dot, gap, [last], dot);
    JoinLetters(CharLevel([first]), CharLevel(dot), CharLevel(gap), CharLevel([last]), [if pm then 'p' else 'a'], if split.Some? then " " else "");
  }

  /** A proof step of `CharLevelMeridiem`: how the reduced parts join. */
  lemma JoinLetters(a: string, b: string, c: string, d: string, l: string, g: string)
    requires a == l && b == [] && c == g && d == "m"
    ensures a + b + c + d + b == l + g + "m"
  {
  }

  /** A proof step: the optional period vanishes. */
  lemma CharLevelDot(dots: bool)
    ensures CharLevel(if dots then "." else "") == []
  {
    if dots {
      CharLevelUnit('.');
    }
  }

  /** A proof step: the optional gap becomes one space. */
  lemma CharLevelGap(split: Option<char>)
    requires split.Some? ==> SpaceVariant(split.value)
    ensures CharLevel(match split case Some(c) => [c] case None => []) == if split.Some? then " " else ""
  {
    if split.Some? {
      CharLevelSpace(split.value);
    }
  }

  /** A proof step: a meridiem letter is lower-cased. */
  lemma CharLevelLetter(c: char)
    requires c in "aApPmM"
    ensures CharLevel([c]) == [ToLower(c)]
  {
    CharLevelUnit(c);
  }

  /** A proof step: the character-level pass works part by part. */
  lemma CharLevelParts(a: string, b: string, c: string, d: string, e: string)
    ensures CharLevel(a + b + c + d + e) == CharLevel(a) + CharLevel(b) + CharLevel(c) + CharLevel(d) + CharLevel(e)
  {
    CharLevelAppend(a, b);
    CharLevelAppend(a + b, c);
    CharLevelAppend(a + b + c, d);
    CharLevelAppend(a + b + c + d, e);
  }

  /** The letters of a meridiem after the character-level pass: the letter,
      an optional space and "m". */
  function MeridiemLetters(pm: bool, split: bool): string {
    [if pm then 'p' else 'a'] + (if split then " " else "") + "m"
  }

  /** The meridiem and the space before it after the character-level pass. */
  function SpokenMeridiem(pm: bool, split: bool): string {
    [' '] + MeridiemLetters(pm, split)
  }

  function CompactMeridiem(pm: bool): string {
    if pm then " pm" else " am"
  }

  lemma VariantCharLevel(clock: string, sep: char, pm: bool, upper: bool, dots: bool, split: Option<char>)
    requires ClockText(clock) && SpaceVariant(sep) && (split.Some? ==> SpaceVariant(split.value))
    ensures CharLevel(clock + [sep] + MeridiemText(pm, upper, dots, split)) == clock + SpokenMeridiem(pm, split.Some?)
  {
    var mer := MeridiemText(pm, upper, dots, split);
    CharLevelAppend(clock + [sep], mer);
    CharLevelAppend(clock, [sep]);
    CharLevelClock(clock);
    CharLevelSpace(sep);
    CharLevelMeridiem(pm, upper, dots, split);
    var l := MeridiemLetters(pm, split.Some?);
    assert (clock + " ") + l == clock + ([' '] + l);
  }

  /** The two `replace` calls join a split meridiem and leave a compact one. */
  lemma JoinMeridiem(pm: bool, split: bool)
    ensures ReplaceAll(ReplaceAll(SpokenMeridiem(pm, split), " a m", " am"), " p m", " pm") == CompactMeridiem(pm)
  {
    var t := SpokenMeridiem(pm, split);
    if !split {
      assert ReplaceAll(t, " a m", " am") == t;
      assert ReplaceAll(t, " p m", " pm") == t;
    } else if pm {
      assert t[..4] == " p m" && t[4..] == [];
      assert ReplaceAll(t, " a m", " am") == [t[0]] + ReplaceAll(t[1..], " a m", " am");
      assert ReplaceAll(t[1..], " a m", " am") == t[1..];
      assert ReplaceAll(t, " p m", " pm") == " pm" + ReplaceAll([], " p m", " pm");
    } else {
      assert t[..4] == " a m" && t[4..] == [];
      assert ReplaceAll(t, " a m", " am") == " am" + ReplaceAll([], " a m", " am");
      assert ReplaceAll(" am", " p m", " pm") == " am";
    }
  }

  lemma VariantUnstripped(clock: string, sep: char, pm: bool, upper: bool, dots: bool, split: Option<char>)
    requires ClockText(clock)
    ensures var s := clock + [sep] + MeridiemText(pm, upper, dots, split); Strip(s) == s
  {
    var mer := MeridiemText(pm, upper, dots, split);
    var s := clock + [sep] + mer;
    assert s[0] == clock[0];
    assert mer[|mer| - 1] in "mM.";
    assert s[|s| - 1] == mer[|mer| - 1];
    StripUnchanged(s);
  }

  /** Every variant spelling normalises to the compact "<clock> am" / "<clock> pm". */
  lemma VariantNormalizes(clock: string, sep: char, pm: bool, upper: bool, dots: bool, split: Option<char>)
    requires ClockText(clock) && SpaceVariant(sep) && (split.Some? ==> SpaceVariant(split.value))
    ensures NormalizeTimeText(clock + [sep] + MeridiemText(pm, upper, dots, split)) == clock + CompactMeridiem(pm)
  {
    VariantUnstripped(clock, sep, pm, upper, dots, split);
    VariantCharLevel(clock, sep, pm, upper, dots, split);
    var tail := SpokenMeridiem(pm, split.Some?);
    assert ' ' !in clock;
    ReplaceAllSkipsPrefix(clock, tail, " a m", " am");
    var once := ReplaceAll(tail, " a m", " am");
    ReplaceAllSkipsPrefix(clock, once, " p m", " pm");
    JoinMeridiem(pm, split.Some?);
  }

  lemma CompactIsVariant(clock: string, pm: bool)
    ensures clock + [' '] + MeridiemText(pm, false, false, None) == clock + CompactMeridiem(pm)
  {
    var m := MeridiemText(pm, false, false, None);
    assert m == if pm then "pm" else "am";
    assert [' '] + m == CompactMeridiem(pm);
  }

  /** So every variant parses to exactly what its compact form parses to. */
  lemma VariantParsesAsCompact(clock: string, sep: char, pm: bool, upper: bool, dots: bool, split: Option<char>)
    requires ClockText(clock) && SpaceVariant(sep) && (split.Some? ==> SpaceVariant(split.value))
    ensures ParseTime(Some(clock + [sep] + MeridiemText(pm, upper, dots, split))) ==
            ParseTime(Some(clock + CompactMeridiem(pm)))
  {
    var v := clock + [sep] + MeridiemText(pm, upper, dots, split);
    var w := clock + CompactMeridiem(pm);
    VariantNormalizes(clock, sep, pm, upper, dots, split);
    VariantNormalizes(clock, ' ', pm, false, false, None);
    CompactIsVariant(clock, pm);
  }

  /** The two-digit field of a number below 100. */
  lemma PadTwo(n: nat)
    requires n < 100
    ensures Pad(n, 2) == [DigitChar(n / 10), DigitChar(n % 10)]
  {
    var q := n / 10;
    assert q < 10;
    assert Pad(q, 1) == [DigitChar(q)] by {
      assert q % 10 == q;
      assert Pad(q, 1) == Pad(q / 10, 0) + [DigitChar(q % 10)];
    }
    assert Pad(n, 2) == Pad(q, 1) + [DigitChar(n % 10)];
  }

  lemma PaddedTokens(h: nat, m: nat, s: nat)
    requires 1 <= h <= 12 && m < 60 && s < 60
    ensures HourToken(Pad(h, 2)) && MinuteToken(Pad(m, 2)) && SecondToken(Pad(s, 2))
  {
    PadTwo(h);
    PadTwo(m);
    PadTwo(s);
  }

  /** A proof step of `FormattedMatches`: where the fields of "hh:mm:ss"
      followed by `tail` sit. */
  lemma ClockLayout(hh: string, mm: string, ss: string, tail: string)
    requires |hh| == 2 && |mm| == 2 && |ss| == 2
    ensures var text := hh + ":" + mm + ":" + ss + tail;
            text[..2] == hh && text[2] == ':' && text[3..5] == mm && text[5] == ':' &&
            text[6..8] == ss && text[8..] == tail
  {
  }

  /** "hh:mm:ss" followed by a compact meridiem splits at 2, 5, 8 and 9. */
  lemma FormattedMatches(h: nat, m: nat, s: nat, pm: bool)
    requires 1 <= h <= 12 && m < 60 && s < 60
    ensures var text := Pad(h, 2) + ":" + Pad(m, 2) + ":" + Pad(s, 2) + CompactMeridiem(pm);
            MatchesAt(text, 2, 5, 8, 9) && text[..2] == Pad(h, 2) && text[3..5] == Pad(m, 2) &&
            text[6..8] == Pad(s, 2) && (text[9..] == "pm" <==> pm)
  {
    var tail := CompactMeridiem(pm);
    var text := Pad(h, 2) + ":" + Pad(m, 2) + ":" + Pad(s, 2) + tail;
    PaddedTokens(h, m, s);
    ClockLayout(Pad(h, 2), Pad(m, 2), Pad(s, 2), tail);
    assert text[8] == tail[0] == ' ';
    assert text[9..] == tail[1..];
  }

  /** The text "hh:mm:ss am" / "hh:mm:ss pm" of any 12-hour reading parses
      back to that reading on the 24-hour clock. */
  lemma FormattedTimeParses(h: nat, m: nat, s: nat, pm: bool)
    requires 1 <= h <= 12 && m < 60 && s < 60
    ensures ParseTime(Some(Pad(h, 2) + ":" + Pad(m, 2) + ":" + Pad(s, 2) + CompactMeridiem(pm)))
            == Some(TimeOfDay(To24(h, pm), m, s))
  {
    var clock := Pad(h, 2) + ":" + Pad(m, 2) + ":" + Pad(s, 2);
    var text := clock + CompactMeridiem(pm);
    assert ClockText(clock);
    VariantNormalizes(clock, ' ', pm, false, false, None);
    CompactIsVariant(clock, pm);
    FormattedMatches(h, m, s, pm);
    PadValue(h, 2);
    PadValue(m, 2);
    PadValue(s, 2);
    ParseClockComplete(text, 2, 5, 8, 9);
  }

  /** Checking out at the check-in time is a visit of no length. */
  lemma DurationSameTime(time: Option<string>)
    ensures DurationSeconds(time, time).Some? <==> ParseTime(time).Some?
    ensures DurationSeconds(time, time).Some? ==> DurationSeconds(time, time).value == 0
  {
  }

  /** "11:45:00 pm" is 23:45:00. */
  lemma QuarterToMidnight()
    ensures ParseTime(Some("11:45:00 pm")) == Some(TimeOfDay(23, 45, 0))
  {
    PadTwo(11);
    PadTwo(45);
    PadTwo(0);
    assert Pad(11, 2) + ":" + Pad(45, 2) + ":" + Pad(0, 2) + CompactMeridiem(true) == "11:45:00 pm";
    FormattedTimeParses(11, 45, 0, true);
  }

  /** "12:15:00 am" is 00:15:00. */
  lemma QuarterPastMidnight()
    ensures ParseTime(Some("12:15:00 am")) == Some(TimeOfDay(0, 15, 0))
  {
    PadTwo(12);
    PadTwo(15);
    PadTwo(0);
    assert Pad(12, 2) + ":" + Pad(15, 2) + ":" + Pad(0, 2) + CompactMeridiem(false) == "12:15:00 am";
    FormattedTimeParses(12, 15, 0, false);
  }

  /** A clock without a seconds field has one colon only, so `%S` finds
      nothing to match and the time is refused, whatever meridiem follows. */
  lemma NoSecondsRefused(clock: string, sep: char, pm: bool, upper: bool, dots: bool, split: Option<char>)
    requires ClockText(clock) && SpaceVariant(sep) && (split.Some? ==> SpaceVariant(split.value))
    requires forall a, b :: 0 <= a < b < |clock| ==> !(clock[a] == ':' && clock[b] == ':')
    ensures ParseTime(Some(clock + [sep] + MeridiemText(pm, upper, dots, split))).None?
  {
    VariantNormalizes(clock, sep, pm, upper, dots, split);
    var text := clock + CompactMeridiem(pm);
    if ParseClock(text).Some? {
      var a, b, c, d := ParseClockSound(text);
      assert false;
    }
  }

  /** The spellings "10:00 p m", "10:00 pm" and "10:00 a. m." carry no seconds,
      so `strptime('%I:%M:%S %p')` refuses all three. */
  lemma MinutesOnlyRefused()
    ensures ParseTime(Some("10:00 p m")).None?
    ensures ParseTime(Some("10:00 pm")).None?
    ensures ParseTime(Some("10:00 a. m.")).None?
  {
    var clock := "10:00";
    assert ClockText(clock);
    assert "10:00 p m" == clock + [' '] + MeridiemText(true, false, false, Some(' '));
    assert "10:00 pm" == clock + [' '] + MeridiemText(true, false, false, None);
    assert "10:00 a. m." == clock + [' '] + MeridiemText(false, false, true, Some(' '));
    NoSecondsRefused(clock, ' ', true, false, false, Some(' '));
    NoSecondsRefused(clock, ' ', true, false, false, None);
    NoSecondsRefused(clock, ' ', false, false, true, Some(' '));
  }

  /** A visit from a quarter to midnight until a quarter past lasts half an
      hour: 1800 seconds. */
  lemma MidnightCrossing()
    ensures DurationSeconds(Some("11:45:00 pm"), Some("12:15:00 am")) == Some(1800)
  {
    QuarterToMidnight();
    QuarterPastMidnight();
  }
}
