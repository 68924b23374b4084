/** The date string `parseChat` hands to `new Date` (src/lib/parseChat.ts:129-143). */
module ChatDate {
  import opened JsString
  import opened ChatEnvelope

  /** A timestamp one of the four envelopes can capture. */
  predicate IsTimestamp(ts: string) {
    || FitsLayout(ts, Layout(DashYearFirst))
    || FitsLayout(ts, Layout(BracketSpace))
    || FitsLayout(ts, Layout(BracketComma))
    || FitsLayout(ts, Layout(DashDayFirst))
  }

  /** `/^\d{4}\/\d{2}\/\d{2}/` */
  predicate StartsWithYearDate(ts: string) {
    |ts| >= 10 && FitsLayout(ts[..10], "dddd/dd/dd")
  }

  /** The date string for a captured timestamp, built exactly as the three branches
      of the source do: a year-first date is rearranged with its own year, every other
      date with "20" written before its year; the comma forms trim the time and add
      ":00" seconds, the space form keeps the time as it is. */
  function DateString(ts: string): string
    requires IsTimestamp(ts)
  {
    TimestampSplits(ts);
    if StartsWithYearDate(ts) then
      var parts := Split(ts, ',');
      var ymd := Split(parts[0], '/');
      ymd[0] + "-" + ymd[1] + "-" + ymd[2] + "T" + Trim(parts[1]) + ":00"
    else if ',' in ts then
      var parts := Split(ts, ',');
      var dmy := Split(parts[0], '/');
      "20" + dmy[2] + "-" + dmy[1] + "-" + dmy[0] + "T" + Trim(parts[1]) + ":00"
    else
      var halves := Split(ts, ' ');
      var dmy := Split(halves[0], '/');
      "20" + dmy[2] + "-" + dmy[1] + "-" + dmy[0] + "T" + halves[1]
  }

  /** The destructured pieces exist on every branch. */
  lemma TimestampSplits(ts: string)
    requires IsTimestamp(ts)
    ensures StartsWithYearDate(ts) ==> ',' in ts
    ensures ',' in ts ==> |Split(ts, ',')| >= 2 && |Split(Split(ts, ',')[0], '/')| >= 3
    ensures ',' !in ts ==> |Split(ts, ' ')| >= 2 && |Split(Split(ts, ' ')[0], '/')| >= 3
  {
    if FitsLayout(ts, Layout(DashYearFirst)) { TimestampPieces(ts, DashYearFirst); }
    else if FitsLayout(ts, Layout(BracketSpace)) {
      TimestampPieces(ts, BracketSpace);
      DayFirstIsNotYearFirst(ts, BracketSpace);
    }
    else if FitsLayout(ts, Layout(BracketComma)) { TimestampPieces(ts, BracketComma); }
    else { TimestampPieces(ts, DashDayFirst); }
  }

  /** Only the year-first timestamp passes the `^\d{4}\/\d{2}\/\d{2}` test. */
  lemma DayFirstIsNotYearFirst(ts: string, f: Format)
    requires FitsLayout(ts, Layout(f)) && f != DashYearFirst
    ensures !StartsWithYearDate(ts)
  {
    assert Layout(f)[2] == '/';
    assert ts[2] == '/';
    if |ts| >= 10 { assert ts[..10][2] == '/'; }
  }

  /** The year-first timestamp passes the `^\d{4}\/\d{2}\/\d{2}` test. */
  lemma YearFirstIsYearFirst(ts: string)
    requires FitsLayout(ts, Layout(DashYearFirst))
    ensures StartsWithYearDate(ts)
  {
    FitsConcat(ts, DateLayout(DashYearFirst), [','] + TimeLayout(DashYearFirst));
  }

  /** How `split` takes a timestamp of format `f` apart. */
  lemma TimestampPieces(ts: string, f: Format)
    requires FitsLayout(ts, Layout(f))
    ensures ',' in ts <==> f != BracketSpace
    ensures Split(ts, TimeSeparator(f)) == [ts[..|DateLayout(f)|], ts[|DateLayout(f)| + 1..]]
    ensures FitsLayout(ts[..|DateLayout(f)|], DateLayout(f))
    ensures FitsLayout(ts[|DateLayout(f)| + 1..], TimeLayout(f))
    ensures |Split(ts[..|DateLayout(f)|], '/')| == 3
  {
    var n := |DateLayout(f)|;
    SeparatorsOutside(f);
    SplitInTwo(ts, DateLayout(f), TimeLayout(f), TimeSeparator(f));
    if f == BracketSpace {
      LacksSeparator(ts, Layout(f), ',');
    }
    DatePieces(ts[..n], f);
  }

  /** The time separator occurs in neither half of the layout, and the space form has
      no comma at all. */
  lemma SeparatorsOutside(f: Format)
    ensures TimeSeparator(f) !in DateLayout(f) && TimeSeparator(f) !in TimeLayout(f)
    ensures f == BracketSpace ==> ',' !in Layout(f)
  {
  }

  /** How `split('/')` takes the date part apart. */
  lemma DatePieces(date: string, f: Format)
    requires FitsLayout(date, DateLayout(f))
    ensures f == DashYearFirst ==>
      && Split(date, '/') == [date[..4], date[5..7], date[8..]]
      && AllDigits(date[..4]) && AllDigits(date[5..7]) && AllDigits(date[8..]) && |date[8..]| == 2
    ensures f != DashYearFirst ==>
      && Split(date, '/') == [date[..2], date[3..5], date[6..]]
      && AllDigits(date[..2]) && AllDigits(date[3..5]) && AllDigits(date[6..])
      && |date[6..]| == (if f == BracketComma then 4 else 2)
  {
    DateLayoutParts(f);
    if f == DashYearFirst {
      FieldsOfDate(date, "dddd", "dd", 4, 7);
    } else if f == BracketComma {
      FieldsOfDate(date, "dd", "dddd", 2, 5);
    } else {
      FieldsOfDate(date, "dd", "dd", 2, 5);
    }
  }

  /** `DatePieces` for one layout `first/dd/last`. */
  lemma FieldsOfDate(date: string, first: string, last: string, a: nat, b: nat)
    requires first in {"dd", "dddd"} && last in {"dd", "dddd"} && a == |first| && b == a + 3
    requires FitsLayout(date, first + ['/'] + "dd" + ['/'] + last)
    ensures Split(date, '/') == [date[..a], date[a + 1..b], date[b + 1..]]
    ensures AllDigits(date[..a]) && AllDigits(date[a + 1..b]) && AllDigits(date[b + 1..])
    ensures |date[b + 1..]| == |last|
  {
    DateThirds(date, first, "dd", last, a, b);
  }

  /** The three date layouts, field by field. */
  lemma DateLayoutParts(f: Format)
    ensures f == DashYearFirst ==> DateLayout(f) == "dddd" + ['/'] + "dd" + ['/'] + "dd"
    ensures f == BracketComma ==> DateLayout(f) == "dd" + ['/'] + "dd" + ['/'] + "dddd"
    ensures f != DashYearFirst && f != BracketComma ==> DateLayout(f) == "dd" + ['/'] + "dd" + ['/'] + "dd"
  {
  }

  /** `split('/')` of a date whose three fields are runs of digits. */
  lemma DateThirds(date: string, first: string, second: string, last: string, a: nat, b: nat)
    requires a == |first| && b == a + 1 + |second|
    requires FitsLayout(date, first + ['/'] + second + ['/'] + last)
    requires forall k :: 0 <= k < |first| ==> first[k] == 'd'
    requires forall k :: 0 <= k < |second| ==> second[k] == 'd'
    requires forall k :: 0 <= k < |last| ==> last[k] == 'd'
    ensures Split(date, '/') == [date[..a], date[a + 1..b], date[b + 1..]]
    ensures AllDigits(date[..a]) && AllDigits(date[a + 1..b]) && AllDigits(date[b + 1..])
    ensures |date[b + 1..]| == |last|
  {
    SplitInThree(date, first, second, last, '/', a, b);
    DigitLayout(date[..a], first);
    DigitLayout(date[a + 1..b], second);
    DigitLayout(date[b + 1..], last);
  }

  /** Splitting a string that fits `a`, a separator, then `rest`, where `a` holds no
      separator: the first piece is the part fitting `a`. */
  lemma SplitFirst(s: string, a: string, rest: string, sep: char)
    requires FitsLayout(s, a + [sep] + rest) && !IsDigit(sep) && sep != 'd' && sep !in a
    ensures Split(s, sep) == [s[..|a|]] + Split(s[|a| + 1..], sep)
    ensures FitsLayout(s[..|a|], a) && FitsLayout(s[|a| + 1..], rest) && s[|a|] == sep
  {
    FitsConcat(s, a + [sep], rest);
    FitsConcat(s[..|a| + 1], a, [sep]);
    assert s[..|a| + 1][..|a|] == s[..|a|];
    assert s[|a|] == s[..|a| + 1][|a|..][0];
    LacksSeparator(s[..|a|], a, sep);
    SplitAt(s, sep, |a|);
  }

  /** Splitting a string that fits `a`, a separator, then `b`. */
  lemma SplitInTwo(s: string, a: string, b: string, sep: char)
    requires FitsLayout(s, a + [sep] + b) && !IsDigit(sep) && sep != 'd' && sep !in a && sep !in b
    ensures Split(s, sep) == [s[..|a|], s[|a| + 1..]]
    ensures FitsLayout(s[..|a|], a) && FitsLayout(s[|a| + 1..], b) && s[|a|] == sep
  {
    SplitFirst(s, a, b, sep);
    LacksSeparator(s[|a| + 1..], b, sep);
  }

  /** Splitting a string that fits `a`, a separator, `b`, a separator, then `c`. */
  lemma SplitInThree(s: string, a: string, b: string, c: string, sep: char, i: nat, j: nat)
    requires FitsLayout(s, a + [sep] + b + [sep] + c) && !IsDigit(sep) && sep != 'd'
    requires sep !in a && sep !in b && sep !in c
    requires i == |a| && j == i + 1 + |b|
    ensures Split(s, sep) == [s[..i], s[i + 1..j], s[j + 1..]]
    ensures FitsLayout(s[..i], a) && FitsLayout(s[i + 1..j], b) && FitsLayout(s[j + 1..], c)
  {
    var rest := s[i + 1..];
    assert Split(s, sep) == [s[..i]] + Split(rest, sep) && FitsLayout(s[..i], a) && FitsLayout(rest, b + [sep] + c) by {
      Reassociate(a, [sep], b, [sep], c);
      SplitFirst(s, a, b + [sep] + c, sep);
    }
    assert Split(rest, sep) == [rest[..|b|], rest[|b| + 1..]] && FitsLayout(rest[..|b|], b) && FitsLayout(rest[|b| + 1..], c) by {
      SplitInTwo(rest, b, c, sep);
    }
    DropThenTake(s, i + 1, j);
    ConsPair(s[..i], s[i + 1..j], s[j + 1..]);
  }

  lemma ConsPair<T>(x: T, y: T, z: T)
    ensures [x] + [y, z] == [x, y, z]
  {
  }

  /** Slicing the suffix from `i` is slicing the whole from `i` on. */
  lemma DropThenTake(s: string, i: nat, j: nat)
    requires i <= j < |s|
    ensures s[i..][..j - i] == s[i..j] && s[i..][j - i + 1..] == s[j + 1..]
  {
  }

  lemma Reassociate(p: string, q: string, r: string, t: string, u: string)
    ensures p + q + r + t + u == p + q + (r + t + u)
  {
  }

  /** A string fitting a layout of 'd's alone is all digits. */
  lemma DigitLayout(s: string, layout: string)
    requires FitsLayout(s, layout) && forall k :: 0 <= k < |layout| ==> layout[k] == 'd'
    ensures AllDigits(s)
  {
  }

  /** A string fits a concatenated layout exactly when its two parts fit the two parts. */
  lemma FitsConcat(s: string, a: string, b: string)
    requires FitsLayout(s, a + b)
    ensures FitsLayout(s[..|a|], a) && FitsLayout(s[|a|..], b)
  {
    forall k | 0 <= k < |b| ensures if b[k] == 'd' then IsDigit(s[|a|..][k]) else s[|a|..][k] == b[k] {
      assert (a + b)[|a| + k] == b[k];
    }
  }

  /** The reverse of `FitsConcat`. */
  lemma FitsJoin(s: string, a: string, t: string, b: string)
    requires FitsLayout(s, a) && FitsLayout(t, b)
    ensures FitsLayout(s + t, a + b)
  {
    forall k | 0 <= k < |s + t| ensures if (a + b)[k] == 'd' then IsDigit((s + t)[k]) else (s + t)[k] == (a + b)[k] {
      if k >= |s| { assert (s + t)[k] == t[k - |s|] && (a + b)[k] == b[k - |s|]; }
    }
  }

  /** A separator that is neither a digit nor in the layout is not in the string. */
  lemma LacksSeparator(s: string, layout: string, sep: char)
    requires FitsLayout(s, layout) && !IsDigit(sep) && sep !in layout
    ensures sep !in s
  {
  }

  /** `YYYY/MM/DD, HH:MM` becomes `YYYY-MM-DDTHH:MM:00`. */
  lemma YearFirstDateString(ts: string)
    requires FitsLayout(ts, Layout(DashYearFirst))
    ensures DateString(ts) == ts[..4] + "-" + ts[5..7] + "-" + ts[8..10] + "T" + ts[12..] + ":00"
    ensures IsIsoLocal(DateString(ts))
  {
    YearFirstParts(ts);
    YearFirstTime(ts);
    IsoFromParts(ts[..4], ts[5..7], ts[8..10], ts[12..] + ":00");
  }

  lemma YearFirstParts(ts: string)
    requires FitsLayout(ts, Layout(DashYearFirst))
    ensures DateString(ts) == ts[..4] + "-" + ts[5..7] + "-" + ts[8..10] + "T" + ts[12..] + ":00"
  {
    YearFirstIsYearFirst(ts);
    YearFirstFields(ts);
    ShortTimeAt(ts, 11);
    YearFirstString(ts, ts[..10], ts[11..], ts[..4], ts[5..7], ts[8..10], ts[12..]);
  }

  lemma YearFirstTime(ts: string)
    requires FitsLayout(ts, Layout(DashYearFirst))
    ensures AllDigits(ts[..4]) && AllDigits(ts[5..7]) && AllDigits(ts[8..10])
    ensures FitsLayout(ts[12..] + ":00", "dd:dd:dd")
  {
    YearFirstFields(ts);
    ShortTimeAt(ts, 11);
    WithSeconds(ts[12..]);
  }

  /** The fields of a `YYYY/MM/DD, HH:MM` timestamp, as `split` finds them. */
  lemma YearFirstFields(ts: string)
    requires FitsLayout(ts, Layout(DashYearFirst))
    ensures Split(ts, ',') == [ts[..10], ts[11..]]
    ensures Split(ts[..10], '/') == [ts[..4], ts[5..7], ts[8..10]]
    ensures AllDigits(ts[..4]) && AllDigits(ts[5..7]) && AllDigits(ts[8..10])
    ensures FitsLayout(ts[11..], " dd:dd")
  {
    TimestampPieces(ts, DashYearFirst);
    var date := ts[..10];
    DatePieces(date, DashYearFirst);
    PrefixPieces(ts, 10, 4, 7);
    assert AllDigits(date[..4]) && AllDigits(date[5..7]) && AllDigits(date[8..]);
  }

  /** The fields of a `[DD/MM/YY HH:MM:SS]` timestamp, as `split` finds them. */
  lemma BracketSpaceFields(ts: string)
    requires FitsLayout(ts, Layout(BracketSpace))
    ensures ',' !in ts && Split(ts, ' ') == [ts[..8], ts[9..]]
    ensures Split(ts[..8], '/') == [ts[..2], ts[3..5], ts[6..8]]
    ensures AllDigits(ts[..2]) && AllDigits(ts[3..5]) && AllDigits(ts[6..8]) && |ts[6..8]| == 2
    ensures FitsLayout(ts[9..], "dd:dd:dd")
  {
    TimestampPieces(ts, BracketSpace);
    DatePieces(ts[..8], BracketSpace);
    PrefixPieces(ts, 8, 2, 5);
  }

  /** The fields of a `[DD/MM/YYYY, HH:MM:SS]` timestamp, as `split` finds them. */
  lemma BracketCommaFields(ts: string)
    requires FitsLayout(ts, Layout(BracketComma))
    ensures ',' in ts && Split(ts, ',') == [ts[..10], ts[11..]]
    ensures Split(ts[..10], '/') == [ts[..2], ts[3..5], ts[6..10]]
    ensures FitsLayout(ts[11..], " dd:dd:dd")
  {
    TimestampPieces(ts, BracketComma);
    DatePieces(ts[..10], BracketComma);
    PrefixPieces(ts, 10, 2, 5);
  }

  /** The fields of a `DD/MM/YY, HH:MM` timestamp, as `split` finds them. */
  lemma DayFirstFields(ts: string)
    requires FitsLayout(ts, Layout(DashDayFirst))
    ensures ',' in ts && Split(ts, ',') == [ts[..8], ts[9..]]
    ensures Split(ts[..8], '/') == [ts[..2], ts[3..5], ts[6..8]]
    ensures AllDigits(ts[..2]) && AllDigits(ts[3..5]) && AllDigits(ts[6..8]) && |ts[6..8]| == 2
    ensures FitsLayout(ts[9..], " dd:dd")
  {
    TimestampPieces(ts, DashDayFirst);
    DatePieces(ts[..8], DashDayFirst);
    PrefixPieces(ts, 8, 2, 5);
  }

  /** The three pieces of a prefix are the same slices of the whole. */
  lemma PrefixPieces(s: string, n: nat, a: nat, b: nat)
    requires a < b < n <= |s|
    ensures s[..n][..a] == s[..a] && s[..n][a + 1..b] == s[a + 1..b] && s[..n][b + 1..] == s[b + 1..n]
  {
  }

  /** `trim` of a ` HH:MM` time starting at `i` drops its space. */
  lemma ShortTimeAt(ts: string, i: nat)
    requires i < |ts| && FitsLayout(ts[i..], " dd:dd")
    ensures Trim(ts[i..]) == ts[i + 1..] && FitsLayout(ts[i + 1..], "dd:dd")
  {
    TrimTime(ts[i..], " dd:dd");
    assert ts[i..][1..] == ts[i + 1..];
    assert " dd:dd"[1..] == "dd:dd";
  }

  /** `trim` of a ` HH:MM:SS` time starting at `i` drops its space. */
  lemma LongTimeAt(ts: string, i: nat)
    requires i < |ts| && FitsLayout(ts[i..], " dd:dd:dd")
    ensures Trim(ts[i..]) == ts[i + 1..]
  {
    TrimTime(ts[i..], " dd:dd:dd");
    assert ts[i..][1..] == ts[i + 1..];
  }

  /** The year-first branch of `DateString`, given what the two `split`s and `trim` return. */
  lemma YearFirstString(ts: string, date: string, time: string, y: string, m: string, d: string, clock: string)
    requires IsTimestamp(ts) && StartsWithYearDate(ts)
    requires Split(ts, ',') == [date, time] && Split(date, '/') == [y, m, d] && Trim(time) == clock
    ensures DateString(ts) == y + "-" + m + "-" + d + "T" + clock + ":00"
  {
  }

  /** The day-first comma branch of `DateString`. */
  lemma DayFirstString(ts: string, date: string, time: string, d: string, m: string, y: string, clock: string)
    requires IsTimestamp(ts) && !StartsWithYearDate(ts) && ',' in ts
    requires Split(ts, ',') == [date, time] && Split(date, '/') == [d, m, y] && Trim(time) == clock
    ensures DateString(ts) == "20" + y + "-" + m + "-" + d + "T" + clock + ":00"
  {
  }

  /** The space branch of `DateString`. */
  lemma SpaceString(ts: string, date: string, time: string, d: string, m: string, y: string)
    requires IsTimestamp(ts) && !StartsWithYearDate(ts) && ',' !in ts
    requires Split(ts, ' ') == [date, time] && Split(date, '/') == [d, m, y]
    ensures DateString(ts) == "20" + y + "-" + m + "-" + d + "T" + time
  {
  }

  /** Appending ":00" to an `HH:MM` time gives an `HH:MM:SS` time. */
  lemma WithSeconds(t: string)
    requires FitsLayout(t, "dd:dd")
    ensures FitsLayout(t + ":00", "dd:dd:dd")
  {
    FitsJoin(t, "dd:dd", ":00", ":dd");
  }

  /** `[DD/MM/YY HH:MM:SS]` becomes `20YY-MM-DDTHH:MM:SS`. */
  lemma BracketSpaceDateString(ts: string)
    requires FitsLayout(ts, Layout(BracketSpace))
    ensures DateString(ts) == "20" + ts[6..8] + "-" + ts[3..5] + "-" + ts[..2] + "T" + ts[9..]
    ensures IsIsoLocal(DateString(ts))
  {
    BracketSpaceParts(ts);
    BracketSpaceFields(ts);
    YearDigits(ts[6..8]);
    IsoFromParts("20" + ts[6..8], ts[3..5], ts[..2], ts[9..]);
  }

  lemma BracketSpaceParts(ts: string)
    requires FitsLayout(ts, Layout(BracketSpace))
    ensures DateString(ts) == "20" + ts[6..8] + "-" + ts[3..5] + "-" + ts[..2] + "T" + ts[9..]
  {
    DayFirstIsNotYearFirst(ts, BracketSpace);
    BracketSpaceFields(ts);
    SpaceString(ts, ts[..8], ts[9..], ts[..2], ts[3..5], ts[6..8]);
  }

  /** "20" before a two-digit year gives a four-digit year. */
  lemma YearDigits(yy: string)
    requires |yy| == 2 && AllDigits(yy)
    ensures |"20" + yy| == 4 && AllDigits("20" + yy)
  {
    var y := "20" + yy;
    assert y[0] == '2' && y[1] == '0' && y[2] == yy[0] && y[3] == yy[1];
  }

  /** `[DD/MM/YYYY, HH:MM:SS]` becomes `20YYYY-MM-DDTHH:MM:SS:00`: a six-digit year and
      a fourth time field, so the string is not a date-time `new Date` can read. */
  lemma BracketCommaDateString(ts: string)
    requires FitsLayout(ts, Layout(BracketComma))
    ensures DateString(ts) == "20" + ts[6..10] + "-" + ts[3..5] + "-" + ts[..2] + "T" + ts[12..] + ":00"
    ensures |DateString(ts)| == 24 && !IsIsoLocal(DateString(ts))
  {
    BracketCommaParts(ts);
  }

  lemma BracketCommaParts(ts: string)
    requires FitsLayout(ts, Layout(BracketComma))
    ensures DateString(ts) == "20" + ts[6..10] + "-" + ts[3..5] + "-" + ts[..2] + "T" + ts[12..] + ":00"
  {
    DayFirstIsNotYearFirst(ts, BracketComma);
    BracketCommaFields(ts);
    LongTimeAt(ts, 11);
    DayFirstString(ts, ts[..10], ts[11..], ts[..2], ts[3..5], ts[6..10], ts[12..]);
  }

  /** `DD/MM/YY, HH:MM` becomes `20YY-MM-DDTHH:MM:00`. */
  lemma DayFirstDateString(ts: string)
    requires FitsLayout(ts, Layout(DashDayFirst))
    ensures DateString(ts) == "20" + ts[6..8] + "-" + ts[3..5] + "-" + ts[..2] + "T" + ts[10..] + ":00"
    ensures IsIsoLocal(DateString(ts))
  {
    DayFirstParts(ts);
    DayFirstTime(ts);
    IsoFromParts("20" + ts[6..8], ts[3..5], ts[..2], ts[10..] + ":00");
  }

  lemma DayFirstParts(ts: string)
    requires FitsLayout(ts, Layout(DashDayFirst))
    ensures DateString(ts) == "20" + ts[6..8] + "-" + ts[3..5] + "-" + ts[..2] + "T" + ts[10..] + ":00"
  {
    DayFirstIsNotYearFirst(ts, DashDayFirst);
    DayFirstFields(ts);
    ShortTimeAt(ts, 9);
    DayFirstString(ts, ts[..8], ts[9..], ts[..2], ts[3..5], ts[6..8], ts[10..]);
  }

  lemma DayFirstTime(ts: string)
    requires FitsLayout(ts, Layout(DashDayFirst))
    ensures |"20" + ts[6..8]| == 4 && AllDigits("20" + ts[6..8]) && AllDigits(ts[3..5]) && AllDigits(ts[..2])
    ensures FitsLayout(ts[10..] + ":00", "dd:dd:dd")
  {
    DayFirstFields(ts);
    YearDigits(ts[6..8]);
    ShortTimeAt(ts, 9);
    WithSeconds(ts[10..]);
  }

  /** The `YYYY-MM-DDTHH:MM:SS` local date-time form. */
  predicate IsIsoLocal(d: string) {
    FitsLayout(d, "dddd-dd-ddTdd:dd:dd")
  }

  /** A space then a time: `trim` drops the space. */
  lemma TrimTime(t: string, layout: string)
    requires FitsLayout(t, layout) && |layout| > 1 && layout[0] == ' ' && layout[1] == 'd' && layout[|layout| - 1] == 'd'
    ensures Trim(t) == t[1..] && FitsLayout(t[1..], layout[1..])
  {
    assert t[0] == ' ';
    var x := t[1..];
    assert x[0] == t[1] && x[|x| - 1] == t[|t| - 1];
    assert t == [t[0]] + x;
    TrimAfterSpaces([t[0]], x);
    forall k | 0 <= k < |x| ensures if layout[1..][k] == 'd' then IsDigit(x[k]) else x[k] == layout[1..][k] {
      assert x[k] == t[k + 1] && layout[1..][k] == layout[k + 1];
    }
  }

  lemma IsoFromParts(year: string, month: string, day: string, time: string)
    requires |year| == 4 && AllDigits(year) && |month| == 2 && AllDigits(month) && |day| == 2 && AllDigits(day)
    requires FitsLayout(time, "dd:dd:dd")
    ensures IsIsoLocal(year + "-" + month + "-" + day + "T" + time)
  {
    var d := year + "-" + month + "-" + day + "T" + time;
    forall k | 0 <= k < 19 ensures if "dddd-dd-ddTdd:dd:dd"[k] == 'd' then IsDigit(d[k]) else d[k] == "dddd-dd-ddTdd:dd:dd"[k] {
      if k < 4 { assert d[k] == year[k]; }
      else if 5 <= k < 7 { assert d[k] == month[k - 5]; }
      else if 8 <= k < 10 { assert d[k] == day[k - 8]; }
      else if k >= 11 { assert d[k] == time[k - 11]; }
    }
  }
}
