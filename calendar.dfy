/** chrono's `NaiveDate` and `NaiveDateTime` in the proleptic Gregorian calendar, the day
    arithmetic the program uses (`checked_sub_signed(Duration::days(n))`, `day()`,
    `weekday()`, `and_hms`, `timestamp()`) and the fixed formats `%Y-%m-%d`,
    `%Y-%m-%dT%H:%M:%S` and the `Display` form `%Y-%m-%d %H:%M:%S`. */
module Calendar {
  import opened Wrappers
  import opened Decimal

  predicate IsLeapYear(y: int) {
    y % 4 == 0 && (y % 100 != 0 || y % 400 == 0)
  }

  function DaysInYear(y: int): int {
    if IsLeapYear(y) then 366 else 365
  }

  function DaysInMonth(y: int, m: int): int
    requires 1 <= m <= 12
  {
    if m == 2 then (if IsLeapYear(y) then 29 else 28)
    else if m == 4 || m == 6 || m == 9 || m == 11 then 30
    else 31
  }

  /** Days of year `y` before the first of month `m`. */
  function DaysBeforeMonth(y: int, m: int): int
    requires 1 <= m <= 12
  {
    var common :=
      if m == 1 then 0 else if m == 2 then 31 else if m == 3 then 59
      else if m == 4 then 90 else if m == 5 then 120 else if m == 6 then 151
      else if m == 7 then 181 else if m == 8 then 212 else if m == 9 then 243
      else if m == 10 then 273 else if m == 11 then 304 else 334;
    common + (if m > 2 && IsLeapYear(y) then 1 else 0)
  }

  /** Days from 0001-01-01 to the first of January of year `y` (negative before year 1);
      Dafny's `/` is floor division here, as the proleptic calendar needs. */
  function DaysBeforeYear(y: int): int {
    var p := y - 1;
    365 * p + p / 4 - p / 100 + p / 400
  }

  /** Days from 0001-01-01 to 1970-01-01, the origin of `timestamp()`. */
  const UnixEpochDays: int := 719162

  datatype Date = Date(year: int, month: int, day: int) {
    predicate Valid() {
      1 <= month <= 12 && 1 <= day <= DaysInMonth(year, month)
    }
  }

  /** Days since 1970-01-01. */
  function DayNumber(d: Date): int
    requires d.Valid()
  {
    DaysBeforeYear(d.year) + DaysBeforeMonth(d.year, d.month) + d.day - 1 - UnixEpochDays
  }

  /** Floor division by a constant `k` steps up exactly at the multiples of `k`. */
  lemma FloorStep4(y: int)
    ensures y / 4 - (y - 1) / 4 == if y % 4 == 0 then 1 else 0
  {
  }

  lemma FloorStep100(y: int)
    ensures y / 100 - (y - 1) / 100 == if y % 100 == 0 then 1 else 0
  {
  }

  lemma FloorStep400(y: int)
    ensures y / 400 - (y - 1) / 400 == if y % 400 == 0 then 1 else 0
  {
  }

  /** Multiples of 400 are multiples of 100, and multiples of 100 are multiples of 4. */
  lemma CenturyMultiples(y: int)
    ensures y % 400 == 0 ==> y % 100 == 0
    ensures y % 100 == 0 ==> y % 4 == 0
  {
    var q := y / 400;
    var r := y / 100;
    assert y == 400 * q + y % 400;
    assert y == 100 * r + y % 100;
  }

  /** Consecutive years differ by the length of the earlier one. */
  lemma DaysBeforeNextYear(y: int)
    ensures DaysBeforeYear(y + 1) == DaysBeforeYear(y) + DaysInYear(y)
  {
    var p := y - 1;
    FloorStep4(y);
    FloorStep100(y);
    FloorStep400(y);
    var step := (y / 4 - p / 4) - (y / 100 - p / 100) + (y / 400 - p / 400);
    assert DaysBeforeYear(y + 1) - DaysBeforeYear(y) == 365 + step;
    CenturyMultiples(y);
    assert step == if IsLeapYear(y) then 1 else 0;
  }

  lemma EpochIsDayZero()
    ensures DaysBeforeYear(1970) == UnixEpochDays
    ensures DayNumber(Date(1970, 1, 1)) == 0
  {
  }

  /** The day before `d`. */
  function Pred(d: Date): (r: Date)
    requires d.Valid()
    ensures r.Valid() && DayNumber(r) == DayNumber(d) - 1
  {
    if d.day > 1 then Date(d.year, d.month, d.day - 1)
    else if d.month > 1 then Date(d.year, d.month - 1, DaysInMonth(d.year, d.month - 1))
    else
      DaysBeforeNextYear(d.year - 1);
      Date(d.year - 1, 12, 31)
  }

  /** The day after `d`. */
  function Succ(d: Date): (r: Date)
    requires d.Valid()
    ensures r.Valid() && DayNumber(r) == DayNumber(d) + 1
  {
    if d.day < DaysInMonth(d.year, d.month) then Date(d.year, d.month, d.day + 1)
    else if d.month < 12 then Date(d.year, d.month + 1, 1)
    else
      DaysBeforeNextYear(d.year);
      Date(d.year + 1, 1, 1)
  }

  /** `n` days before `d`. */
  function SubDays(d: Date, n: nat): (r: Date)
    requires d.Valid()
    ensures r.Valid() && DayNumber(r) == DayNumber(d) - n
  {
    if n == 0 then d else Pred(SubDays(d, n - 1))
  }

  /** `n` days after `d`. */
  function AddDays(d: Date, n: nat): (r: Date)
    requires d.Valid()
    ensures r.Valid() && DayNumber(r) == DayNumber(d) + n
  {
    if n == 0 then d else Succ(AddDays(d, n - 1))
  }

  /** `d.checked_sub_signed(Duration::days(n)).unwrap()` for any sign of `n`. */
  function SubSignedDays(d: Date, n: int): (r: Date)
    requires d.Valid()
    ensures r.Valid() && DayNumber(r) == DayNumber(d) - n
  {
    if n >= 0 then SubDays(d, n) else AddDays(d, -n)
  }

  /** One more step back from a day other than the first of its month lowers the day. */
  lemma SubDaysStep(d: Date, n: nat)
    requires d.Valid() && 0 < n < d.day && SubDays(d, n - 1) == Date(d.year, d.month, d.day - n + 1)
    ensures SubDays(d, n) == Date(d.year, d.month, d.day - n)
  {
  }

  /** Inside one month, stepping back fewer days than the day of the month only lowers
      the day of the month. */
  lemma SubDaysWithinMonth(d: Date, n: nat)
    requires d.Valid() && n < d.day
    ensures SubDays(d, n) == Date(d.year, d.month, d.day - n)
  {
    var k := 0;
    while k < n
      invariant k <= n && SubDays(d, k) == Date(d.year, d.month, d.day - k)
    {
      SubDaysStep(d, k + 1);
      k := k + 1;
    }
  }

  /** `weekday().num_days_from_monday()`: Monday is 0, Friday is 4; 1970-01-01 was a Thursday. */
  function Weekday(d: Date): (w: nat)
    requires d.Valid()
    ensures w < 7
  {
    (DayNumber(d) + 3) % 7
  }

  const Friday: nat := 4

  lemma ModSevenPred(n: int)
    ensures (n - 1) % 7 == (n % 7 + 6) % 7
  {
  }

  /** Stepping back one day steps back one weekday. */
  lemma WeekdayOfPred(d: Date)
    requires d.Valid()
    ensures Weekday(Pred(d)) == (Weekday(d) + 6) % 7
  {
    var n := DayNumber(d) + 3;
    assert DayNumber(Pred(d)) + 3 == n - 1;
    ModSevenPred(n);
  }

  /** A calendar anchor: 2023-04-07 was a Friday. */
  lemma KnownFriday()
    ensures Date(2023, 4, 7).Valid() && Weekday(Date(2023, 4, 7)) == Friday
  {
    assert DayNumber(Date(2023, 4, 7)) == 19454;
  }

  /** `NaiveDateTime`, to the second. */
  datatype DateTime = DateTime(date: Date, hour: int, minute: int, second: int) {
    predicate Valid() {
      date.Valid() && 0 <= hour < 24 && 0 <= minute < 60 && 0 <= second < 60
    }

    /** Valid, and its year prints in the four digits of `%Y`. */
    predicate Printable() {
      Valid() && 0 <= date.year <= 9999
    }
  }

  /** `timestamp()`: seconds since 1970-01-01T00:00:00. */
  function Timestamp(t: DateTime): int
    requires t.Valid()
  {
    DayNumber(t.date) * 86400 + t.hour * 3600 + t.minute * 60 + t.second
  }

  /** `timestamp()` is exact: within a day it counts the seconds since midnight, and every
      time of a day comes before every time of the next day. */
  lemma TimestampWithinDay(t: DateTime)
    requires t.Valid()
    ensures DayNumber(t.date) * 86400 <= Timestamp(t) < (DayNumber(t.date) + 1) * 86400
  {
  }

  /** `d.and_hms(h, m, s)`. */
  function AndHms(d: Date, h: int, m: int, s: int): (t: DateTime)
    requires d.Valid() && 0 <= h < 24 && 0 <= m < 60 && 0 <= s < 60
    ensures t.Valid() && t.date == d
  {
    DateTime(d, h, m, s)
  }

  /** The first and the last second of a day. */
  lemma DayBounds(d: Date)
    requires d.Valid()
    ensures Timestamp(AndHms(d, 0, 0, 0)) == DayNumber(d) * 86400
    ensures Timestamp(AndHms(d, 23, 59, 59)) == DayNumber(d) * 86400 + 86399
  {
  }

  /** `%Y-%m-%d`. */
  function FormatDate(d: Date): (s: string)
    requires d.Valid() && 0 <= d.year <= 9999
    ensures |s| == 10
  {
    Padded(d.year, 4) + "-" + Padded(d.month, 2) + "-" + Padded(d.day, 2)
  }

  /** `%H:%M:%S`. */
  function FormatTime(h: nat, m: nat, sec: nat): (s: string)
    requires h < 100 && m < 100 && sec < 100
    ensures |s| == 8
  {
    Padded(h, 2) + ":" + Padded(m, 2) + ":" + Padded(sec, 2)
  }

  /** Three fields of widths `a`, 2 and 2 with a one-character separator after each of the
      first two: a `%Y-%m-%d` or a `%H:%M:%S` shape. */
  predicate Fields(s: string, a: nat, sep: char) {
    |s| == a + 6 && s[a] == sep && s[a + 3] == sep
    && AllDigits(s[..a]) && AllDigits(s[a + 1..a + 3]) && AllDigits(s[a + 4..])
  }

  /** Such a string is its fields with the separators between them. */
  lemma FieldsJoin(s: string, a: nat, sep: char)
    requires Fields(s, a, sep)
    ensures s == s[..a] + [sep] + s[a + 1..a + 3] + [sep] + s[a + 4..]
  {
  }

  /** Padding the parsed fields gives the string back. */
  lemma FieldsPadded(s: string, a: nat, sep: char)
    requires Fields(s, a, sep)
    ensures Padded(ParseDigits(s[..a]), a) + [sep] + Padded(ParseDigits(s[a + 1..a + 3]), 2) + [sep]
      + Padded(ParseDigits(s[a + 4..]), 2) == s
  {
    PadParsed(s[..a]);
    PadParsed(s[a + 1..a + 3]);
    PadParsed(s[a + 4..]);
    FieldsJoin(s, a, sep);
  }

  /** `NaiveDate::parse_from_str(s, "%Y-%m-%d")`, with the year in exactly four digits:
      it accepts exactly the formatted valid dates. */
  function ParseDate(s: string): (r: Option<Date>)
    ensures r.Some? ==> r.value.Valid() && 0 <= r.value.year <= 9999 && FormatDate(r.value) == s
  {
    if Fields(s, 4, '-') then
      var d := Date(ParseDigits(s[..4]), ParseDigits(s[5..7]), ParseDigits(s[8..]));
      if d.Valid() then
        FieldsPadded(s, 4, '-');
        Some(d)
      else None
    else None
  }

  /** The time fields of `%H:%M:%S`, read back when they are a valid time of day. */
  function ParseTime(s: string): (r: Option<(nat, nat, nat)>)
    ensures r.Some? ==>
      r.value.0 < 24 && r.value.1 < 60 && r.value.2 < 60 && FormatTime(r.value.0, r.value.1, r.value.2) == s
  {
    if Fields(s, 2, ':') then
      var h, m, sec := ParseDigits(s[..2]), ParseDigits(s[3..5]), ParseDigits(s[6..]);
      if h < 24 && m < 60 && sec < 60 then
        FieldsPadded(s, 2, ':');
        Some((h, m, sec))
      else None
    else None
  }

  lemma ParseFormatDate(d: Date)
    requires d.Valid() && 0 <= d.year <= 9999
    ensures ParseDate(FormatDate(d)) == Some(d)
  {
    var s := FormatDate(d);
    assert s[..4] == Padded(d.year, 4);
    assert s[5..7] == Padded(d.month, 2);
    assert s[8..] == Padded(d.day, 2);
    ParsePadded(d.year, 4);
    ParsePadded(d.month, 2);
    ParsePadded(d.day, 2);
  }

  lemma ParseFormatTime(h: nat, m: nat, sec: nat)
    requires h < 24 && m < 60 && sec < 60
    ensures ParseTime(FormatTime(h, m, sec)) == Some((h, m, sec))
  {
    var s := FormatTime(h, m, sec);
    assert s[..2] == Padded(h, 2);
    assert s[3..5] == Padded(m, 2);
    assert s[6..] == Padded(sec, 2);
    ParsePadded(h, 2);
    ParsePadded(m, 2);
    ParsePadded(sec, 2);
  }

  /** The date and time fields with `sep` between date and time: `T` in the worklog format,
      a space in `NaiveDateTime`'s `Display` (`%Y-%m-%d %H:%M:%S`). */
  function FormatWith(t: DateTime, sep: char): (s: string)
    requires t.Printable()
    ensures |s| == 19
  {
    FormatDate(t.date) + [sep] + FormatTime(t.hour, t.minute, t.second)
  }

  /** A formatted date-time holds digits, the date's dashes, `sep` and the time's colons. */
  lemma FormatWithChars(t: DateTime, sep: char)
    requires t.Printable()
    ensures var s := FormatWith(t, sep);
      forall i :: 0 <= i < |s| ==> IsDigit(s[i]) || s[i] == '-' || s[i] == sep || s[i] == ':'
  {
    var s := FormatWith(t, sep);
    var date, time := FormatDate(t.date), FormatTime(t.hour, t.minute, t.second);
    assert forall i :: 0 <= i < 4 ==> date[i] == Padded(t.date.year, 4)[i];
    assert forall i :: 5 <= i < 7 ==> date[i] == Padded(t.date.month, 2)[i - 5];
    assert forall i :: 8 <= i < 10 ==> date[i] == Padded(t.date.day, 2)[i - 8];
    assert forall i :: 0 <= i < 2 ==> time[i] == Padded(t.hour, 2)[i];
    assert forall i :: 3 <= i < 5 ==> time[i] == Padded(t.minute, 2)[i - 3];
    assert forall i :: 6 <= i < 8 ==> time[i] == Padded(t.second, 2)[i - 6];
    assert forall i :: 0 <= i < 10 ==> s[i] == date[i];
    assert forall i :: 11 <= i < 19 ==> s[i] == time[i - 11];
  }

  /** `format("%Y-%m-%dT%H:%M:%S")`, the worklog format. */
  function FormatTs(t: DateTime): (s: string)
    requires t.Printable()
    ensures |s| == 19
  {
    FormatWith(t, 'T')
  }

  /** `NaiveDateTime::parse_from_str(s, "%Y-%m-%dT%H:%M:%S")`, fixed width: it accepts
      exactly the formatted valid date-times. */
  function ParseTs(s: string): (r: Option<DateTime>)
    ensures r.Some? ==> r.value.Printable() && FormatTs(r.value) == s
  {
    if |s| == 19 && s[10] == 'T' then
      match ParseDate(s[..10])
      case None => None
      case Some(d) =>
        match ParseTime(s[11..])
        case None => None
        case Some(time) =>
          var t := DateTime(d, time.0, time.1, time.2);
          assert FormatTs(t) == s[..10] + "T" + s[11..] == s;
          Some(t)
    else None
  }

  /** Formatting then parsing gives the date-time back. */
  lemma ParseFormatTs(t: DateTime)
    requires t.Printable()
    ensures ParseTs(FormatTs(t)) == Some(t)
  {
    var s := FormatTs(t);
    var date, time := FormatDate(t.date), FormatTime(t.hour, t.minute, t.second);
    assert s[..10] == date;
    assert s[11..] == time;
    ParseFormatDate(t.date);
    ParseFormatTime(t.hour, t.minute, t.second);
  }
}
