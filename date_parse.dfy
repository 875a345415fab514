/** src/cli/date_parse.rs: the dates the command line accepts, an ISO date or a keyword
    relative to today. Today's date is a parameter. */
module DateParse {
  import opened Wrappers
  import opened Calendar

  /** `days_from_today(days)`: `days` days before today (after it, for a negative count). */
  function DaysFromToday(today: Date, days: int): (d: Date)
    requires today.Valid()
    ensures d.Valid() && DayNumber(d) == DayNumber(today) - days
  {
    SubSignedDays(today, days)
  }

  /** `current_day`: today's day of the month. */
  function CurrentDay(today: Date): int {
    today.day
  }

  /** The number of days since the most recent Friday (0 on a Friday). */
  function DaysSinceFriday(today: Date): (n: nat)
    requires today.Valid()
    ensures n <= 6
  {
    (Weekday(today) + 3) % 7
  }

  /** The day the keyword `biweekly` goes back to: the 15th from the 15th on, else the 1st. */
  function BiweeklyTarget(today: Date): int {
    if CurrentDay(today) >= 15 then 15 else 1
  }

  /** The reference definition of `input`: an ISO date first, then the keywords. */
  function Resolve(s: string, today: Date): (r: Result<Date, string>)
    requires today.Valid()
  {
    match ParseDate(s)
    case Some(date) => Ok(date)
    case None => KeywordDate(s, today)
  }

  /** The keywords of `input`: `today`, or a number of days back from today. */
  function KeywordDate(s: string, today: Date): (r: Result<Date, string>)
    requires today.Valid()
  {
    if s == "today" then Ok(today)
    else match KeywordBack(s, today)
      case Some(back) => Ok(DaysFromToday(today, back))
      case None => Err("Can't format input as date: " + s)
  }

  /** How many days back from today each keyword but `today` goes. */
  function KeywordBack(s: string, today: Date): Option<int>
    requires today.Valid()
  {
    if s == "yesterday" then Some(1)
    else if s == "month" then Some(CurrentDay(today) - 1)
    else if s == "biweekly" then Some(CurrentDay(today) - BiweeklyTarget(today))
    else if s == "friday" then Some(DaysSinceFriday(today))
    else None
  }

  /** The loop of the `friday` keyword: steps back a day at a time until a Friday, counting
      the steps. */
  method LastFridayGap(today: Date) returns (gap: nat)
    requires today.Valid()
    ensures gap == DaysSinceFriday(today)
    ensures Weekday(SubDays(today, gap)) == Friday
    ensures forall k :: 0 <= k < gap ==> Weekday(SubDays(today, k)) != Friday
  {
    var cursor := today;
    gap := 0;
    while Weekday(cursor) != Friday
      invariant cursor.Valid() && cursor == SubDays(today, gap)
      invariant gap + DaysSinceFriday(cursor) == DaysSinceFriday(today)
      decreases DaysSinceFriday(cursor)
    {
      SinceFridayOfPred(cursor);
      cursor := Pred(cursor);
      gap := gap + 1;
    }
    FridayIffNoDaysSince(cursor);
    forall k | 0 <= k < gap
      ensures Weekday(SubDays(today, k)) != Friday
    {
      NoFridaySince(today, k);
    }
  }

  /** `input`. */
  method Input(s: string, today: Date) returns (r: Result<Date, string>)
    requires today.Valid()
    ensures r == Resolve(s, today)
  {
    var parsed := ParseDate(s);
    if parsed.Some? {
      return Ok(parsed.value);
    }
    r := Keyword(s, today);
  }

  /** The `match` of `input` on the keywords: every keyword but `today` steps back `back`
      days from today. */
  method Keyword(s: string, today: Date) returns (r: Result<Date, string>)
    requires today.Valid()
    ensures r == KeywordDate(s, today)
  {
    if s == "today" {
      return Ok(today);
    }
    var back: int;
    if s == "yesterday" {
      back := 1;
    } else if s == "month" {
      back := CurrentDay(today) - 1;
    } else if s == "biweekly" {
      var day := CurrentDay(today);
      var target := if day >= 15 then 15 else 1;
      back := day - target;
    } else if s == "friday" {
      back := LastFridayGap(today);
    } else {
      return Err("Can't format input as date: " + s);
    }
    assert KeywordBack(s, today) == Some(back);
    r := Ok(DaysFromToday(today, back));
  }

  // ---------------------------------------------------------------------------------------
  // Properties

  /** A string in `%Y-%m-%d` form is the date it spells, whatever the keywords say. */
  lemma ResolveIsoDate(d: Date, today: Date)
    requires d.Valid() && 0 <= d.year <= 9999 && today.Valid()
    ensures Resolve(FormatDate(d), today) == Ok(d)
  {
    ParseFormatDate(d);
  }

  /** No keyword has the ten characters of an ISO date, so each reaches its own case. */
  lemma KeywordsAreNotDates(s: string)
    requires s in {"today", "yesterday", "month", "biweekly", "friday"}
    ensures ParseDate(s) == None
  {
  }

  /** `today` is today and `yesterday` the day before. */
  lemma ResolveTodayYesterday(today: Date)
    requires today.Valid()
    ensures Resolve("today", today) == Ok(today)
    ensures Resolve("yesterday", today) == Ok(Pred(today))
  {
    KeywordsAreNotDates("today");
    KeywordsAreNotDates("yesterday");
    assert SubDays(today, 1) == Pred(today);
  }

  /** `month` is the first day of the current month. */
  lemma ResolveMonth(today: Date)
    requires today.Valid()
    ensures Resolve("month", today) == Ok(Date(today.year, today.month, 1))
  {
    KeywordsAreNotDates("month");
    SubDaysWithinMonth(today, today.day - 1);
  }

  /** `biweekly` is the 15th of the current month from the 15th on, and the 1st before. */
  lemma ResolveBiweekly(today: Date)
    requires today.Valid()
    ensures Resolve("biweekly", today) == Ok(Date(today.year, today.month, if today.day >= 15 then 15 else 1))
  {
    KeywordsAreNotDates("biweekly");
    SubDaysWithinMonth(today, today.day - BiweeklyTarget(today));
  }

  /** `friday` is the most recent Friday: a Friday, on or before today and at most six days
      earlier, and today itself on a Friday. */
  lemma ResolveFriday(today: Date)
    requires today.Valid()
    ensures Resolve("friday", today).Ok?
    ensures Weekday(Resolve("friday", today).value) == Friday
    ensures 0 <= DayNumber(today) - DayNumber(Resolve("friday", today).value) <= 6
    ensures Weekday(today) == Friday ==> Resolve("friday", today) == Ok(today)
  {
    KeywordsAreNotDates("friday");
    var n := DaysSinceFriday(today);
    var back := SubDays(today, n);
    assert Resolve("friday", today) == Ok(back);
    FridayBack(today, n);
    FridayIffNoDaysSince(back);
    FridayIffNoDaysSince(today);
  }

  /** No day after the last Friday is a Friday. */
  lemma NoFridaySince(today: Date, k: nat)
    requires today.Valid() && k < DaysSinceFriday(today)
    ensures Weekday(SubDays(today, k)) != Friday
  {
    FridayBack(today, k);
    FridayIffNoDaysSince(SubDays(today, k));
  }

  /** A day is a Friday exactly when no day has passed since the last Friday. */
  lemma FridayIffNoDaysSince(d: Date)
    requires d.Valid()
    ensures Weekday(d) == Friday <==> DaysSinceFriday(d) == 0
  {
    var w := Weekday(d);
    assert DaysSinceFriday(d) == (w + 3) % 7;
  }

  /** The days since the last Friday, read off the day number. */
  lemma DaysSinceFridayNumber(d: Date)
    requires d.Valid()
    ensures DaysSinceFriday(d) == (DayNumber(d) + 6) % 7
  {
    var x := DayNumber(d) + 6;
    var w := Weekday(d);
    assert w == (x - 3) % 7;
    StepMod7(x);
  }

  lemma StepMod7(x: int)
    ensures ((x - 3) % 7 + 3) % 7 == x % 7
  {
    var q := x / 7;
    var r := x % 7;
    assert x == 7 * q + r;
    if r >= 3 {
      assert (x - 3) % 7 == r - 3;
    } else {
      assert x - 3 == 7 * (q - 1) + (r + 4);
      assert (x - 3) % 7 == r + 4;
    }
  }

  /** Taking at most `x % 7` off `x` takes as much off its remainder. */
  lemma SubMod7(x: int, n: nat)
    requires n <= x % 7
    ensures (x - n) % 7 == x % 7 - n
  {
    var q := x / 7;
    assert x - n == 7 * q + (x % 7 - n);
  }

  lemma StepBackWeekday(w: int)
    requires 0 <= w < 7 && w != Friday
    ensures ((w + 6) % 7 + 3) % 7 == (w + 3) % 7 - 1
  {
    if w == 0 {
    } else if w == 1 {
    } else if w == 2 {
    } else if w == 3 {
    } else if w == 5 {
    } else {
    }
  }

  /** On any day but a Friday, the day before is one day nearer the last Friday. */
  lemma SinceFridayOfPred(d: Date)
    requires d.Valid() && Weekday(d) != Friday
    ensures DaysSinceFriday(Pred(d)) == DaysSinceFriday(d) - 1
  {
    WeekdayOfPred(d);
    StepBackWeekday(Weekday(d));
  }

  /** Stepping back `n` days, with `n` at most the days since the last Friday, takes that
      many days off the count. */
  lemma FridayBack(d: Date, n: nat)
    requires d.Valid() && n <= DaysSinceFriday(d)
    ensures DaysSinceFriday(SubDays(d, n)) == DaysSinceFriday(d) - n
  {
    var x := DayNumber(d) + 6;
    DaysSinceFridayNumber(d);
    DaysSinceFridayNumber(SubDays(d, n));
    assert DayNumber(SubDays(d, n)) + 6 == x - n;
    SubMod7(x, n);
  }

  /** Every keyword gives a valid date on or before today. */
  lemma KeywordsNotAfterToday(s: string, today: Date)
    requires today.Valid() && s in {"today", "yesterday", "month", "biweekly", "friday"}
    ensures Resolve(s, today).Ok?
    ensures Resolve(s, today).value.Valid()
    ensures DayNumber(Resolve(s, today).value) <= DayNumber(today)
  {
    KeywordsAreNotDates(s);
    if s == "friday" {
      ResolveFriday(today);
    }
  }

  /** Anything else is refused with the message naming the input. */
  lemma ResolveOther(s: string, today: Date)
    requires today.Valid() && ParseDate(s) == None
    requires s !in {"today", "yesterday", "month", "biweekly", "friday"}
    ensures Resolve(s, today) == Err("Can't format input as date: " + s)
  {
  }
}
