/**
 * Calendar arithmetic for the tracker: proleptic Gregorian dates, the ISO
 * `YYYY-MM-DD` keys the tracker stores entries under, the Sunday-based week,
 * the effective day of a daily target and the delay to the next midnight.
 * The clock is an explicit `Instant`; local time and UTC are taken to agree.
 */
module Calendar {
  import opened Wrappers

  datatype Date = Date(year: int, month: int, day: int)

  /** A moment as the tracker reads it from `new Date()`. */
  datatype Instant = Instant(date: Date, hour: int, minute: int, second: int, millis: int)

  predicate IsLeapYear(y: int) {
    y % 4 == 0 && (y % 100 != 0 || y % 400 == 0)
  }

  function YearLength(y: int): int {
    if IsLeapYear(y) then 366 else 365
  }

  function DaysInMonth(y: int, m: int): int
    requires 1 <= m <= 12
  {
    if m == 2 then (if IsLeapYear(y) then 29 else 28)
    else if m == 4 || m == 6 || m == 9 || m == 11 then 30
    else 31
  }

  /** A real calendar date (any year). */
  predicate Valid(d: Date) {
    1 <= d.month <= 12 && 1 <= d.day <= DaysInMonth(d.year, d.month)
  }

  /** Dates whose ISO form has a plain four-digit year. */
  predicate FourDigitYear(d: Date) {
    0 <= d.year <= 9999
  }

  /**
   * The clocks the model covers: a valid time of day on a date whose
   * neighbouring dates (tomorrow, the whole week) still have four-digit years.
   */
  predicate ValidInstant(now: Instant) {
    && Valid(now.date) && 1 <= now.date.year <= 9998
    && 0 <= now.hour < 24 && 0 <= now.minute < 60
    && 0 <= now.second < 60 && 0 <= now.millis < 1000
  }

  // ---------------------------------------------------------------------
  // Day numbers

  /** Days in the years before `y`, counted from 1 January of year 1. */
  function DaysBeforeYear(y: int): int {
    var p := y - 1;
    365 * p + p / 4 - p / 100 + p / 400
  }

  function DaysBeforeMonth(y: int, m: int): int
    requires 1 <= m <= 12
  {
    var cumulative := [0, 31, 59, 90, 120, 151, 181, 212, 243, 273, 304, 334];
    cumulative[m - 1] + (if m > 2 && IsLeapYear(y) then 1 else 0)
  }

  /** The day's serial number: 1 January of year 1 is day 1 (a Monday). */
  function DayNumber(d: Date): int
    requires Valid(d)
  {
    DaysBeforeYear(d.year) + DaysBeforeMonth(d.year, d.month) + d.day
  }

  /** `getDay()`: 0 for Sunday up to 6 for Saturday. */
  function Weekday(d: Date): (w: int)
    requires Valid(d)
    ensures 0 <= w < 7
  {
    DayNumber(d) % 7
  }

  lemma FloorStep4(p: int)
    ensures (p + 1) / 4 == p / 4 + (if (p + 1) % 4 == 0 then 1 else 0)
  {
  }

  lemma FloorStep100(p: int)
    ensures (p + 1) / 100 == p / 100 + (if (p + 1) % 100 == 0 then 1 else 0)
  {
  }

  lemma FloorStep400(p: int)
    ensures (p + 1) / 400 == p / 400 + (if (p + 1) % 400 == 0 then 1 else 0)
  {
  }

  /** A year adds its own length to the count of days before it. */
  lemma YearStep(y: int)
    ensures DaysBeforeYear(y + 1) == DaysBeforeYear(y) + YearLength(y)
  {
    var p := y - 1;
    FloorStep4(p);
    FloorStep100(p);
    FloorStep400(p);
    if y % 400 == 0 {
      assert y == 400 * (y / 400);
      assert y % 100 == 0 && y % 4 == 0;
    } else if y % 100 == 0 {
      assert y == 100 * (y / 100);
      assert y % 4 == 0;
    }
  }

  /** A number minus its remainder modulo 7 is a multiple of 7, and adding `i < 7` to one gives remainder `i`. */
  lemma WeekArithmetic(n: int, i: int)
    requires 0 <= i < 7
    ensures (n - n % 7) % 7 == 0
    ensures (n - n % 7 + i) % 7 == i
  {
    assert n - n % 7 == 7 * (n / 7);
  }

  lemma MonthStep(y: int, m: int)
    requires 1 <= m < 12
    ensures DaysBeforeMonth(y, m + 1) == DaysBeforeMonth(y, m) + DaysInMonth(y, m)
  {
  }

  /** Every day of year `y` is numbered after the days of the earlier years and up to the year's end. */
  lemma DayNumberInYear(d: Date)
    requires Valid(d)
    ensures DaysBeforeYear(d.year) < DayNumber(d) <= DaysBeforeYear(d.year + 1)
  {
    YearStep(d.year);
  }

  lemma {:induction false} DaysBeforeYearGrows(a: int, b: int)
    requires a <= b
    ensures DaysBeforeYear(b) - DaysBeforeYear(a) >= 365 * (b - a)
    decreases b - a
  {
    if a < b {
      DaysBeforeYearGrows(a, b - 1);
      YearStep(b - 1);
    }
  }

  lemma {:induction false} DaysBeforeMonthGrows(y: int, m: int, n: int)
    requires 1 <= m < n <= 12
    ensures DaysBeforeMonth(y, n) >= DaysBeforeMonth(y, m) + DaysInMonth(y, m)
    decreases n - m
  {
    MonthStep(y, n - 1);
    if m < n - 1 {
      DaysBeforeMonthGrows(y, m, n - 1);
    }
  }

  /** Different dates have different day numbers. */
  lemma DayNumberInjective(d: Date, e: Date)
    requires Valid(d) && Valid(e) && DayNumber(d) == DayNumber(e)
    ensures d == e
  {
    DayNumberInYear(d);
    DayNumberInYear(e);
    if d.year < e.year {
      DaysBeforeYearGrows(d.year + 1, e.year);
    } else if e.year < d.year {
      DaysBeforeYearGrows(e.year + 1, d.year);
    }
    assert d.year == e.year;
    if d.month < e.month {
      DaysBeforeMonthGrows(d.year, d.month, e.month);
    } else if e.month < d.month {
      DaysBeforeMonthGrows(d.year, e.month, d.month);
    }
  }

  /** Two dates at most a year apart lie in the same or adjacent years. */
  lemma NearbyYears(d: Date, e: Date)
    requires Valid(d) && Valid(e)
    requires -365 <= DayNumber(e) - DayNumber(d) <= 365
    ensures d.year - 1 <= e.year <= d.year + 1
  {
    if e.year > d.year + 1 {
      FarYearsApart(d, e);
    } else if e.year < d.year - 1 {
      FarYearsApart(e, d);
    }
  }

  /** A date two or more years later has a day number more than a year larger. */
  lemma FarYearsApart(d: Date, e: Date)
    requires Valid(d) && Valid(e) && e.year > d.year + 1
    ensures DayNumber(e) - DayNumber(d) > 365
  {
    DayNumberInYear(d);
    DayNumberInYear(e);
    DaysBeforeYearGrows(d.year + 1, e.year - 1);
    var gap := DaysBeforeYear(e.year - 1) - DaysBeforeYear(d.year + 1);
    assert gap >= 0;
    YearStep(e.year - 1);
    assert DaysBeforeYear(e.year) >= DaysBeforeYear(e.year - 1) + 365;
  }

  // ---------------------------------------------------------------------
  // Moving between days

  /** The following calendar day, rolling over month and year ends. */
  function NextDay(d: Date): (r: Date)
    requires Valid(d)
    ensures Valid(r) && DayNumber(r) == DayNumber(d) + 1
  {
    if d.day < DaysInMonth(d.year, d.month) then Date(d.year, d.month, d.day + 1)
    else if d.month < 12 then MonthStep(d.year, d.month); Date(d.year, d.month + 1, 1)
    else YearStep(d.year); Date(d.year + 1, 1, 1)
  }

  /** The preceding calendar day. */
  function PrevDay(d: Date): (r: Date)
    requires Valid(d)
    ensures Valid(r) && DayNumber(r) == DayNumber(d) - 1
  {
    if d.day > 1 then Date(d.year, d.month, d.day - 1)
    else if d.month > 1 then MonthStep(d.year, d.month - 1); Date(d.year, d.month - 1, DaysInMonth(d.year, d.month - 1))
    else YearStep(d.year - 1); Date(d.year - 1, 12, 31)
  }

  /** The date `n` days after (or, for negative `n`, before) `d`. */
  function AddDays(d: Date, n: int): (r: Date)
    requires Valid(d)
    ensures Valid(r) && DayNumber(r) == DayNumber(d) + n
    decreases if n < 0 then -n else n
  {
    if n == 0 then d
    else if n > 0 then AddDays(NextDay(d), n - 1)
    else AddDays(PrevDay(d), n + 1)
  }

  /** The Sunday on or before `d`: the first day of `d`'s week. */
  function WeekStart(d: Date): (r: Date)
    requires Valid(d)
    ensures Valid(r) && Weekday(r) == 0
    ensures DayNumber(d) - 6 <= DayNumber(r) <= DayNumber(d)
  {
    WeekArithmetic(DayNumber(d), 0);
    AddDays(d, -Weekday(d))
  }

  /** The seven consecutive dates of `d`'s week, Sunday first. */
  function WeekDates(d: Date): (r: seq<Date>)
    requires Valid(d)
    ensures |r| == 7
    ensures forall i :: 0 <= i < 7 ==> Valid(r[i]) && DayNumber(r[i]) == DayNumber(WeekStart(d)) + i
  {
    var sunday := WeekStart(d);
    seq(7, i requires 0 <= i < 7 => AddDays(sunday, i))
  }

  /** `d` itself is the week's day number `Weekday(d)`, and the days run Sunday to Saturday. */
  lemma WeekContainsDay(d: Date)
    requires Valid(d)
    ensures WeekDates(d)[Weekday(d)] == d
    ensures forall i :: 0 <= i < 7 ==> Weekday(WeekDates(d)[i]) == i
  {
    var w := WeekDates(d);
    var n := DayNumber(d);
    assert DayNumber(WeekStart(d)) == n - n % 7;
    forall i | 0 <= i < 7 ensures Weekday(w[i]) == i {
      WeekArithmetic(n, i);
    }
    DayNumberInjective(w[Weekday(d)], d);
  }

  // ---------------------------------------------------------------------
  // ISO keys

  function Digit(n: int): char
    requires 0 <= n <= 9
  {
    (n + 48) as char
  }

  function DigitValue(c: char): int {
    c as int - 48
  }

  predicate IsDigit(c: char) {
    '0' <= c <= '9'
  }

  function Digits2(n: int): string
    requires 0 <= n <= 99
  {
    [Digit(n / 10), Digit(n % 10)]
  }

  function Digits3(n: int): string
    requires 0 <= n <= 999
  {
    [Digit(n / 100)] + Digits2(n % 100)
  }

  function Digits4(n: int): string
    requires 0 <= n <= 9999
  {
    Digits2(n / 100) + Digits2(n % 100)
  }

  /** The value of the two decimal digits at `s[i]`, `s[i + 1]`. */
  function Number2(s: string, i: nat): int
    requires i + 2 <= |s|
  {
    10 * DigitValue(s[i]) + DigitValue(s[i + 1])
  }

  /** The value of the four decimal digits starting at `s[i]`. */
  function Number4(s: string, i: nat): int
    requires i + 4 <= |s|
  {
    100 * Number2(s, i) + Number2(s, i + 2)
  }

  lemma DivMod10(a: int, b: int)
    requires 0 <= b < 10
    ensures (10 * a + b) / 10 == a && (10 * a + b) % 10 == b
  {
  }

  lemma DivMod100(a: int, b: int)
    requires 0 <= b < 100
    ensures (100 * a + b) / 100 == a && (100 * a + b) % 100 == b
  {
  }

  lemma Digits2Inverts(s: string, i: nat)
    requires i + 2 <= |s| && IsDigit(s[i]) && IsDigit(s[i + 1])
    ensures 0 <= Number2(s, i) <= 99 && Digits2(Number2(s, i)) == s[i..i + 2]
  {
    DivMod10(DigitValue(s[i]), DigitValue(s[i + 1]));
  }

  lemma Digits4Inverts(s: string, i: nat)
    requires i + 4 <= |s| && forall k :: i <= k < i + 4 ==> IsDigit(s[k])
    ensures 0 <= Number4(s, i) <= 9999 && Digits4(Number4(s, i)) == s[i..i + 4]
  {
    Digits2Inverts(s, i);
    Digits2Inverts(s, i + 2);
    DivMod100(Number2(s, i), Number2(s, i + 2));
  }

  lemma Number2OfDigits2(n: int)
    requires 0 <= n <= 99
    ensures Number2(Digits2(n), 0) == n
  {
  }

  /** `toISOString().slice(0,7)`: the `YYYY-MM` key of a month. */
  function MonthKey(d: Date): (r: string)
    requires Valid(d) && FourDigitYear(d)
    ensures |r| == 7
  {
    Digits4(d.year) + "-" + Digits2(d.month)
  }

  /** The month key spells out its year and month: they can be read back from it. */
  lemma MonthKeyReads(d: Date)
    requires Valid(d) && FourDigitYear(d)
    ensures Number4(MonthKey(d), 0) == d.year && Number2(MonthKey(d), 5) == d.month
  {
    var s := MonthKey(d);
    assert s[..4] == Digits4(d.year) && s[5..7] == Digits2(d.month);
    Number2OfDigits2(d.year / 100);
    Number2OfDigits2(d.year % 100);
    assert Number2(s, 0) == d.year / 100 && Number2(s, 2) == d.year % 100;
    Number2OfDigits2(d.month);
  }

  /** Two dates have the same month key exactly when they lie in the same calendar month. */
  lemma MonthKeyInjective(d: Date, e: Date)
    requires Valid(d) && FourDigitYear(d) && Valid(e) && FourDigitYear(e)
    ensures MonthKey(d) == MonthKey(e) <==> d.year == e.year && d.month == e.month
  {
    MonthKeyReads(d);
    MonthKeyReads(e);
  }

  /**
   * `toISOString().slice(0,10)`: the `YYYY-MM-DD` key of a date, whose first
   * seven characters are its month key.
   */
  function DateKey(d: Date): (r: string)
    requires Valid(d) && FourDigitYear(d)
    ensures |r| == 10 && r[..7] == MonthKey(d)
  {
    MonthKey(d) + "-" + Digits2(d.day)
  }

  /** Reads a `YYYY-MM-DD` key back; only keys that some date produces are accepted. */
  function ParseDateKey(s: string): (r: Option<Date>)
    ensures r.Some? ==> Valid(r.value) && FourDigitYear(r.value) && DateKey(r.value) == s
  {
    if && |s| == 10 && s[4] == '-' && s[7] == '-'
       && (forall k :: 0 <= k < 10 && k != 4 && k != 7 ==> IsDigit(s[k]))
    then
      var d := Date(Number4(s, 0), Number2(s, 5), Number2(s, 8));
      Digits4Inverts(s, 0);
      Digits2Inverts(s, 5);
      Digits2Inverts(s, 8);
      if Valid(d) then
        assert s == s[0..4] + "-" + s[5..7] + "-" + s[8..10];
        Some(d)
      else None
    else None
  }

  /** Parsing undoes `DateKey`, so distinct dates have distinct keys. */
  lemma ParseDateKeyInverts(d: Date)
    requires Valid(d) && FourDigitYear(d)
    ensures ParseDateKey(DateKey(d)) == Some(d)
  {
    var s := DateKey(d);
    var y := Digits4(d.year);
    assert s[..4] == y && s[5..7] == Digits2(d.month) && s[8..] == Digits2(d.day);
    Number2OfDigits2(d.year / 100);
    Number2OfDigits2(d.year % 100);
    assert Number2(s, 0) == d.year / 100 && Number2(s, 2) == d.year % 100;
    assert Number4(s, 0) == d.year;
    Number2OfDigits2(d.month);
    Number2OfDigits2(d.day);
    assert Number2(s, 5) == d.month && Number2(s, 8) == d.day;
  }

  lemma DateKeyInjective(d: Date, e: Date)
    requires Valid(d) && FourDigitYear(d) && Valid(e) && FourDigitYear(e)
    requires DateKey(d) == DateKey(e)
    ensures d == e
  {
    ParseDateKeyInverts(d);
    ParseDateKeyInverts(e);
  }

  // ---------------------------------------------------------------------
  // What the tracker derives from the clock

  /** Two fixed points of the weekday numbering: 2025-08-03 was a Sunday, 2000-01-01 a Saturday. */
  lemma WeekdayAnchors()
    ensures Weekday(Date(2025, 8, 3)) == 0
    ensures Weekday(Date(2000, 1, 1)) == 6
  {
  }

  /** `new Date().toISOString()`: `YYYY-MM-DDTHH:MM:SS.sssZ`, which begins with the date key. */
  function Timestamp(now: Instant): (r: string)
    requires ValidInstant(now)
    ensures |r| == 24 && r[..10] == DateKey(now.date) && r[..7] == MonthKey(now.date)
  {
    DateKey(now.date) + "T" + Digits2(now.hour) + ":" + Digits2(now.minute) + ":"
      + Digits2(now.second) + "." + Digits3(now.millis) + "Z"
  }

  /** The first hour of the day whose daily target belongs to the next day. */
  const TargetCutoffHour := 20

  /**
   * `targetDateKey()`: from 20:00 on, the daily target belongs to the next
   * calendar date. The key names the day whose number is today's, plus one
   * from the cutoff on.
   */
  function TargetDateKey(now: Instant): (r: string)
    requires ValidInstant(now)
    ensures ParseDateKey(r).Some?
    ensures DayNumber(ParseDateKey(r).value)
            == DayNumber(now.date) + (if now.hour >= TargetCutoffHour then 1 else 0)
  {
    if now.hour >= TargetCutoffHour then
      var t := NextDay(now.date);
      NearbyYears(now.date, t);
      ParseDateKeyInverts(t);
      DateKey(t)
    else
      ParseDateKeyInverts(now.date);
      DateKey(now.date)
  }

  /** Before 20:00 the target day is today; from 20:00 it is tomorrow, across month and year ends. */
  lemma TargetDayBoundary(now: Instant)
    requires ValidInstant(now)
    ensures now.hour < TargetCutoffHour ==> TargetDateKey(now) == DateKey(now.date)
    ensures now.hour >= TargetCutoffHour ==>
              var t := NextDay(now.date);
              FourDigitYear(t) && TargetDateKey(now) == DateKey(t)
  {
    var t := NextDay(now.date);
    NearbyYears(now.date, t);
    var e := ParseDateKey(TargetDateKey(now)).value;
    if now.hour >= TargetCutoffHour {
      DayNumberInjective(e, t);
    } else {
      DayNumberInjective(e, now.date);
    }
  }

  /** The keys of the seven days of the current week, Sunday first (the loop of `updateAverages`). */
  function WeekKeys(today: Date): (r: seq<string>)
    requires Valid(today) && 1 <= today.year <= 9998
    ensures |r| == 7
    ensures forall i, j :: 0 <= i < j < 7 ==> r[i] != r[j]
    ensures forall i :: 0 <= i < 7 ==>
              var d := WeekDates(today)[i]; FourDigitYear(d) && r[i] == DateKey(d)
  {
    var w := WeekDates(today);
    assert forall i :: 0 <= i < 7 ==> FourDigitYear(w[i]) by {
      forall i | 0 <= i < 7 ensures FourDigitYear(w[i]) {
        NearbyYears(today, w[i]);
      }
    }
    var r := seq(7, i requires 0 <= i < 7 => DateKey(w[i]));
    assert forall i, j :: 0 <= i < j < 7 ==> r[i] != r[j] by {
      forall i, j | 0 <= i < j < 7 ensures r[i] != r[j] {
        if r[i] == r[j] {
          DateKeyInjective(w[i], w[j]);
        }
      }
    }
    r
  }

  const MsPerDay := 86_400_000

  /** Milliseconds since the start of `now`'s day. */
  function MsOfDay(now: Instant): int {
    ((now.hour * 60 + now.minute) * 60 + now.second) * 1000 + now.millis
  }

  /** Milliseconds since the start of day 0 of the day numbering. */
  function EpochMs(day: Date, msOfDay: int): int
    requires Valid(day)
  {
    DayNumber(day) * MsPerDay + msOfDay
  }

  /**
   * `scheduleMidnightReload`: `tomorrow - now + 1000`, with `tomorrow` the
   * next local midnight. The reload fires one second after that midnight,
   * at least one second and at most a day and a second from now.
   */
  function MidnightDelay(now: Instant): (r: int)
    requires ValidInstant(now)
    ensures 1000 < r <= MsPerDay + 1000
    ensures EpochMs(now.date, MsOfDay(now)) + r == EpochMs(NextDay(now.date), 0) + 1000
  {
    EpochMs(NextDay(now.date), 0) - EpochMs(now.date, MsOfDay(now)) + 1000
  }

  /** `new Date('2025-08-01')`: the day from which monthly statistics are shown. */
  const MonthlyStatsStart := Date(2025, 8, 1)

  /** `today >= new Date('2025-08-01')`, compared by calendar date. */
  predicate OnOrAfter(d: Date, start: Date) {
    || d.year > start.year
    || (d.year == start.year && d.month > start.month)
    || (d.year == start.year && d.month == start.month && d.day >= start.day)
  }

  /** Comparing dates field by field is comparing their day numbers. */
  lemma OnOrAfterIsDayOrder(d: Date, start: Date)
    requires Valid(d) && Valid(start)
    ensures OnOrAfter(d, start) <==> DayNumber(d) >= DayNumber(start)
  {
    DayNumberInYear(d);
    DayNumberInYear(start);
    if d.year > start.year {
      DaysBeforeYearGrows(start.year + 1, d.year);
    } else if d.year < start.year {
      DaysBeforeYearGrows(d.year + 1, start.year);
    } else if d.month > start.month {
      DaysBeforeMonthGrows(d.year, start.month, d.month);
    } else if d.month < start.month {
      DaysBeforeMonthGrows(d.year, d.month, start.month);
    }
  }

  lemma KeyOfAugustSixth()
    ensures DateKey(Date(2025, 8, 6)) == "2025-08-06"
  {
    assert Digits2(20) == "20" && Digits2(25) == "25";
    assert Digits2(8) == "08" && Digits2(6) == "06";
  }

  /** The scenario of a target saved at 21:00 on 5 August 2025: it is filed under 6 August. */
  lemma TargetAfterNineInTheEvening(now: Instant)
    requires now == Instant(Date(2025, 8, 5), 21, 0, 0, 0)
    ensures TargetDateKey(now) == "2025-08-06"
  {
    TargetDayBoundary(now);
    KeyOfAugustSixth();
  }
}
