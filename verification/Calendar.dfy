/** The proleptic Gregorian calendar in UTC, as the bundle planner's schedules see it.
    A day is the number of days since 1970-01-01; a month is counted from January of year 0
    (so month index 12*y + m - 1 is month m of year y); an instant is a count of seconds. */
module Calendar {
  const SECONDS_PER_DAY := 86400

  predicate Leap(y: int) {
    y % 4 == 0 && (y % 100 != 0 || y % 400 == 0)
  }

  /** January 1970, the month that holds day 0. */
  const EPOCH_MONTH := 23640

  /** Days in month m of a year, 0 = January. */
  function DaysIn(m: int, leap: bool): (n: int)
    ensures 28 <= n <= 31
  {
    if m == 1 then (if leap then 29 else 28)
    else if m == 3 || m == 5 || m == 8 || m == 10 then 30
    else 31
  }

  function MonthLength(k: int): (n: int)
    ensures 28 <= n <= 31
  {
    DaysIn(k % 12, Leap(k / 12))
  }

  /** The day number of the first day of month k: the months between it and January 1970, laid end to end. */
  function MonthStart(k: int): int
    decreases if k < EPOCH_MONTH then EPOCH_MONTH - k else k - EPOCH_MONTH
  {
    if k == EPOCH_MONTH then 0
    else if k > EPOCH_MONTH then MonthStart(k - 1) + MonthLength(k - 1)
    else MonthStart(k + 1) - MonthLength(k)
  }

  lemma NextMonthStart(k: int)
    ensures MonthStart(k + 1) == MonthStart(k) + MonthLength(k)
  {
    if k < EPOCH_MONTH {
      assert MonthStart(k) == MonthStart(k + 1) - MonthLength(k);
    }
  }

  lemma {:induction false} MonthStartMonotone(j: int, k: int)
    requires j <= k
    ensures MonthStart(j) + 28 * (k - j) <= MonthStart(k) <= MonthStart(j) + 31 * (k - j)
    decreases k - j
  {
    if j < k {
      MonthStartMonotone(j, k - 1);
      NextMonthStart(k - 1);
    }
  }

  /** The month that holds a day, found by walking from month `guess`. */
  function MonthFrom(day: int, guess: int): (k: int)
    ensures MonthStart(k) <= day < MonthStart(k + 1)
    decreases if day < MonthStart(guess) then MonthStart(guess) - day
              else if MonthStart(guess + 1) <= day then day - MonthStart(guess)
              else 0
  {
    hide MonthStart, MonthLength;
    NextMonthStart(guess);
    NextMonthStart(guess - 1);
    NextMonthStart(guess + 1);
    if day < MonthStart(guess) then MonthFrom(day, guess - 1)
    else if MonthStart(guess + 1) <= day then MonthFrom(day, guess + 1)
    else guess
  }

  function MonthIndex(day: int): (k: int)
    ensures MonthStart(k) <= day < MonthStart(k) + MonthLength(k)
  {
    var k := MonthFrom(day, EPOCH_MONTH);
    NextMonthStart(k);
    k
  }

  lemma MonthIndexUnique(day: int, k: int)
    requires MonthStart(k) <= day < MonthStart(k + 1)
    ensures MonthIndex(day) == k
  {
    var j := MonthIndex(day);
    NextMonthStart(j);
    if j < k {
      MonthStartMonotone(j + 1, k);
    } else if k < j {
      MonthStartMonotone(k + 1, j);
    }
  }

  function MonthOf(day: int): (m: int)
    ensures 1 <= m <= 12
  {
    MonthIndex(day) % 12 + 1
  }

  function YearOf(day: int): int {
    MonthIndex(day) / 12
  }

  function DayOfMonth(day: int): (d: int)
    ensures 1 <= d <= 31
  {
    day - MonthStart(MonthIndex(day)) + 1
  }

  /** 0 = Sunday; 1970-01-01 was a Thursday. */
  function Weekday(day: int): (w: int)
    ensures 0 <= w <= 6
  {
    (day + 4) % 7
  }

  /** The day a calendar date names; a day of the month past the month's end runs on into the next month. */
  function DateDay(year: int, month: int, dom: int): int
  {
    MonthStart(12 * year + month - 1) + dom - 1
  }

  /** Reading a day as a date and naming that date again gives the day, and a real date reads back as itself. */
  lemma DateRoundTrip(day: int, y: int, m: int, d: int)
    requires 1 <= m <= 12 && 1 <= d <= MonthLength(12 * y + m - 1)
    ensures DateDay(YearOf(day), MonthOf(day), DayOfMonth(day)) == day
    ensures var n := DateDay(y, m, d); YearOf(n) == y && MonthOf(n) == m && DayOfMonth(n) == d
  {
    assert 12 * YearOf(day) + MonthOf(day) - 1 == MonthIndex(day);
    var k := 12 * y + m - 1;
    NextMonthStart(k);
    MonthIndexUnique(DateDay(y, m, d), k);
    assert k / 12 == y && k % 12 == m - 1;
  }

  // ---- instants ----

  function DayOf(t: int): int {
    t / SECONDS_PER_DAY
  }

  function SecondOfDay(t: int): (s: int)
    ensures 0 <= s < SECONDS_PER_DAY
  {
    t % SECONDS_PER_DAY
  }

  function Hour(t: int): (h: int)
    ensures 0 <= h < 24
  {
    SecondOfDay(t) / 3600
  }

  function Minute(t: int): (m: int)
    ensures 0 <= m < 60
  {
    SecondOfDay(t) / 60 % 60
  }

  function Second(t: int): (s: int)
    ensures 0 <= s < 60
  {
    SecondOfDay(t) % 60
  }

  function At(day: int, h: int, m: int, s: int): int {
    day * SECONDS_PER_DAY + h * 3600 + m * 60 + s
  }

  lemma ClockParts(h: int, m: int, s: int)
    requires 0 <= h < 24 && 0 <= m < 60 && 0 <= s < 60
    ensures var n := h * 3600 + m * 60 + s; n / 3600 == h && n / 60 % 60 == m && n % 60 == s
  {
    assert (h * 3600 + m * 60 + s) / 60 == h * 60 + m;
  }

  /** An instant is the clock reading it was built from. */
  lemma AtFields(day: int, h: int, m: int, s: int)
    requires 0 <= h < 24 && 0 <= m < 60 && 0 <= s < 60
    ensures var t := At(day, h, m, s);
            DayOf(t) == day && Hour(t) == h && Minute(t) == m && Second(t) == s
  {
    var t := At(day, h, m, s);
    assert DayOf(t) == day && SecondOfDay(t) == h * 3600 + m * 60 + s;
    ClockParts(h, m, s);
  }

  lemma FieldsAt(t: int)
    ensures t == At(DayOf(t), Hour(t), Minute(t), Second(t))
  {
    var s := SecondOfDay(t);
    assert s / 60 == s / 3600 * 60 + s / 60 % 60;
  }

  /** Instants are ordered as their clock readings are: by day, then hour, minute and second. */
  lemma ClockOrder(t: int, u: int)
    requires t <= u
    ensures DayOf(t) <= DayOf(u)
    ensures DayOf(t) == DayOf(u) ==> Hour(t) <= Hour(u)
    ensures DayOf(t) == DayOf(u) && Hour(t) == Hour(u) ==> Minute(t) <= Minute(u)
    ensures DayOf(t) == DayOf(u) && Hour(t) == Hour(u) && Minute(t) == Minute(u) && t < u ==> Second(t) < Second(u)
  {
    FieldsAt(t);
    FieldsAt(u);
  }

  lemma WholeMinutes(t: int)
    ensures Second(t) == t % 60
    ensures DayOf(t) == t / 60 / 1440 && Hour(t) == t / 60 % 1440 / 60 && Minute(t) == t / 60 % 1440 % 60
  {
    FieldsAt(t);
    var n := DayOf(t) * 1440 + Hour(t) * 60 + Minute(t);
    assert t == n * 60 + Second(t);
    assert t / 60 == n;
    assert n / 1440 == DayOf(t);
  }

  /** Calendar addition: the month moves first, then days; a day of the month past the end of the
      month reached runs on into the next one (February 29th plus a year is March 1st). */
  function AddDate(t: int, years: int, months: int, days: int): int {
    var k := MonthIndex(DayOf(t));
    At(MonthStart(k + 12 * years + months) + DayOfMonth(DayOf(t)) - 1 + days, 0, 0, SecondOfDay(t))
  }

  lemma NextDay(day: int, h: int, m: int, s: int)
    requires 0 <= h < 24 && 0 <= m < 60 && 0 <= s < 60
    ensures AddDate(At(day, h, m, s), 0, 0, 1) == At(day + 1, h, m, s)
  {
    AtFields(day, h, m, s);
  }

  lemma NextMonth(k: int, h: int, m: int, s: int)
    requires 0 <= h < 24 && 0 <= m < 60 && 0 <= s < 60
    ensures MonthIndex(MonthStart(k)) == k
    ensures AddDate(At(MonthStart(k), h, m, s), 0, 1, 0) == At(MonthStart(k + 1), h, m, s)
  {
    AtFields(MonthStart(k), h, m, s);
    NextMonthStart(k);
    MonthIndexUnique(MonthStart(k), k);
  }

  /** Length of the n-th month of a year and the next. */
  function LengthOf(n: nat, leap: bool, nextLeap: bool): int
    requires n < 24
  {
    if n < 12 then DaysIn(n, leap) else DaysIn(n - 12, nextLeap)
  }

  /** Days of a year and the next that precede the n-th of their months. */
  function DaysBefore(n: nat, leap: bool, nextLeap: bool): int
    requires n < 24
  {
    var inYear := [0, 31, 59, 90, 120, 151, 181, 212, 243, 273, 304, 334];
    if n < 12 then inYear[n] + (if leap && n > 1 then 1 else 0)
    else (if leap then 366 else 365) + inYear[n - 12] + (if nextLeap && n > 13 then 1 else 0)
  }

  lemma NextDaysBefore(n: nat, leap: bool, nextLeap: bool)
    requires n < 23
    ensures DaysBefore(n + 1, leap, nextLeap) == DaysBefore(n, leap, nextLeap) + LengthOf(n, leap, nextLeap)
  {
  }

  lemma LengthAfter(k: int, i: nat)
    requires i < 12
    ensures MonthStart(k + i + 1) == MonthStart(k + i) + LengthOf(k % 12 + i, Leap(k / 12), Leap(k / 12 + 1))
  {
    NextMonthStart(k + i);
    if k % 12 + i < 12 {
      assert (k + i) / 12 == k / 12 && (k + i) % 12 == k % 12 + i;
    } else {
      assert (k + i) / 12 == k / 12 + 1 && (k + i) % 12 == k % 12 + i - 12;
    }
  }

  lemma {:induction false} DaysBetween(k: int, i: nat, r: nat, leap: bool, nextLeap: bool)
    requires i <= 12 && r == k % 12 && leap == Leap(k / 12) && nextLeap == Leap(k / 12 + 1)
    ensures MonthStart(k + i) - MonthStart(k) == DaysBefore(r + i, leap, nextLeap) - DaysBefore(r, leap, nextLeap)
  {
    if i > 0 {
      DaysBetween(k, i - 1, r, leap, nextLeap);
      LengthAfter(k, i - 1);
      NextDaysBefore(r + i - 1, leap, nextLeap);
    }
  }

  /** Twelve months hold one February, so they span 365 or 366 days. */
  lemma YearSpan(k: int)
    ensures 365 <= MonthStart(k + 12) - MonthStart(k) <= 366
  {
    DaysBetween(k, 12, k % 12, Leap(k / 12), Leap(k / 12 + 1));
  }

  lemma FiveYears(t: int)
    ensures 1825 * SECONDS_PER_DAY <= AddDate(t, 5, 0, 0) - t <= 1830 * SECONDS_PER_DAY
  {
    var k := MonthIndex(DayOf(t));
    YearSpan(k);
    YearSpan(k + 12);
    YearSpan(k + 24);
    YearSpan(k + 36);
    YearSpan(k + 48);
  }

  // ---- the calendar in closed form ----

  /** Leap days in the years before y, counted from year 1. */
  function LeapsBefore(y: int): int {
    (y - 1) / 4 - (y - 1) / 100 + (y - 1) / 400
  }

  lemma Fourths(y: int)
    ensures y / 4 == (y - 1) / 4 + if y % 4 == 0 then 1 else 0
  {
  }

  lemma Hundredths(y: int)
    ensures y / 100 == (y - 1) / 100 + if y % 100 == 0 then 1 else 0
    ensures y % 100 == 0 ==> y % 4 == 0
  {
    if y % 100 == 0 { assert y == 4 * (25 * (y / 100)); }
  }

  lemma FourHundredths(y: int)
    ensures y / 400 == (y - 1) / 400 + if y % 400 == 0 then 1 else 0
    ensures y % 400 == 0 ==> y % 100 == 0
  {
    if y % 400 == 0 { assert y == 100 * (4 * (y / 400)); }
  }

  lemma LeapsNext(y: int)
    ensures LeapsBefore(y + 1) == LeapsBefore(y) + if Leap(y) then 1 else 0
  {
    Fourths(y);
    Hundredths(y);
    FourHundredths(y);
  }

  lemma YearLength(y: int)
    ensures MonthStart(12 * (y + 1)) == MonthStart(12 * y) + if Leap(y) then 366 else 365
  {
    hide MonthStart;
    DaysBetween(12 * y, 12, 0, Leap(y), Leap(y + 1));
  }

  lemma {:induction false} YearStart(y: int)
    ensures MonthStart(12 * y) == 365 * (y - 1970) + LeapsBefore(y) - LeapsBefore(1970)
    decreases if y < 1970 then 1970 - y else y - 1970
  {
    hide MonthStart, LeapsBefore;
    if y == 1970 {
      EpochMonth();
    } else if y > 1970 {
      YearStart(y - 1);
      YearLength(y - 1);
      LeapsNext(y - 1);
    } else {
      YearStart(y + 1);
      YearLength(y);
      LeapsNext(y);
    }
  }

  lemma EpochMonth()
    ensures MonthStart(12 * 1970) == 0
  {
  }

  lemma BeforeMonth(m: int, leap: bool, nextLeap: bool)
    requires 1 <= m <= 12
    ensures DaysBefore(m - 1, leap, nextLeap) == (367 * m - 362) / 12 - (if m <= 2 then 0 else if leap then 1 else 2)
  {
  }

  lemma DateDayByLeaps(y: int, m: int, d: int)
    requires 1 <= m <= 12
    ensures DateDay(y, m, d) == 365 * (y - 1970) + LeapsBefore(y) - LeapsBefore(1970)
                                + (367 * m - 362) / 12 - (if m <= 2 then 0 else if Leap(y) then 1 else 2) + d - 1
  {
    hide MonthStart, DaysBefore, Leap, LeapsBefore;
    YearStart(y);
    DaysBetween(12 * y, m - 1, 0, Leap(y), Leap(y + 1));
    BeforeMonth(m, Leap(y), Leap(y + 1));
    BeforeMonth(1, Leap(y), Leap(y + 1));
  }

  /** The day of a date, counted without months: leap years by the rules for 4, 100 and 400, and the days before a month by
      the slope of 367 days in 12 months, less the one or two that February falls short. */
  lemma DateDayExactly(y: int, m: int, d: int)
    requires 1 <= m <= 12
    ensures var short := if m <= 2 then 0 else if y % 4 == 0 && (y % 100 != 0 || y % 400 == 0) then 1 else 2;
            DateDay(y, m, d) == 365 * (y - 1970) + ((y - 1) / 4 - (y - 1) / 100 + (y - 1) / 400) - 477
                                + (367 * m - 362) / 12 - short + d - 1
  {
    hide MonthStart, DateDay;
    DateDayByLeaps(y, m, d);
  }

  /** The week goes on through all months and years; its days repeat every seven days from a Sunday in 1970. */
  lemma WeekdayExactly(day: int, n: int)
    ensures Weekday(DateDay(1970, 1, 4)) == 0
    ensures Weekday(day + 1) == (Weekday(day) + 1) % 7 && Weekday(day + 7 * n) == Weekday(day)
  {
    DateDayExactly(1970, 1, 4);
    assert (day + 4 + 7 * n) % 7 == (day + 4) % 7;
  }
}
