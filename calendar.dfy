/** Proleptic-Gregorian calendar on day numbers, the arithmetic that the
    JavaScript `Date` object performs for the schedule component. A day is an
    integer counting days from 1970-01-01 (day 0, a Thursday); the time of
    day is irrelevant to every computation the component makes and is
    dropped. */
module Calendar {

  /** A calendar date; `month` is 1-based (January = 1). */
  datatype Date = Date(year: int, month: int, day: int)

  predicate Leap(y: int)
  {
    y % 4 == 0 && (y % 100 != 0 || y % 400 == 0)
  }

  function YearLength(y: int): int
  {
    if Leap(y) then 366 else 365
  }

  function DaysInMonth(y: int, m: int): (n: int)
    requires 1 <= m <= 12
    ensures 28 <= n <= 31
  {
    if m == 2 then (if Leap(y) then 29 else 28)
    else if m == 4 || m == 6 || m == 9 || m == 11 then 30
    else 31
  }

  predicate ValidDate(d: Date)
  {
    1 <= d.month <= 12 && 1 <= d.day <= DaysInMonth(d.year, d.month)
  }

  const CumulativeDays: seq<int> := [0, 31, 59, 90, 120, 151, 181, 212, 243, 273, 304, 334, 365]

  /** Days of year `y` before the first of month `m` (`m == 13`: the whole year). */
  function DaysBeforeMonth(y: int, m: int): int
    requires 1 <= m <= 13
  {
    CumulativeDays[m - 1] + (if m > 2 && Leap(y) then 1 else 0)
  }

  lemma DaysBeforeMonthStep(y: int, m: int)
    requires 1 <= m <= 12
    ensures DaysBeforeMonth(y, m + 1) == DaysBeforeMonth(y, m) + DaysInMonth(y, m)
    ensures DaysBeforeMonth(y, 13) == YearLength(y)
  {
  }

  /** Later months start later in the year. */
  lemma {:induction false} DaysBeforeMonthMonotone(y: int, m: int, n: int)
    requires 1 <= m < n <= 13
    ensures DaysBeforeMonth(y, m) + DaysInMonth(y, m) <= DaysBeforeMonth(y, n)
    decreases n - m
  {
    DaysBeforeMonthStep(y, m);
    if m + 1 < n {
      DaysBeforeMonthMonotone(y, m + 1, n);
    }
  }

  /** Day number of January 1 of year `y`: the lengths of the years from
      1970 up to `y` added, or those from `y` up to 1970 subtracted. */
  function YearStart(y: int): int
    decreases if y < 1970 then 1970 - y else y - 1970
  {
    if y == 1970 then 0
    else if y > 1970 then YearStart(y - 1) + YearLength(y - 1)
    else YearStart(y + 1) - YearLength(y)
  }

  /** Day number of a calendar date. It is defined for any day of the month,
      also one past its end, which then counts on into the next month. */
  function DaysFromCivil(d: Date): int
    requires 1 <= d.month <= 12
  {
    YearStart(d.year) + DaysBeforeMonth(d.year, d.month) + d.day - 1
  }

  /** January 1 of the next year comes one year length later. */
  lemma YearStartStep(y: int)
    ensures YearStart(y + 1) == YearStart(y) + YearLength(y)
  {
  }

  lemma {:induction false} YearStartMonotone(a: int, b: int)
    requires a < b
    ensures YearStart(a) + 365 * (b - a) <= YearStart(b)
    decreases b - a
  {
    YearStartStep(a);
    if a + 1 < b {
      YearStartMonotone(a + 1, b);
    }
  }

  /** The year holding day `n`, searched upwards from year `y`. */
  function YearUp(n: int, y: int): (r: int)
    requires YearStart(y) <= n
    ensures YearStart(r) <= n < YearStart(r + 1)
    decreases n - YearStart(y)
  {
    YearStartStep(y);
    if n < YearStart(y + 1) then y else YearUp(n, y + 1)
  }

  /** The year holding day `n`, searched downwards from year `y`. */
  function YearDown(n: int, y: int): (r: int)
    requires n < YearStart(y + 1)
    ensures YearStart(r) <= n < YearStart(r + 1)
    decreases YearStart(y + 1) - n
  {
    YearStartStep(y);
    if YearStart(y) <= n then y else YearDown(n, y - 1)
  }

  function YearOf(n: int): (y: int)
    ensures YearStart(y) <= n < YearStart(y + 1)
  {
    if 0 <= n then YearUp(n, 1970) else YearDown(n, 1969)
  }

  /** Every day lies in exactly one year. */
  lemma YearUnique(n: int, y1: int, y2: int)
    requires YearStart(y1) <= n < YearStart(y1 + 1)
    requires YearStart(y2) <= n < YearStart(y2 + 1)
    ensures y1 == y2
  {
    if y1 < y2 {
      if y1 + 1 < y2 { YearStartMonotone(y1 + 1, y2); }
    } else if y2 < y1 {
      if y2 + 1 < y1 { YearStartMonotone(y2 + 1, y1); }
    }
  }

  /** The month holding day-of-year `doy`, searched upwards from month `m`. */
  function MonthFrom(y: int, doy: int, m: int): (r: int)
    requires 1 <= m <= 12
    requires DaysBeforeMonth(y, m) <= doy < YearLength(y)
    ensures 1 <= r <= 12
    ensures DaysBeforeMonth(y, r) <= doy < DaysBeforeMonth(y, r) + DaysInMonth(y, r)
    decreases 12 - m
  {
    DaysBeforeMonthStep(y, m);
    if m == 12 || doy < DaysBeforeMonth(y, m + 1) then m else MonthFrom(y, doy, m + 1)
  }

  lemma MonthUnique(y: int, doy: int, m1: int, m2: int)
    requires 1 <= m1 <= 12 && 1 <= m2 <= 12
    requires DaysBeforeMonth(y, m1) <= doy < DaysBeforeMonth(y, m1) + DaysInMonth(y, m1)
    requires DaysBeforeMonth(y, m2) <= doy < DaysBeforeMonth(y, m2) + DaysInMonth(y, m2)
    ensures m1 == m2
  {
    if m1 < m2 {
      DaysBeforeMonthMonotone(y, m1, m2);
    } else if m2 < m1 {
      DaysBeforeMonthMonotone(y, m2, m1);
    }
  }

  /** The calendar date of day `n` (what `getFullYear`, `getMonth() + 1` and
      `getDate` read off a `Date`). */
  function CivilFromDays(n: int): (d: Date)
    ensures ValidDate(d)
    ensures DaysFromCivil(d) == n
  {
    var y := YearOf(n);
    YearStartStep(y);
    var doy := n - YearStart(y);
    var m := MonthFrom(y, doy, 1);
    Date(y, m, doy - DaysBeforeMonth(y, m) + 1)
  }

  /** The conversion is a bijection between day numbers and valid dates. */
  lemma CivilFromDaysRoundTrip(d: Date)
    requires ValidDate(d)
    ensures CivilFromDays(DaysFromCivil(d)) == d
  {
    var n := DaysFromCivil(d);
    var c := CivilFromDays(n);
    YearStartStep(d.year);
    DaysBeforeMonthStep(d.year, d.month);
    DaysBeforeMonthMonotone(d.year, d.month, 13);
    YearUnique(n, c.year, d.year);
    MonthUnique(d.year, n - YearStart(d.year), c.month, d.month);
  }

  /** The date of a day number given by its date. */
  lemma CivilFromDaysOf(d: Date, n: int)
    requires ValidDate(d) && n == DaysFromCivil(d)
    ensures CivilFromDays(n) == d
  {
    CivilFromDaysRoundTrip(d);
  }

  lemma CivilFromDaysInjective(a: int, b: int)
    requires CivilFromDays(a) == CivilFromDays(b)
    ensures a == b
  {
  }

  /** The calendar successor of a valid date: the next day of the month, or
      the first of the next month, or January 1 of the next year. */
  function NextDay(d: Date): Date
    requires ValidDate(d)
  {
    if d.day < DaysInMonth(d.year, d.month) then Date(d.year, d.month, d.day + 1)
    else if d.month < 12 then Date(d.year, d.month + 1, 1)
    else Date(d.year + 1, 1, 1)
  }

  /** Month and year rollover: the day after day `n` is the calendar successor
      of its date. */
  lemma CivilFromDaysSucc(n: int)
    ensures CivilFromDays(n + 1) == NextDay(CivilFromDays(n))
  {
    var c := CivilFromDays(n);
    var e := NextDay(c);
    NextDayDays(c);
    CivilFromDaysRoundTrip(e);
    var m := DaysFromCivil(e);
    assert m == n + 1;
    assert CivilFromDays(m) == e;
  }

  /** `CivilFromDaysSucc` with the later day bound to `b` by the requires, a
      form that keeps the proofs using it small. */
  lemma CivilFromDaysNext(a: int, b: int)
    requires b == a + 1
    ensures CivilFromDays(b) == NextDay(CivilFromDays(a))
  {
    CivilFromDaysSucc(a);
  }

  lemma NextDayDays(c: Date)
    requires ValidDate(c)
    ensures ValidDate(NextDay(c)) && DaysFromCivil(NextDay(c)) == DaysFromCivil(c) + 1
  {
    DaysBeforeMonthStep(c.year, c.month);
    if c.day == DaysInMonth(c.year, c.month) && c.month == 12 {
      YearStartStep(c.year);
      assert DaysBeforeMonth(c.year, 12) + 31 == YearLength(c.year);
    }
  }

  /** Two different dates with the same month and day are at least 364 days
      apart. */
  lemma SameMonthDayFarApart(a: int, b: int)
    requires a < b
    requires CivilFromDays(a).month == CivilFromDays(b).month
    requires CivilFromDays(a).day == CivilFromDays(b).day
    ensures b - a >= 364
  {
    var ca, cb := CivilFromDays(a), CivilFromDays(b);
    if ca.year < cb.year {
      YearStartMonotone(ca.year, cb.year);
    } else {
      YearStartMonotone(cb.year, ca.year);
    }
  }

  /** `getDay()`: 0 for Sunday through 6 for Saturday; day 0 is a Thursday. */
  function Weekday(n: int): (w: int)
    ensures 0 <= w < 7
  {
    (n + 4) % 7
  }

  lemma WeekdayShift(n: int, k: int)
    ensures Weekday(n + k) == (Weekday(n) + k) % 7
  {
    var q := (n + 4) / 7;
    assert n + 4 == 7 * q + Weekday(n);
    assert n + k + 4 == 7 * q + (Weekday(n) + k);
    ModShift(Weekday(n) + k, q);
  }

  lemma ModShift(x: int, q: int)
    ensures (7 * q + x) % 7 == x % 7
  {
    var a, b := x / 7, x % 7;
    assert 7 * q + x == 7 * (q + a) + b;
  }

  /** ECMAScript MakeDay: the month is 0-based and may lie outside 0..11,
      carrying into the year, and the date may lie outside the month,
      carrying into the next or previous month. */
  function MakeDay(year: int, month0: int, date: int): int
  {
    var ym := year + month0 / 12;
    var mn := month0 % 12;
    DaysFromCivil(Date(ym, mn + 1, 1)) + date - 1
  }

  /** The years 0 to 99, which the `Date` constructor reads as 1900 to 1999. */
  predicate TwoDigitYear(year: int)
  {
    0 <= year <= 99
  }

  /** `new Date(year, month0, date)`: the ECMAScript `Date` constructor turns
      a year from 0 to 99 into 1900 + year and then applies MakeDay. */
  function NewDate(year: int, month0: int, date: int): int
  {
    MakeDay(if TwoDigitYear(year) then 1900 + year else year, month0, date)
  }

  /** `t.setDate(dt)`: the same year and month as `t`, day-of-month `dt`,
      which may lie outside the month and then carries over. */
  function SetDate(t: int, dt: int): int
  {
    var c := CivilFromDays(t);
    MakeDay(c.year, c.month - 1, dt)
  }

  /** A month argument within 0..11 needs no carrying. */
  lemma MakeDayInRange(year: int, month0: int, date: int)
    requires 0 <= month0 < 12
    ensures MakeDay(year, month0, date) == DaysFromCivil(Date(year, month0 + 1, 1)) + date - 1
  {
  }

  /** The first days of two different months are different days. */
  lemma FirstsDiffer(a: Date, b: Date)
    requires ValidDate(a) && ValidDate(b) && a.month != b.month
    ensures DaysFromCivil(Date(a.year, a.month, 1)) != DaysFromCivil(Date(b.year, b.month, 1))
  {
    CivilFromDaysRoundTrip(Date(a.year, a.month, 1));
    CivilFromDaysRoundTrip(Date(b.year, b.month, 1));
  }

  /** `t.setDate(t.getDate() + k)` moves `t` by exactly `k` days, across any
      month or year boundary. */
  lemma SetDateShift(t: int, k: int)
    ensures SetDate(t, CivilFromDays(t).day + k) == t + k
  {
    var c := CivilFromDays(t);
    assert 1 <= c.month <= 12 && DaysFromCivil(c) == t;
    MakeDayInRange(c.year, c.month - 1, c.day + k);
    assert SetDate(t, c.day + k) == MakeDay(c.year, c.month - 1, c.day + k);
  }

  /** `new Date(y, m - 1, d)` of a valid date is that date's day number,
      except in the years 0 to 99, where it is the same month and day of
      month in the year 1900 + y. */
  lemma NewDateOfValid(d: Date)
    requires ValidDate(d)
    ensures !TwoDigitYear(d.year) ==> NewDate(d.year, d.month - 1, d.day) == DaysFromCivil(d)
    ensures TwoDigitYear(d.year) ==>
      NewDate(d.year, d.month - 1, d.day) == DaysFromCivil(Date(1900 + d.year, d.month, d.day))
  {
    MakeDayInRange(d.year, d.month - 1, d.day);
    MakeDayInRange(1900 + d.year, d.month - 1, d.day);
  }

  /** `new Date(t.getFullYear(), t.getMonth(), t.getDate())` is `t` again,
      outside the years 0 to 99. */
  lemma NewDateOfCivil(t: int)
    ensures !TwoDigitYear(CivilFromDays(t).year) ==>
      NewDate(CivilFromDays(t).year, CivilFromDays(t).month - 1, CivilFromDays(t).day) == t
  {
    NewDateOfValid(CivilFromDays(t));
  }

  /** Day `t` lies in the year `CivilFromDays(t)` names. */
  lemma DayInYear(t: int)
    ensures YearStart(CivilFromDays(t).year) <= t < YearStart(CivilFromDays(t).year + 1)
  {
    assert CivilFromDays(t).year == YearOf(t);
  }

  /** `new Date(y, m, dd)` with a year from 0 to 99 and a day of month from 1
      on lands no earlier than January 1 of 1900 + y. */
  lemma NewDateTwoDigitYear(year: int, month0: int, date: int)
    requires TwoDigitYear(year) && 0 <= month0 < 12 && 1 <= date
    ensures YearStart(1900 + year) <= NewDate(year, month0, date)
  {
    MakeDayInRange(1900 + year, month0, date);
  }
}
