/** The week window of the schedule grid: the Sunday that starts the week
    `offset` weeks from `today`, the date of each of the seven columns, and
    the renderings of dates as `DD/MM` headers and `YYYY-MM-DD` keys. The
    current day is a parameter (every `new Date()` of the component). */
module Week {
  import opened Calendar
  import opened Text

  /** `yyyy-mm-dd` assembled by a template literal. */
  function DateKey(yyyy: string, mm: string, dd: string): string
  {
    yyyy + "-" + mm + "-" + dd
  }

  /** A key whose month and day fields are two characters long determines its
      three fields. */
  lemma DateKeyInjective(y1: string, m1: string, d1: string, y2: string, m2: string, d2: string)
    requires |m1| == 2 && |d1| == 2 && |m2| == 2 && |d2| == 2
    requires DateKey(y1, m1, d1) == DateKey(y2, m2, d2)
    ensures y1 == y2 && m1 == m2 && d1 == d2
  {
    var s := DateKey(y1, m1, d1);
    var n := |s|;
    assert |y1| == |y2| == n - 6;
    assert y1 == s[..n - 6] == y2;
    assert m1 == s[n - 5..n - 3] == m2;
    assert d1 == s[n - 2..] == d2;
  }

  /** `formatDateLocal` (lines 334-339): the year unpadded, month and day
      padded to two digits. */
  function FormatDateLocal(t: int): string
  {
    FormatDate(CivilFromDays(t))
  }

  function FormatDate(c: Date): string
  {
    DateKey(IntToString(c.year), Pad2(c.month), Pad2(c.day))
  }

  /** The date part of `toISOString()`, that is `toISOString().split("T")[0]`:
      a four-digit year for years 0 to 9999, otherwise a sign and six digits. */
  function IsoDate(t: int): string
  {
    IsoFormat(CivilFromDays(t))
  }

  function IsoFormat(c: Date): string
  {
    var yyyy :=
      if 0 <= c.year <= 9999 then PadStart(IntToString(c.year), 4)
      else (if c.year < 0 then "-" else "+") + PadStart(NatToString(if c.year < 0 then -c.year else c.year), 6);
    DateKey(yyyy, Pad2(c.month), Pad2(c.day))
  }

  /** A column header: `DD/MM`, both zero-padded (lines 438-440). */
  function DayMonth(t: int): string
  {
    DayMonthOf(CivilFromDays(t))
  }

  function DayMonthOf(c: Date): string
  {
    Pad2(c.day) + "/" + Pad2(c.month)
  }

  /** Month and day fields that render as two digits; every valid date has
      them, and so has any valid date's month and day stamped with another
      year. */
  predicate FieldsInRange(c: Date)
  {
    1 <= c.month <= 12 && 1 <= c.day <= 31
  }

  lemma DateFieldsShape(c: Date)
    requires FieldsInRange(c)
    ensures |Pad2(c.month)| == 2 && |Pad2(c.day)| == 2
    ensures '/' !in Pad2(c.month) && '/' !in Pad2(c.day)
  {
    Pad2Shape(c.month);
    Pad2Shape(c.day);
  }

  /** Different days have different `formatDateLocal` keys. */
  lemma FormatDateLocalInjective(a: int, b: int)
    requires FormatDateLocal(a) == FormatDateLocal(b)
    ensures a == b
  {
    var ca, cb := CivilFromDays(a), CivilFromDays(b);
    FormatDateInjective(ca, cb);
  }

  lemma FormatDateInjective(ca: Date, cb: Date)
    requires FieldsInRange(ca) && FieldsInRange(cb)
    requires FormatDate(ca) == FormatDate(cb)
    ensures ca == cb
  {
    DateFieldsShape(ca);
    DateFieldsShape(cb);
    DateKeyInjective(IntToString(ca.year), Pad2(ca.month), Pad2(ca.day),
                     IntToString(cb.year), Pad2(cb.month), Pad2(cb.day));
    IntToStringInjective(ca.year, cb.year);
    Pad2Injective(ca.month, cb.month);
    Pad2Injective(ca.day, cb.day);
  }

  /** For four-digit years the ISO date part and the local key coincide. */
  lemma IsoDateFourDigitYear(t: int)
    requires 1000 <= CivilFromDays(t).year <= 9999
    ensures IsoDate(t) == FormatDateLocal(t)
  {
    NatToStringFourDigits(CivilFromDays(t).year);
  }

  /** `const [dd, mm] = header.split("/")` recovers the two fields of a header. */
  lemma SplitDayMonth(c: Date)
    requires ValidDate(c)
    ensures Split(DayMonthOf(c), '/') == [Pad2(c.day), Pad2(c.month)]
  {
    DateFieldsShape(c);
    var dd, mm := Pad2(c.day), Pad2(c.month);
    assert DayMonthOf(c) == dd + ['/'] + mm;
    SplitPair(dd, '/', mm);
  }

  /** Headers of days less than 364 days apart differ. */
  lemma DayMonthDistinct(a: int, b: int)
    requires a < b < a + 364
    ensures DayMonth(a) != DayMonth(b)
  {
    var ca, cb := CivilFromDays(a), CivilFromDays(b);
    if DayMonthOf(ca) == DayMonthOf(cb) {
      SameDayMonth(ca, cb);
      SameMonthDayFarApart(a, b);
    }
  }

  lemma SameDayMonth(ca: Date, cb: Date)
    requires ValidDate(ca) && ValidDate(cb)
    requires DayMonthOf(ca) == DayMonthOf(cb)
    ensures ca.day == cb.day && ca.month == cb.month
  {
    SplitDayMonth(ca);
    SplitDayMonth(cb);
    assert 1 <= ca.month <= 12 && 1 <= ca.day <= 31;
    assert 1 <= cb.month <= 12 && 1 <= cb.day <= 31;
    Pad2Injective(ca.day, cb.day);
    Pad2Injective(ca.month, cb.month);
  }

  /** `today.setDate(today.getDate() - today.getDay() + weekOffset * 7)`
      (lines 255-256, 343-344, 451-452): the Sunday that starts the week. */
  function StartOfWeek(today: int, offset: int): int
  {
    SetDate(today, CivilFromDays(today).day - Weekday(today) + offset * 7)
  }

  /** `slotDate.setDate(startOfWeek.getDate() + index)` (lines 259-260,
      346-347): the date of grid column `index`. */
  function SlotDate(today: int, offset: int, index: int): int
  {
    var sunday := StartOfWeek(today, offset);
    SetDate(sunday, CivilFromDays(sunday).day + index)
  }

  /** The start of the week is `today - weekday(today) + 7 * offset`, a Sunday,
      and the week it starts holds the day `7 * offset` days from today. */
  lemma StartOfWeekIsSunday(today: int, offset: int)
    ensures StartOfWeek(today, offset) == today - Weekday(today) + 7 * offset
    ensures Weekday(StartOfWeek(today, offset)) == 0
    ensures StartOfWeek(today, offset) <= today + 7 * offset < StartOfWeek(today, offset) + 7
  {
    SetDateShift(today, 7 * offset - Weekday(today));
    WeekdayShift(today, 7 * offset - Weekday(today));
    ModShift(0, offset);
  }

  /** Column `index` holds the day `index` days after the week's Sunday. */
  lemma SlotDateIsColumn(today: int, offset: int, index: int)
    ensures SlotDate(today, offset, index) == StartOfWeek(today, offset) + index
  {
    SetDateShift(StartOfWeek(today, offset), index);
  }

  /** The next week's columns are this week's, seven days later. */
  lemma SlotDateNextWeek(today: int, offset: int, index: int)
    ensures SlotDate(today, offset + 1, index) == SlotDate(today, offset, index) + 7
  {
    SlotDateIsColumn(today, offset, index);
    SlotDateIsColumn(today, offset + 1, index);
    StartOfWeekIsSunday(today, offset);
    StartOfWeekIsSunday(today, offset + 1);
  }

  /** `getDiffDate` inside `obtainDateArr` (lines 435-441). */
  function DiffDate(date: int, month: int, year: int, diff: int): string
  {
    var base := NewDate(year, month - 1, date);
    DayMonth(SetDate(base, CivilFromDays(base).day + diff))
  }

  /** `obtainDateArr` (lines 434-445): the headers of the seven days from
      `day` days before the given date on. */
  function ObtainDateArr(day: int, date: int, month: int, year: int): seq<string>
  {
    seq(7, num requires 0 <= num < 7 => DateArrEntry(day, date, month, year, num))
  }

  /** The mapped callback `num => getDiffDate(num - day)`. */
  function DateArrEntry(day: int, date: int, month: int, year: int, num: int): string
  {
    DiffDate(date, month, year, num - day)
  }

  /** The `dateArr` of `getWeekDateRange` (lines 447-470). */
  function WeekDateRange(today: int, offset: int): seq<string>
  {
    var sunday := StartOfWeek(today, offset);
    var c := CivilFromDays(sunday);
    ObtainDateArr(Weekday(sunday), c.day, c.month, c.year)
  }

  lemma DiffDateUnfold(date: int, month: int, year: int, diff: int)
    ensures DiffDate(date, month, year, diff) ==
      DayMonth(SetDate(NewDate(year, month - 1, date), CivilFromDays(NewDate(year, month - 1, date)).day + diff))
  {
  }

  /** `getDiffDate(k)` built from the fields of day `t` renders the day `k`
      days after its base `new Date(year, month - 1, date)`, which is `t + k`
      outside the years 0 to 99. */
  lemma DiffDateShift(t: int, k: int)
    ensures DiffDate(CivilFromDays(t).day, CivilFromDays(t).month, CivilFromDays(t).year, k)
      == DayMonth(NewDate(CivilFromDays(t).year, CivilFromDays(t).month - 1, CivilFromDays(t).day) + k)
    ensures !TwoDigitYear(CivilFromDays(t).year) ==>
      DiffDate(CivilFromDays(t).day, CivilFromDays(t).month, CivilFromDays(t).year, k) == DayMonth(t + k)
  {
    DiffDateOfBase(CivilFromDays(t).day, CivilFromDays(t).month, CivilFromDays(t).year, k);
    if !TwoDigitYear(CivilFromDays(t).year) {
      DiffDateFromCivil(t, k);
    }
  }

  lemma DiffDateFromCivil(t: int, k: int)
    requires !TwoDigitYear(CivilFromDays(t).year)
    ensures DiffDate(CivilFromDays(t).day, CivilFromDays(t).month, CivilFromDays(t).year, k) == DayMonth(t + k)
  {
    NewDateOfCivil(t);
    DiffDateFromBase(CivilFromDays(t).day, CivilFromDays(t).month, CivilFromDays(t).year, k, t);
  }

  /** `getDiffDate(k)` renders the day `k` days after its base. This and the
      two lemmas below state the same fact, `DiffDateFromBase` and
      `DiffDateFrom` with the base or the result bound to a parameter by the
      requires, a form that keeps the proofs using them small. */
  lemma DiffDateOfBase(date: int, month: int, year: int, k: int)
    ensures DiffDate(date, month, year, k) == DayMonth(NewDate(year, month - 1, date) + k)
  {
    DiffDateUnfold(date, month, year, k);
    SetDateShift(NewDate(year, month - 1, date), k);
  }

  /** `DiffDateOfBase` with the base day bound to `b`. */
  lemma DiffDateFromBase(date: int, month: int, year: int, k: int, b: int)
    requires b == NewDate(year, month - 1, date)
    ensures DiffDate(date, month, year, k) == DayMonth(b + k)
  {
    DiffDateUnfold(date, month, year, k);
    SetDateShift(b, k);
  }

  /** `DiffDateOfBase` with the rendered day bound to `h`. */
  lemma DiffDateFrom(date: int, month: int, year: int, k: int, h: int)
    requires h == NewDate(year, month - 1, date) + k
    ensures DiffDate(date, month, year, k) == DayMonth(h)
  {
    DiffDateUnfold(date, month, year, k);
    SetDateShift(NewDate(year, month - 1, date), k);
  }

  /** The day whose header stands over column `i` of the displayed week. */
  function HeaderDay(today: int, offset: int, i: int): int
  {
    var sunday := CivilFromDays(StartOfWeek(today, offset));
    NewDate(sunday.year, sunday.month - 1, sunday.day) + i
  }

  /** The header day is the column's day, except when the week's Sunday lies
      in the years 0 to 99: then it is the day with the same month and day
      of month in 1900 + y, moved by `i`. */
  lemma HeaderDayIsColumn(today: int, offset: int, i: int)
    ensures !TwoDigitYear(CivilFromDays(StartOfWeek(today, offset)).year) ==>
      HeaderDay(today, offset, i) == SlotDate(today, offset, i)
    ensures TwoDigitYear(CivilFromDays(StartOfWeek(today, offset)).year) ==>
      HeaderDay(today, offset, i) == DaysFromCivil(Date(1900 + CivilFromDays(StartOfWeek(today, offset)).year,
                                                       CivilFromDays(StartOfWeek(today, offset)).month,
                                                       CivilFromDays(StartOfWeek(today, offset)).day)) + i
  {
    NewDateOfValid(CivilFromDays(StartOfWeek(today, offset)));
    NewDateOfCivil(StartOfWeek(today, offset));
    SlotDateIsColumn(today, offset, i);
  }

  lemma ObtainDateArrAt(day: int, date: int, month: int, year: int, i: int)
    requires 0 <= i < 7
    ensures |ObtainDateArr(day, date, month, year)| == 7
    ensures ObtainDateArr(day, date, month, year)[i] == DateArrEntry(day, date, month, year, i)
  {
  }

  /** The week starts on a Sunday, so `sunday.getDay()` passes 0. */
  lemma WeekDateRangeUnfold(today: int, offset: int)
    ensures WeekDateRange(today, offset) ==
      ObtainDateArr(0, CivilFromDays(StartOfWeek(today, offset)).day,
                    CivilFromDays(StartOfWeek(today, offset)).month, CivilFromDays(StartOfWeek(today, offset)).year)
  {
    StartOfWeekIsSunday(today, offset);
  }

  /** Entry `num` of the array built from the fields of day `t` with `day`
      0 renders the day `num` days after its base. */
  lemma DateArrEntryShift(t: int, num: int, h: int)
    requires h == NewDate(CivilFromDays(t).year, CivilFromDays(t).month - 1, CivilFromDays(t).day) + num
    ensures DateArrEntry(0, CivilFromDays(t).day, CivilFromDays(t).month, CivilFromDays(t).year, num) == DayMonth(h)
  {
    DiffDateFrom(CivilFromDays(t).day, CivilFromDays(t).month, CivilFromDays(t).year, num - 0, h);
  }

  /** Header `i` of the week is the header of its header day. */
  lemma WeekDateRangeAt(today: int, offset: int, i: int)
    requires 0 <= i < 7
    ensures |WeekDateRange(today, offset)| == 7
    ensures WeekDateRange(today, offset)[i] == DayMonth(HeaderDay(today, offset, i))
  {
    HeaderAt(today, offset, i, HeaderDay(today, offset, i));
  }

  /** `WeekDateRangeAt` with the header day bound to `h` by the requires, a
      form that keeps the proof small. */
  lemma HeaderAt(today: int, offset: int, i: int, h: int)
    requires 0 <= i < 7
    requires h == HeaderDay(today, offset, i)
    ensures |WeekDateRange(today, offset)| == 7
    ensures WeekDateRange(today, offset)[i] == DayMonth(h)
  {
    var sunday := StartOfWeek(today, offset);
    WeekDateRangeUnfold(today, offset);
    ObtainDateArrAt(0, CivilFromDays(sunday).day, CivilFromDays(sunday).month, CivilFromDays(sunday).year, i);
    DateArrEntryShift(sunday, i, h);
  }

  /** `dateArr` has seven entries, the headers of seven successive days from
      the week's base on; outside the years 0 to 99 these are the headers of
      the seven columns, the first column being the Sunday that starts the
      week. */
  lemma WeekDateRangeSpec(today: int, offset: int)
    ensures |WeekDateRange(today, offset)| == 7
    ensures forall i :: 0 <= i < 7 ==>
      WeekDateRange(today, offset)[i] == DayMonth(HeaderDay(today, offset, i))
    ensures !TwoDigitYear(CivilFromDays(StartOfWeek(today, offset)).year) ==> forall i :: 0 <= i < 7 ==>
      WeekDateRange(today, offset)[i] == DayMonth(SlotDate(today, offset, i))
  {
    WeekDateRangeAt(today, offset, 0);
    forall i | 0 <= i < 7
      ensures WeekDateRange(today, offset)[i] == DayMonth(HeaderDay(today, offset, i))
      ensures !TwoDigitYear(CivilFromDays(StartOfWeek(today, offset)).year) ==>
        WeekDateRange(today, offset)[i] == DayMonth(SlotDate(today, offset, i))
    {
      WeekDateRangeAt(today, offset, i);
      HeaderDayIsColumn(today, offset, i);
    }
  }

  /** Moving to the next week shifts every header by seven days, when the
      next week's Sunday lies outside the years 0 to 99. */
  lemma WeekDateRangeNextWeek(today: int, offset: int)
    ensures !TwoDigitYear(CivilFromDays(StartOfWeek(today, offset + 1)).year) ==> forall i :: 0 <= i < 7 ==>
      WeekDateRange(today, offset + 1)[i] == DayMonth(SlotDate(today, offset, i) + 7)
  {
    WeekDateRangeSpec(today, offset + 1);
    forall i | 0 <= i < 7 ensures SlotDate(today, offset + 1, i) == SlotDate(today, offset, i) + 7 {
      SlotDateNextWeek(today, offset, i);
    }
  }

  /** Column `i + 1` holds the calendar successor of column `i`'s date. */
  lemma SlotDateSucc(today: int, offset: int, i: int)
    ensures CivilFromDays(SlotDate(today, offset, i + 1)) == NextDay(CivilFromDays(SlotDate(today, offset, i)))
  {
    SlotDateIsColumn(today, offset, i);
    SlotDateIsColumn(today, offset, i + 1);
    CivilFromDaysNext(SlotDate(today, offset, i), SlotDate(today, offset, i + 1));
  }

  /** Columns of one week have different headers. */
  lemma SlotHeadersDistinct(today: int, offset: int, i: int, j: int)
    requires 0 <= i < j < 7
    ensures DayMonth(HeaderDay(today, offset, i)) != DayMonth(HeaderDay(today, offset, j))
  {
    DayMonthDistinct(HeaderDay(today, offset, i), HeaderDay(today, offset, j));
  }

  /** The seven headers are pairwise different, and each column's date is the
      calendar successor of the previous one's, across month and year ends. */
  lemma WeekDatesConsecutive(today: int, offset: int)
    ensures forall i, j :: 0 <= i < j < 7 ==> WeekDateRange(today, offset)[i] != WeekDateRange(today, offset)[j]
    ensures forall i :: 0 <= i < 6 ==>
      CivilFromDays(SlotDate(today, offset, i + 1)) == NextDay(CivilFromDays(SlotDate(today, offset, i)))
  {
    WeekDateRangeSpec(today, offset);
    forall i, j | 0 <= i < j < 7
      ensures WeekDateRange(today, offset)[i] != WeekDateRange(today, offset)[j]
    {
      SlotHeadersDistinct(today, offset, i, j);
    }
    forall i | 0 <= i < 6
      ensures CivilFromDays(SlotDate(today, offset, i + 1)) == NextDay(CivilFromDays(SlotDate(today, offset, i)))
    {
      SlotDateSucc(today, offset, i);
    }
  }
}
