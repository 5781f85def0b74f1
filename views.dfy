/** The views the schedule derives from the two claim lists: the names shown
    in one grid cell, a volunteer's hours and shifts for the week, the
    volunteer cards of the week, whether a confirmed claim of the current
    volunteer is found for a cell, and the opening and closing of a card. */
module Views {
  import opened Seqs
  import opened Text
  import opened Calendar
  import opened Week
  import opened Slots

  // ---------------------------------------------------------------------
  // getVolunteersForSlot (lines 341-360)

  /** The filter of `getVolunteersForSlot`: same timeslot, same local date key. */
  predicate InCell(c: Claim, slotKey: string, time: string)
  {
    c.timeslot == time && FormatDateLocal(c.date) == slotKey
  }

  /** The names of the claims in `all` on the cell of day `slotDate` and
      timeslot `time`, each once, in order of first occurrence. */
  function CellNames(all: seq<Claim>, slotDate: int, time: string): seq<string>
  {
    var slotKey := FormatDateLocal(slotDate);
    Dedup(Map(Filter(all, c => InCell(c, slotKey, time)), (c: Claim) => c.vName))
  }

  /** `getVolunteersForSlot(index, timeslot)`: confirmed claims first, then
      the staged ones. */
  function VolunteersForSlot(today: int, offset: int, confirmed: seq<Claim>, pending: seq<Claim>, index: int, time: string): seq<string>
  {
    CellNames(confirmed + pending, SlotDate(today, offset, index), time)
  }

  /** Some claim of `s` puts volunteer `name` on the cell. */
  predicate OnCell(s: seq<Claim>, slotDate: int, time: string, name: string)
  {
    exists c :: c in s && c.timeslot == time && c.date == slotDate && c.vName == name
  }

  lemma InCellIff(c: Claim, slotDate: int, time: string)
    ensures InCell(c, FormatDateLocal(slotDate), time) <==> c.timeslot == time && c.date == slotDate
  {
    if InCell(c, FormatDateLocal(slotDate), time) {
      FormatDateLocalInjective(c.date, slotDate);
    }
  }

  /** The names of the claims the cell filter keeps, before de-duplication. */
  function CellNameList(all: seq<Claim>, slotDate: int, time: string): seq<string>
  {
    var slotKey := FormatDateLocal(slotDate);
    Map(Filter(all, c => InCell(c, slotKey, time)), (c: Claim) => c.vName)
  }

  /** Every name the filter keeps is on the cell. */
  lemma CellNameFrom(all: seq<Claim>, slotDate: int, time: string, n: string)
    requires n in CellNameList(all, slotDate, time)
    ensures OnCell(all, slotDate, time, n)
  {
    var slotKey := FormatDateLocal(slotDate);
    var f := Filter(all, c => InCell(c, slotKey, time));
    var m := CellNameList(all, slotDate, time);
    var i :| 0 <= i < |m| && m[i] == n;
    assert f[i] in f;
    InCellIff(f[i], slotDate, time);
  }

  /** Every name on the cell is kept by the filter. */
  lemma CellNameOf(all: seq<Claim>, slotDate: int, time: string, c: Claim)
    requires c in all && c.timeslot == time && c.date == slotDate
    ensures c.vName in CellNameList(all, slotDate, time)
  {
    var slotKey := FormatDateLocal(slotDate);
    var f := Filter(all, c => InCell(c, slotKey, time));
    var m := CellNameList(all, slotDate, time);
    InCellIff(c, slotDate, time);
    assert c in f;
    var i :| 0 <= i < |f| && f[i] == c;
    assert m[i] == c.vName;
  }

  /** The names of a cell are distinct, and a name is listed exactly when a
      claim with that name is on that day and timeslot. */
  lemma CellNamesSpec(all: seq<Claim>, slotDate: int, time: string)
    ensures NoDup(CellNames(all, slotDate, time))
    ensures forall n :: n in CellNames(all, slotDate, time) <==> OnCell(all, slotDate, time, n)
  {
    var m := CellNameList(all, slotDate, time);
    assert CellNames(all, slotDate, time) == Dedup(m);
    forall n ensures n in m <==> OnCell(all, slotDate, time, n) {
      if n in m {
        CellNameFrom(all, slotDate, time, n);
      }
      if OnCell(all, slotDate, time, n) {
        var c :| c in all && c.timeslot == time && c.date == slotDate && c.vName == n;
        CellNameOf(all, slotDate, time, c);
      }
    }
  }

  /** The names of confirmed claims are listed before the names that only
      staged claims carry. */
  lemma CellNamesConfirmedFirst(confirmed: seq<Claim>, pending: seq<Claim>, slotDate: int, time: string)
    ensures forall i, j ::
      (0 <= i < j < |CellNames(confirmed + pending, slotDate, time)|
       && OnCell(confirmed, slotDate, time, CellNames(confirmed + pending, slotDate, time)[j])) ==>
      OnCell(confirmed, slotDate, time, CellNames(confirmed + pending, slotDate, time)[i])
  {
    var slotKey := FormatDateLocal(slotDate);
    var p := (c: Claim) => InCell(c, slotKey, time);
    var v := (c: Claim) => c.vName;
    var a := Map(Filter(confirmed, p), v);
    var b := Map(Filter(pending, p), v);
    FilterAppend(confirmed, pending, p);
    MapAppend(Filter(confirmed, p), Filter(pending, p), v);
    assert CellNames(confirmed + pending, slotDate, time) == Dedup(a + b);
    DedupPrefixFirst(a, b);
    CellNamesSpec(confirmed, slotDate, time);
    assert CellNames(confirmed, slotDate, time) == Dedup(a);
    forall n ensures n in a <==> OnCell(confirmed, slotDate, time, n) {
      assert n in Dedup(a) <==> n in a;
    }
  }

  /** `getVolunteersForSlot(index, t)` lists each name once, exactly the
      names of the claims, confirmed or staged, on column `index`'s day and
      timeslot `t`, the confirmed ones first. */
  lemma VolunteersForSlotSpec(today: int, offset: int, confirmed: seq<Claim>, pending: seq<Claim>, index: int, time: string)
    ensures NoDup(VolunteersForSlot(today, offset, confirmed, pending, index, time))
    ensures forall n :: n in VolunteersForSlot(today, offset, confirmed, pending, index, time) <==>
      OnCell(confirmed, SlotDate(today, offset, index), time, n) || OnCell(pending, SlotDate(today, offset, index), time, n)
    ensures forall i, j ::
      (0 <= i < j < |VolunteersForSlot(today, offset, confirmed, pending, index, time)|
       && OnCell(confirmed, SlotDate(today, offset, index), time, VolunteersForSlot(today, offset, confirmed, pending, index, time)[j])) ==>
      OnCell(confirmed, SlotDate(today, offset, index), time, VolunteersForSlot(today, offset, confirmed, pending, index, time)[i])
  {
    var d := SlotDate(today, offset, index);
    CellNamesSpec(confirmed + pending, d, time);
    CellNamesConfirmedFirst(confirmed, pending, d, time);
    forall n ensures OnCell(confirmed + pending, d, time, n) <==> OnCell(confirmed, d, time, n) || OnCell(pending, d, time, n) {
      if OnCell(confirmed + pending, d, time, n) {
        var c :| c in confirmed + pending && c.timeslot == time && c.date == d && c.vName == n;
        assert c in confirmed || c in pending;
      }
      if OnCell(confirmed, d, time, n) {
        var c :| c in confirmed && c.timeslot == time && c.date == d && c.vName == n;
        assert c in confirmed + pending;
      }
      if OnCell(pending, d, time, n) {
        var c :| c in pending && c.timeslot == time && c.date == d && c.vName == n;
        assert c in confirmed + pending;
      }
    }
  }

  /** The sync leaves every cell showing the same names. */
  lemma RegisterKeepsCells(today: int, offset: int, s: Lists, index: int, time: string)
    ensures VolunteersForSlot(today, offset, Register(s).confirmed, Register(s).pending, index, time)
         == VolunteersForSlot(today, offset, s.confirmed, s.pending, index, time)
  {
    assert Register(s).confirmed + Register(s).pending == s.confirmed + s.pending;
  }

  // ---------------------------------------------------------------------
  // The week's date keys stamped with the current year (lines 117-124,
  // 365-372)

  /** `const [dd, mm] = d.split("/")` and `${year}-${mm}-${dd}`. */
  function HeaderKey(year: int, header: string): string
  {
    var parts := Split(header, '/');
    DateKey(IntToString(year), Nth(parts, 1), Nth(parts, 0))
  }

  /** The set of date keys of the week: each header of `dateArr` turned
      into a key with the year of `today`. */
  function WeekKeys(today: int, offset: int): seq<string>
  {
    var year := CivilFromDays(today).year;
    Map(WeekDateRange(today, offset), h => HeaderKey(year, h))
  }

  /** The month and day of header `i`, with the year of `today`. */
  function StampedDate(today: int, offset: int, i: int): Date
  {
    var c := CivilFromDays(HeaderDay(today, offset, i));
    Date(CivilFromDays(today).year, c.month, c.day)
  }

  /** Day `t` has the month and day of a header and the year of `today`. */
  predicate InStampedWeek(today: int, offset: int, t: int)
  {
    exists i :: 0 <= i < 7 && CivilFromDays(t) == StampedDate(today, offset, i)
  }

  lemma HeaderKeyOf(year: int, c: Date)
    requires ValidDate(c)
    ensures HeaderKey(year, DayMonthOf(c)) == FormatDate(Date(year, c.month, c.day))
  {
    SplitDayMonth(c);
  }

  /** Key `i` is the date of header `i` rendered with the year of `today`. */
  lemma WeekKeysAt(today: int, offset: int, i: int)
    requires 0 <= i < 7
    ensures |WeekKeys(today, offset)| == 7
    ensures WeekKeys(today, offset)[i] == FormatDate(StampedDate(today, offset, i))
  {
    WeekDateRangeAt(today, offset, i);
    HeaderKeyOf(CivilFromDays(today).year, CivilFromDays(HeaderDay(today, offset, i)));
  }

  /** Key `i` is the local key of day `t` exactly when `t` has column
      `i`'s month and day and the year of `today`. */
  lemma WeekKeyIff(today: int, offset: int, t: int, i: int)
    requires 0 <= i < 7
    ensures |WeekKeys(today, offset)| == 7
    ensures WeekKeys(today, offset)[i] == FormatDateLocal(t) <==> CivilFromDays(t) == StampedDate(today, offset, i)
  {
    WeekKeysAt(today, offset, i);
    if FormatDate(StampedDate(today, offset, i)) == FormatDate(CivilFromDays(t)) {
      FormatDateInjective(CivilFromDays(t), StampedDate(today, offset, i));
    }
  }

  lemma KeysMember(keys: seq<string>, today: int, offset: int, t: int)
    requires |keys| == 7
    requires forall i :: 0 <= i < 7 ==> (keys[i] == FormatDateLocal(t) <==> CivilFromDays(t) == StampedDate(today, offset, i))
    ensures FormatDateLocal(t) in keys <==> InStampedWeek(today, offset, t)
  {
    if FormatDateLocal(t) in keys {
      var i :| 0 <= i < 7 && keys[i] == FormatDateLocal(t);
      assert CivilFromDays(t) == StampedDate(today, offset, i);
    }
    if InStampedWeek(today, offset, t) {
      var i :| 0 <= i < 7 && CivilFromDays(t) == StampedDate(today, offset, i);
      assert keys[i] == FormatDateLocal(t);
    }
  }

  /** The local key of day `t` is among the week's keys exactly when `t`
      has a header's month and day and the year of `today`. */
  lemma WeekKeysMember(today: int, offset: int, t: int)
    ensures FormatDateLocal(t) in WeekKeys(today, offset) <==> InStampedWeek(today, offset, t)
  {
    WeekKeyIff(today, offset, t, 0);
    forall i | 0 <= i < 7
      ensures WeekKeys(today, offset)[i] == FormatDateLocal(t) <==> CivilFromDays(t) == StampedDate(today, offset, i)
    {
      WeekKeyIff(today, offset, t, i);
    }
    KeysMember(WeekKeys(today, offset), today, offset, t);
  }

  /** When the whole week lies in the current year, and that year is not
      one of 0 to 99, the stamped dates are the week's days. */
  lemma StampedWeekInYear(today: int, offset: int, t: int)
    requires !TwoDigitYear(CivilFromDays(today).year)
    requires forall i :: 0 <= i < 7 ==> CivilFromDays(SlotDate(today, offset, i)).year == CivilFromDays(today).year
    ensures InStampedWeek(today, offset, t) <==> exists i :: 0 <= i < 7 && t == SlotDate(today, offset, i)
  {
    SlotDateIsColumn(today, offset, 0);
    assert CivilFromDays(SlotDate(today, offset, 0)).year == CivilFromDays(today).year;
    forall i | 0 <= i < 7 ensures HeaderDay(today, offset, i) == SlotDate(today, offset, i) {
      HeaderDayIsColumn(today, offset, i);
    }
    if InStampedWeek(today, offset, t) {
      var i :| 0 <= i < 7 && CivilFromDays(t) == StampedDate(today, offset, i);
      CivilFromDaysInjective(t, SlotDate(today, offset, i));
    }
    if exists i :: 0 <= i < 7 && t == SlotDate(today, offset, i) {
      var i :| 0 <= i < 7 && t == SlotDate(today, offset, i);
      assert CivilFromDays(t) == StampedDate(today, offset, i);
    }
  }

  /** A day in another year than `today`'s is never in the stamped week,
      even when it is one of the week's columns. */
  lemma StampedWeekOtherYear(today: int, offset: int, t: int)
    requires CivilFromDays(t).year != CivilFromDays(today).year
    ensures !InStampedWeek(today, offset, t)
  {
  }

  // ---------------------------------------------------------------------
  // getVolunteerStats (lines 363-385)

  datatype Stats = Stats(hours: int, shifts: int)

  predicate CountsFor(c: Claim, name: string, keys: seq<string>)
  {
    Lower(c.vName) == Lower(name) && FormatDateLocal(c.date) in keys
  }

  /** `getVolunteerStats(name)`: the confirmed claims of `name` (compared
      lower-cased) on the week's keys, two hours each. */
  function VolunteerStats(today: int, offset: int, confirmed: seq<Claim>, name: string): (r: Stats)
    ensures r.hours == 2 * r.shifts
    ensures 0 <= r.shifts <= |confirmed|
  {
    var keys := WeekKeys(today, offset);
    var n := |Filter(confirmed, c => CountsFor(c, name, keys))|;
    Stats(n * 2, n)
  }

  /** A claim of `name`, in any letter case, on a day of the stamped week. */
  predicate ShiftOf(today: int, offset: int, name: string, c: Claim)
  {
    Lower(c.vName) == Lower(name) && InStampedWeek(today, offset, c.date)
  }

  /** The shifts are the confirmed claims of `name`, in any letter case, on
      a day with a column's month and day and the current year. */
  lemma VolunteerStatsSpec(today: int, offset: int, confirmed: seq<Claim>, name: string)
    ensures VolunteerStats(today, offset, confirmed, name).shifts
      == Count(confirmed, (c: Claim) => ShiftOf(today, offset, name, c))
  {
    var keys := WeekKeys(today, offset);
    var p := (c: Claim) => CountsFor(c, name, keys);
    var q := (c: Claim) => ShiftOf(today, offset, name, c);
    forall i | 0 <= i < |confirmed| ensures p(confirmed[i]) == q(confirmed[i]) {
      WeekKeysMember(today, offset, confirmed[i].date);
    }
    FilterCongruent(confirmed, p, q);
    FilterLength(confirmed, q);
  }

  /** Staging claims never changes the stats; the sync adds the staged
      claims that count. */
  lemma VolunteerStatsRegister(today: int, offset: int, s: Lists, name: string)
    ensures VolunteerStats(today, offset, Register(s).confirmed, name).shifts
      == VolunteerStats(today, offset, s.confirmed, name).shifts + VolunteerStats(today, offset, s.pending, name).shifts
  {
    var keys := WeekKeys(today, offset);
    FilterAppend(s.confirmed, s.pending, c => CountsFor(c, name, keys));
  }

  // ---------------------------------------------------------------------
  // getActiveVolunteersForWeek (lines 116-144)

  /** `VolunteerCard` (lines 36-40). */
  datatype Card = Card(vName: string, isOpen: bool, role: string)

  /** `${v.v_name}|${v.role}`. */
  function CardKey(c: Claim): string
  {
    c.vName + "|" + c.role
  }

  /** `const [v_name, role] = key.split("|")`, closed. */
  function CardOf(key: string): Card
  {
    var parts := Split(key, '|');
    Card(Nth(parts, 0), false, Nth(parts, 1))
  }

  /** The filter of the week: the ISO date part of the claim is a week key. */
  predicate InWeek(c: Claim, keys: seq<string>)
  {
    IsoDate(c.date) in keys
  }

  /** `getActiveVolunteersForWeek(slots, offset)`. */
  function ActiveVolunteersForWeek(today: int, offset: int, slots: seq<Claim>): seq<Card>
  {
    var keys := WeekKeys(today, offset);
    Map(Dedup(Map(Filter(slots, c => InWeek(c, keys)), CardKey)), CardOf)
  }

  predicate PipeFree(c: Claim)
  {
    '|' !in c.vName && '|' !in c.role
  }

  lemma CardOfKey(c: Claim)
    requires PipeFree(c)
    ensures CardOf(CardKey(c)) == Card(c.vName, false, c.role)
  {
    assert CardKey(c) == c.vName + ['|'] + c.role;
    SplitPair(c.vName, '|', c.role);
  }

  /** Every card is closed, and there are no more cards than claims. */
  lemma ActiveVolunteersClosed(today: int, offset: int, slots: seq<Claim>)
    ensures |ActiveVolunteersForWeek(today, offset, slots)| <= |slots|
    ensures forall i :: 0 <= i < |ActiveVolunteersForWeek(today, offset, slots)| ==>
      !ActiveVolunteersForWeek(today, offset, slots)[i].isOpen
  {
  }

  /** Every deduplicated key is the key of some claim. */
  lemma CardKeysFrom(w: seq<Claim>)
    ensures forall x :: x in Dedup(Map(w, CardKey)) ==> exists c :: c in w && CardKey(c) == x
  {
    var ks := Map(w, CardKey);
    forall x | x in Dedup(ks) ensures exists c :: c in w && CardKey(c) == x {
      var i :| 0 <= i < |ks| && ks[i] == x;
      assert w[i] in w;
    }
  }

  /** Distinct keys of `|`-free claims give distinct cards. */
  lemma CardsDistinct(w: seq<Claim>)
    requires forall c :: c in w ==> PipeFree(c)
    ensures NoDup(Map(Dedup(Map(w, CardKey)), CardOf))
  {
    var d := Dedup(Map(w, CardKey));
    var r := Map(d, CardOf);
    CardKeysFrom(w);
    forall i, j | 0 <= i < j < |r| ensures r[i] != r[j] {
      assert d[i] in d && d[j] in d;
      var ci :| ci in w && CardKey(ci) == d[i];
      var cj :| cj in w && CardKey(cj) == d[j];
      CardOfKey(ci);
      CardOfKey(cj);
    }
  }

  lemma CardFromKeys(w: seq<Claim>, v: Card)
    requires forall c :: c in w ==> PipeFree(c)
    requires v in Map(Dedup(Map(w, CardKey)), CardOf)
    ensures !v.isOpen && exists c :: c in w && c.vName == v.vName && c.role == v.role
  {
    var d := Dedup(Map(w, CardKey));
    var r := Map(d, CardOf);
    CardKeysFrom(w);
    var i :| 0 <= i < |r| && r[i] == v;
    assert d[i] in d;
    var c :| c in w && CardKey(c) == d[i];
    CardOfKey(c);
  }

  lemma CardOfClaim(w: seq<Claim>, c: Claim)
    requires c in w && PipeFree(c)
    ensures Card(c.vName, false, c.role) in Map(Dedup(Map(w, CardKey)), CardOf)
  {
    var ks := Map(w, CardKey);
    var d := Dedup(ks);
    CardOfKey(c);
    var i :| 0 <= i < |w| && w[i] == c;
    assert ks[i] == CardKey(c) && CardKey(c) in ks;
    assert CardKey(c) in d;
    var j :| 0 <= j < |d| && d[j] == CardKey(c);
    assert Map(d, CardOf)[j] == Card(c.vName, false, c.role);
  }

  /** The cards of `|`-free claims are their (name, role) pairs, closed. */
  lemma CardsMembers(w: seq<Claim>)
    requires forall c :: c in w ==> PipeFree(c)
    ensures forall v :: v in Map(Dedup(Map(w, CardKey)), CardOf) <==>
      !v.isOpen && exists c :: c in w && c.vName == v.vName && c.role == v.role
  {
    forall v ensures v in Map(Dedup(Map(w, CardKey)), CardOf) <==>
      !v.isOpen && exists c :: c in w && c.vName == v.vName && c.role == v.role
    {
      if v in Map(Dedup(Map(w, CardKey)), CardOf) {
        CardFromKeys(w, v);
      }
      if !v.isOpen && exists c :: c in w && c.vName == v.vName && c.role == v.role {
        var c :| c in w && c.vName == v.vName && c.role == v.role;
        CardOfClaim(w, c);
      }
    }
  }

  /** With names and roles free of `|`, the cards are the distinct
      (name, role) pairs of the claims in the week. */
  lemma ActiveVolunteersSpec(today: int, offset: int, slots: seq<Claim>)
    requires forall c :: c in slots ==> PipeFree(c)
    ensures NoDup(ActiveVolunteersForWeek(today, offset, slots))
    ensures forall v :: v in ActiveVolunteersForWeek(today, offset, slots) <==>
      !v.isOpen && exists c :: c in slots && InWeek(c, WeekKeys(today, offset)) && c.vName == v.vName && c.role == v.role
  {
    var keys := WeekKeys(today, offset);
    var w := Filter(slots, c => InWeek(c, keys));
    CardsDistinct(w);
    CardsMembers(w);
  }

  /** A name that holds a `|` is cut at it: the card shows the part before
      it as the name and the part after it as the role. */
  lemma ActiveVolunteersPipeName(c: Claim, first: string, second: string)
    requires c.vName == first + "|" + second
    requires '|' !in first && '|' !in second
    ensures CardOf(CardKey(c)) == Card(first, false, second)
  {
    var rest := second + "|" + c.role;
    assert CardKey(c) == first + ['|'] + rest;
    SplitAtSeparator(first, '|', rest);
    assert rest == second + ['|'] + c.role;
    SplitAtSeparator(second, '|', c.role);
  }

  /** For four-digit years the week filter of the cards is the one of the
      stats: a claim is in the week exactly when its day is in the stamped
      week. */
  lemma InWeekFourDigitYear(today: int, offset: int, c: Claim)
    requires 1000 <= CivilFromDays(c.date).year <= 9999
    ensures InWeek(c, WeekKeys(today, offset)) <==> InStampedWeek(today, offset, c.date)
  {
    IsoDateFourDigitYear(c.date);
    WeekKeysMember(today, offset, c.date);
  }

  // ---------------------------------------------------------------------
  // toggleVolunteerCard (lines 387-391)

  function Toggle(cards: seq<Card>, name: string): seq<Card>
  {
    Map(cards, (v: Card) => if v.vName == name then v.(isOpen := !v.isOpen) else v)
  }

  /** Exactly the cards with that name flip open or closed; names, roles and
      order stay. */
  lemma ToggleSpec(cards: seq<Card>, name: string)
    ensures |Toggle(cards, name)| == |cards|
    ensures forall i :: 0 <= i < |cards| ==>
      Toggle(cards, name)[i].vName == cards[i].vName && Toggle(cards, name)[i].role == cards[i].role
      && Toggle(cards, name)[i].isOpen == (cards[i].isOpen != (cards[i].vName == name))
  {
  }

  /** Toggling a card twice restores the cards. */
  lemma ToggleInvolution(cards: seq<Card>, name: string)
    ensures Toggle(Toggle(cards, name), name) == cards
  {
    ToggleSpec(cards, name);
    ToggleSpec(Toggle(cards, name), name);
  }

  // ---------------------------------------------------------------------
  // isSlotSelected (lines 324-332)

  /** The day `isSlotSelected` checks: the mount date moved by
      `index - day`, of which only the day of month is kept and put back
      into the mount month and year. */
  function CheckedDate(year: int, month: int, date: int, day: int, index: int): int
  {
    var base := NewDate(year, month - 1, date);
    var shifted := SetDate(base, CivilFromDays(base).day + (index - day));
    NewDate(year, month - 1, CivilFromDays(shifted).day)
  }

  /** `isSlotSelected(index, timeslot)` with the fields `year`, `month`,
      `date` and `day` recorded when the component mounted. */
  predicate IsSlotSelected(year: int, month: int, date: int, day: int, confirmed: seq<Claim>, who: Identity, index: int, time: string)
  {
    exists i :: 0 <= i < |confirmed| && Matches(confirmed[i], ClickKey(who, CheckedDate(year, month, date, day, index), time))
  }

  /** The grid column `index` of the week of day `mount`. */
  function MountColumn(mount: int, index: int): int
  {
    mount - Weekday(mount) + index
  }

  lemma CheckedDateUnfold(year: int, month: int, date: int, day: int, index: int)
    ensures CheckedDate(year, month, date, day, index) ==
      NewDate(year, month - 1, CivilFromDays(SetDate(NewDate(year, month - 1, date),
                                                     CivilFromDays(NewDate(year, month - 1, date)).day + (index - day))).day)
  {
  }

  /** `SetDateShift` with the day bound to `b` by the requires, a form that
      keeps the proofs using it small. */
  lemma SetDateFrom(b: int, t: int, k: int)
    requires b == t
    ensures SetDate(b, CivilFromDays(b).day + k) == t + k
  {
    SetDateShift(t, k);
  }

  lemma CheckedDateShift(mount: int, index: int)
    requires !TwoDigitYear(CivilFromDays(mount).year)
    ensures SetDate(NewDate(CivilFromDays(mount).year, CivilFromDays(mount).month - 1, CivilFromDays(mount).day),
                    CivilFromDays(NewDate(CivilFromDays(mount).year, CivilFromDays(mount).month - 1, CivilFromDays(mount).day)).day
                    + (index - Weekday(mount))) == MountColumn(mount, index)
  {
    NewDateOfCivil(mount);
    SetDateFrom(NewDate(CivilFromDays(mount).year, CivilFromDays(mount).month - 1, CivilFromDays(mount).day),
                mount, index - Weekday(mount));
  }

  /** Outside the years 0 to 99, the day checked has the mount month and
      year and the column's day of month. */
  lemma CheckedDateMonth(mount: int, index: int)
    requires !TwoDigitYear(CivilFromDays(mount).year)
    ensures CheckedDate(CivilFromDays(mount).year, CivilFromDays(mount).month, CivilFromDays(mount).day, Weekday(mount), index)
      == NewDate(CivilFromDays(mount).year, CivilFromDays(mount).month - 1, CivilFromDays(MountColumn(mount, index)).day)
  {
    CheckedDateUnfold(CivilFromDays(mount).year, CivilFromDays(mount).month, CivilFromDays(mount).day, Weekday(mount), index);
    CheckedDateShift(mount, index);
  }

  /** When column `index` of the mount week lies in the mount month, the
      day checked is the column's day. */
  lemma CheckedDateSameMonth(mount: int, index: int)
    requires !TwoDigitYear(CivilFromDays(mount).year)
    requires CivilFromDays(MountColumn(mount, index)).year == CivilFromDays(mount).year
    requires CivilFromDays(MountColumn(mount, index)).month == CivilFromDays(mount).month
    ensures CheckedDate(CivilFromDays(mount).year, CivilFromDays(mount).month, CivilFromDays(mount).day, Weekday(mount), index)
      == MountColumn(mount, index)
  {
    CheckedDateMonth(mount, index);
    NewDateOfCivil(MountColumn(mount, index));
  }

  /** When column `index` lies in another month and its day of month exists
      in the mount month, the day checked is that day of the mount month, so
      not the column's day. */
  lemma CheckedDateOtherMonth(mount: int, index: int)
    requires !TwoDigitYear(CivilFromDays(mount).year)
    requires CivilFromDays(MountColumn(mount, index)).month != CivilFromDays(mount).month
    requires CivilFromDays(MountColumn(mount, index)).day
      <= DaysInMonth(CivilFromDays(mount).year, CivilFromDays(mount).month)
    ensures CivilFromDays(CheckedDate(CivilFromDays(mount).year, CivilFromDays(mount).month, CivilFromDays(mount).day, Weekday(mount), index))
      == Date(CivilFromDays(mount).year, CivilFromDays(mount).month, CivilFromDays(MountColumn(mount, index)).day)
    ensures CheckedDate(CivilFromDays(mount).year, CivilFromDays(mount).month, CivilFromDays(mount).day, Weekday(mount), index)
      != MountColumn(mount, index)
  {
    var m := CivilFromDays(mount);
    var e := Date(m.year, m.month, CivilFromDays(MountColumn(mount, index)).day);
    CheckedDateMonth(mount, index);
    NewDateOfValid(e);
    CivilFromDaysRoundTrip(e);
  }

  /** Outside the years 0 to 99, when column `index` lies in another month
      than the mount day, the day checked is not the column's day, also when
      the column's day of month does not exist in the mount month and the
      constructor carries it into the next month. */
  lemma CheckedDateMissesOtherMonth(mount: int, index: int)
    requires !TwoDigitYear(CivilFromDays(mount).year)
    requires CivilFromDays(MountColumn(mount, index)).month != CivilFromDays(mount).month
    ensures CheckedDate(CivilFromDays(mount).year, CivilFromDays(mount).month, CivilFromDays(mount).day, Weekday(mount), index)
      != MountColumn(mount, index)
  {
    var m := CivilFromDays(mount);
    var c := CivilFromDays(MountColumn(mount, index));
    CheckedDateMonth(mount, index);
    MakeDayInRange(m.year, m.month - 1, c.day);
    assert DaysFromCivil(c) == DaysFromCivil(Date(c.year, c.month, 1)) + c.day - 1;
    FirstsDiffer(m, c);
  }

  /** Mounted in the years 0 to 99, the day checked lies in 1900 + y or
      later, after every day of the mount week. */
  lemma CheckedDateTwoDigitYear(mount: int, index: int)
    requires TwoDigitYear(CivilFromDays(mount).year)
    ensures YearStart(1900 + CivilFromDays(mount).year)
      <= CheckedDate(CivilFromDays(mount).year, CivilFromDays(mount).month, CivilFromDays(mount).day, Weekday(mount), index)
  {
    CheckedDateAbove(CivilFromDays(mount).year, CivilFromDays(mount).month, CivilFromDays(mount).day, Weekday(mount), index);
  }

  lemma CheckedDateAbove(year: int, month: int, date: int, day: int, index: int)
    requires TwoDigitYear(year) && 1 <= month <= 12
    ensures YearStart(1900 + year) <= CheckedDate(year, month, date, day, index)
  {
    var base := NewDate(year, month - 1, date);
    var dd := CivilFromDays(SetDate(base, CivilFromDays(base).day + (index - day))).day;
    CheckedDateUnfold(year, month, date, day, index);
    AboveCentury(year, month - 1, dd, CheckedDate(year, month, date, day, index));
  }

  /** `NewDateTwoDigitYear` with the constructed day bound to `r` by the
      requires, a form that keeps the proofs using it small. */
  lemma AboveCentury(year: int, month0: int, dd: int, r: int)
    requires TwoDigitYear(year) && 0 <= month0 < 12 && 1 <= dd
    requires r == NewDate(year, month0, dd)
    ensures YearStart(1900 + year) <= r
  {
    NewDateTwoDigitYear(year, month0, dd);
  }

  /** Mounted in the years 0 to 99, no claim on a column of the mount week
      is found. */
  lemma IsSlotSelectedTwoDigitYear(mount: int, index: int, who: Identity, time: string)
    requires TwoDigitYear(CivilFromDays(mount).year)
    requires 0 <= index < 7
    ensures !IsSlotSelected(CivilFromDays(mount).year, CivilFromDays(mount).month, CivilFromDays(mount).day, Weekday(mount),
                            [NewClaim(who, MountColumn(mount, index), time)], who, index, time)
  {
    CheckedAfterWeek(mount, index);
    SelectedElsewhere(CivilFromDays(mount).year, CivilFromDays(mount).month, CivilFromDays(mount).day, Weekday(mount),
                      who, index, time, MountColumn(mount, index));
  }

  lemma CheckedAfterWeek(mount: int, index: int)
    requires TwoDigitYear(CivilFromDays(mount).year)
    requires 0 <= index < 7
    ensures CheckedDate(CivilFromDays(mount).year, CivilFromDays(mount).month, CivilFromDays(mount).day, Weekday(mount), index)
      != MountColumn(mount, index)
  {
    MountBeforeChecked(mount, index);
  }

  lemma MountBeforeChecked(mount: int, index: int)
    requires TwoDigitYear(CivilFromDays(mount).year)
    ensures mount + 7
      <= CheckedDate(CivilFromDays(mount).year, CivilFromDays(mount).month, CivilFromDays(mount).day, Weekday(mount), index)
  {
    CheckedDateTwoDigitYear(mount, index);
    BeforeCentury(mount, CheckedDate(CivilFromDays(mount).year, CivilFromDays(mount).month, CivilFromDays(mount).day, Weekday(mount), index));
  }

  /** A day of the years 0 to 99 lies more than a week before January 1 of
      1900 + its year. */
  lemma BeforeCentury(mount: int, later: int)
    requires TwoDigitYear(CivilFromDays(mount).year)
    requires YearStart(1900 + CivilFromDays(mount).year) <= later
    ensures mount + 7 <= later
  {
    DayInYear(mount);
    YearStartMonotone(CivilFromDays(mount).year + 1, 1900 + CivilFromDays(mount).year);
  }

  /** A claim on a column of the mount week is not found when the column
      lies in another month than the mount day. */
  lemma IsSlotSelectedMissesColumn(mount: int, index: int, who: Identity, time: string)
    requires 0 <= index < 7
    requires CivilFromDays(MountColumn(mount, index)).month != CivilFromDays(mount).month
    ensures !IsSlotSelected(CivilFromDays(mount).year, CivilFromDays(mount).month, CivilFromDays(mount).day, Weekday(mount),
                            [NewClaim(who, MountColumn(mount, index), time)], who, index, time)
    ensures IsSlotSelectedIntended(mount, 0, [NewClaim(who, MountColumn(mount, index), time)], who, index, time)
  {
    var m := CivilFromDays(mount);
    if TwoDigitYear(m.year) {
      IsSlotSelectedTwoDigitYear(mount, index, who, time);
    } else {
      CheckedDateMissesOtherMonth(mount, index);
      SelectedElsewhere(m.year, m.month, m.day, Weekday(mount), who, index, time, MountColumn(mount, index));
    }
    MountColumnIsSlot(mount, index);
    MatchInIff([NewClaim(who, MountColumn(mount, index), time)], ClickKey(who, SlotDate(mount, 0, index), time));
  }

  /** `isSlotSelected` never reads the week offset: in any other week than
      the mount week, a claim on the displayed cell is not found, on a column
      whose mount-week day lies in the mount month. */
  lemma IsSlotSelectedIgnoresOffset(mount: int, offset: int, index: int, who: Identity, time: string)
    requires offset != 0
    requires !TwoDigitYear(CivilFromDays(mount).year)
    requires CivilFromDays(MountColumn(mount, index)).year == CivilFromDays(mount).year
    requires CivilFromDays(MountColumn(mount, index)).month == CivilFromDays(mount).month
    ensures !IsSlotSelected(CivilFromDays(mount).year, CivilFromDays(mount).month, CivilFromDays(mount).day, Weekday(mount),
                            [NewClaim(who, SlotDate(mount, offset, index), time)], who, index, time)
    ensures IsSlotSelectedIntended(mount, offset, [NewClaim(who, SlotDate(mount, offset, index), time)], who, index, time)
  {
    var m := CivilFromDays(mount);
    StartOfWeekIsSunday(mount, offset);
    SlotDateIsColumn(mount, offset, index);
    assert SlotDate(mount, offset, index) == MountColumn(mount, index) + 7 * offset;
    CheckedDateSameMonth(mount, index);
    SelectedElsewhere(m.year, m.month, m.day, Weekday(mount), who, index, time, SlotDate(mount, offset, index));
    MatchInIff([NewClaim(who, SlotDate(mount, offset, index), time)], ClickKey(who, SlotDate(mount, offset, index), time));
  }

  /** A lone claim on a day other than the one checked is not found. */
  lemma SelectedElsewhere(year: int, month: int, date: int, day: int, who: Identity, index: int, time: string, col: int)
    requires CheckedDate(year, month, date, day, index) != col
    ensures !IsSlotSelected(year, month, date, day, [NewClaim(who, col, time)], who, index, time)
  {
  }

  /** Mounted on Wednesday 1970-04-01 (day 90), the Sunday column shows
      1970-03-29 (day 87) but the check looks at 1970-04-29. */
  lemma IsSlotSelectedApril1970(mount: int, who: Identity, time: string)
    requires mount == 90
    ensures CivilFromDays(mount) == Date(1970, 4, 1) && Weekday(mount) == 3
    ensures CivilFromDays(MountColumn(mount, 0)) == Date(1970, 3, 29)
    ensures CivilFromDays(CheckedDate(CivilFromDays(mount).year, CivilFromDays(mount).month, CivilFromDays(mount).day, Weekday(mount), 0))
      == Date(1970, 4, 29)
    ensures !IsSlotSelected(CivilFromDays(mount).year, CivilFromDays(mount).month, CivilFromDays(mount).day, Weekday(mount),
                            [NewClaim(who, MountColumn(mount, 0), time)], who, 0, time)
    ensures IsSlotSelectedIntended(mount, 0, [NewClaim(who, MountColumn(mount, 0), time)], who, 0, time)
  {
    April1970Facts(mount);
    CheckedDateOtherMonth(mount, 0);
    IsSlotSelectedMissesColumn(mount, 0, who, time);
  }

  lemma April1970Facts(mount: int)
    requires mount == 90
    ensures CivilFromDays(mount) == Date(1970, 4, 1) && Weekday(mount) == 3
    ensures CivilFromDays(MountColumn(mount, 0)) == Date(1970, 3, 29)
    ensures CivilFromDays(MountColumn(mount, 0)).month != CivilFromDays(mount).month
    ensures CivilFromDays(MountColumn(mount, 0)).day <= DaysInMonth(CivilFromDays(mount).year, CivilFromDays(mount).month)
    ensures !TwoDigitYear(CivilFromDays(mount).year)
  {
    April1970Mount(mount);
    NotTwoDigit(CivilFromDays(mount).year);
    April1970Weekday(mount);
    April1970Column(MountColumn(mount, 0));
  }

  lemma NotTwoDigit(year: int)
    requires year == 1970
    ensures !TwoDigitYear(year)
  {
  }

  lemma April1970Mount(mount: int)
    requires mount == 90
    ensures CivilFromDays(mount) == Date(1970, 4, 1)
    ensures DaysInMonth(CivilFromDays(mount).year, CivilFromDays(mount).month) == 30
  {
    CivilFromDaysOf(Date(1970, 4, 1), mount);
  }

  lemma April1970Weekday(mount: int)
    requires mount == 90
    ensures Weekday(mount) == 3 && MountColumn(mount, 0) == 87
  {
  }

  lemma April1970Column(col: int)
    requires col == 87
    ensures CivilFromDays(col) == Date(1970, 3, 29)
  {
    CivilFromDaysOf(Date(1970, 3, 29), col);
  }

  /** Mounted on Monday 1971-03-01 (day 424), with the week offset at 4,
      a claim on the displayed column 0 is found. Column 0 of the mount week
      is 1971-02-28 (`March1971Facts`), in another month. The check puts day
      28 back into March, four weeks on: day 451, 1971-03-28
      (`March1971Day`), which is the displayed column 0 (`March1971Slot`,
      `March1971CheckedIsSlot`). So the in-month condition of
      `IsSlotSelectedIgnoresOffset` cannot be dropped. */
  lemma IsSlotSelectedMarch1971(mount: int, who: Identity, time: string)
    requires mount == 424
    ensures IsSlotSelected(CivilFromDays(mount).year, CivilFromDays(mount).month, CivilFromDays(mount).day, Weekday(mount),
                           [NewClaim(who, SlotDate(mount, 4, 0), time)], who, 0, time)
  {
    March1971CheckedIsSlot(mount);
    SelectedAt(CivilFromDays(mount).year, CivilFromDays(mount).month, CivilFromDays(mount).day, Weekday(mount),
               who, 0, time, SlotDate(mount, 4, 0));
  }

  /** The day checked for column 0 is the displayed day at offset 4. */
  lemma March1971CheckedIsSlot(mount: int)
    requires mount == 424
    ensures CheckedDate(CivilFromDays(mount).year, CivilFromDays(mount).month, CivilFromDays(mount).day, Weekday(mount), 0)
      == SlotDate(mount, 4, 0)
  {
    March1971Facts(mount);
    CheckedDateMonth(mount, 0);
    March1971Checked(CheckedDate(CivilFromDays(mount).year, CivilFromDays(mount).month, CivilFromDays(mount).day, Weekday(mount), 0));
    March1971Slot(mount);
  }

  /** A claim on the day checked is found. */
  lemma SelectedAt(year: int, month: int, date: int, day: int, who: Identity, index: int, time: string, col: int)
    requires CheckedDate(year, month, date, day, index) == col
    ensures IsSlotSelected(year, month, date, day, [NewClaim(who, col, time)], who, index, time)
  {
    assert Matches([NewClaim(who, col, time)][0], ClickKey(who, col, time));
  }

  lemma March1971Facts(mount: int)
    requires mount == 424
    ensures CivilFromDays(mount) == Date(1971, 3, 1) && Weekday(mount) == 1
    ensures MountColumn(mount, 0) == 423
    ensures CivilFromDays(MountColumn(mount, 0)) == Date(1971, 2, 28)
    ensures !TwoDigitYear(CivilFromDays(mount).year)
  {
    March1971Weekday(mount);
    March1971Day(MountColumn(mount, 0), Date(1971, 2, 28));
    March1971Mount(mount);
  }

  lemma March1971Mount(mount: int)
    requires mount == 424
    ensures CivilFromDays(mount) == Date(1971, 3, 1)
    ensures !TwoDigitYear(CivilFromDays(mount).year)
  {
    CivilFromDaysOf(Date(1971, 3, 1), mount);
  }

  lemma March1971Weekday(mount: int)
    requires mount == 424
    ensures Weekday(mount) == 1 && MountColumn(mount, 0) == 423
  {
  }

  /** Day `n` is the date `d`, for the two days this example needs. */
  lemma March1971Day(n: int, d: Date)
    requires (n == 423 && d == Date(1971, 2, 28)) || (n == 451 && d == Date(1971, 3, 28))
    ensures CivilFromDays(n) == d
  {
    CivilFromDaysOf(d, n);
  }

  /** `new Date(1971, 2, 28)` is day 451. */
  lemma March1971Checked(checked: int)
    requires checked == NewDate(1971, 2, 28)
    ensures checked == 451
  {
    MakeDayInRange(1971, 2, 28);
  }

  /** At offset 4, column 0 is day 451. */
  lemma March1971Slot(mount: int)
    requires mount == 424
    ensures SlotDate(mount, 4, 0) == 451
  {
    March1971Weekday(mount);
    SlotDateAt(mount, 4, 0, 1);
  }

  /** `StartOfWeekIsSunday` and `SlotDateIsColumn` together, with the
      weekday bound to `w` by the requires. */
  lemma SlotDateAt(today: int, offset: int, index: int, w: int)
    requires w == Weekday(today)
    ensures SlotDate(today, offset, index) == today - w + 7 * offset + index
  {
    StartOfWeekIsSunday(today, offset);
    SlotDateIsColumn(today, offset, index);
  }

  lemma MountColumnIsSlot(mount: int, index: int)
    ensures SlotDate(mount, 0, index) == MountColumn(mount, index)
  {
    StartOfWeekIsSunday(mount, 0);
    SlotDateIsColumn(mount, 0, index);
  }

  /** The selection the grid evidently means: a confirmed claim of the
      current volunteer on the cell's own day, in the displayed week. */
  predicate IsSlotSelectedIntended(today: int, offset: int, confirmed: seq<Claim>, who: Identity, index: int, time: string)
  {
    MatchIn(confirmed, ClickKey(who, SlotDate(today, offset, index), time))
  }

  /** The corrected selection holds exactly when a confirmed claim has the cell's key,
      so exactly when a click on it, with nothing staged there, deletes. */
  lemma IsSlotSelectedIntendedSpec(today: int, offset: int, s: Lists, who: Identity, index: int, time: string)
    ensures IsSlotSelectedIntended(today, offset, s.confirmed, who, index, time) <==>
      exists c :: c in s.confirmed && KeyOf(c) == ClickKey(who, SlotDate(today, offset, index), time)
    ensures !AllWhitespace(who.name) && !MatchIn(s.pending, ClickKey(who, SlotDate(today, offset, index), time)) ==>
      (IsSlotSelectedIntended(today, offset, s.confirmed, who, index, time) <==>
       Resolve(s, who, SlotDate(today, offset, index), time) == Deleted)
  {
    MatchInIff(s.confirmed, ClickKey(who, SlotDate(today, offset, index), time));
    TrimEmptyIffBlank(who.name);
  }

  /** In the current week, on a column in the mount month, the code as
      written and the intended selection agree. */
  lemma IsSlotSelectedAgreesInMonth(mount: int, confirmed: seq<Claim>, who: Identity, index: int, time: string)
    requires !TwoDigitYear(CivilFromDays(mount).year)
    requires CivilFromDays(MountColumn(mount, index)).year == CivilFromDays(mount).year
    requires CivilFromDays(MountColumn(mount, index)).month == CivilFromDays(mount).month
    ensures IsSlotSelected(CivilFromDays(mount).year, CivilFromDays(mount).month, CivilFromDays(mount).day, Weekday(mount),
                           confirmed, who, index, time)
      <==> IsSlotSelectedIntended(mount, 0, confirmed, who, index, time)
  {
    CheckedDateSameMonth(mount, index);
    MountColumnIsSlot(mount, index);
    MatchInIff(confirmed, ClickKey(who, SlotDate(mount, 0, index), time));
    var k := ClickKey(who, MountColumn(mount, index), time);
    if exists i :: 0 <= i < |confirmed| && Matches(confirmed[i], k) {
      var i :| 0 <= i < |confirmed| && Matches(confirmed[i], k);
      assert confirmed[i] in confirmed && KeyOf(confirmed[i]) == k;
    }
    if exists c :: c in confirmed && KeyOf(c) == k {
      var c :| c in confirmed && KeyOf(c) == k;
      var i :| 0 <= i < |confirmed| && confirmed[i] == c;
      assert Matches(confirmed[i], k);
    }
  }
}
