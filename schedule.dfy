/** The `WeeklySchedule` component as an object: its state hooks are the
    fields of one class, and each event handler is a method that makes the
    state updates the handler schedules, as one atomic step. The date the
    handler reads from the clock and the way an awaited request ended are
    parameters. The effect of lines 146-149, which recomputes the volunteer
    cards after a render in which the confirmed claims or the week offset
    changed, is a method of its own that runs after such a handler; until it
    runs, the cards are those of the earlier state. */
module Schedule {
  import opened Seqs
  import opened Text
  import opened Calendar
  import opened Week
  import opened Slots
  import opened Views

  /** `capitalize(first) + " " + capitalize(last)`, the name the component
      books slots under (lines 186, 430). */
  function DisplayName(first: string, last: string): (r: string)
    ensures |r| == |first| + |last| + 1
    ensures r[|first|] == ' '
  {
    Capitalize(first) + " " + Capitalize(last)
  }

  /** The name is blank, so every click on the grid is ignored, exactly when
      both parts are blank. */
  lemma DisplayNameBlank(first: string, last: string)
    ensures AllWhitespace(DisplayName(first, last)) <==> AllWhitespace(first) && AllWhitespace(last)
  {
    var n := DisplayName(first, last);
    CapitalizeBlank(first);
    CapitalizeBlank(last);
    assert n[..|first|] == Capitalize(first);
    assert n[|first| + 1..] == Capitalize(last);
    if AllWhitespace(first) && AllWhitespace(last) {
      forall i | 0 <= i < |n| ensures IsWhitespace(n[i]) {
        if i > |first| {
          assert n[i] == Capitalize(last)[i - |first| - 1];
        } else if i < |first| {
          assert n[i] == Capitalize(first)[i];
        }
      }
    } else if !AllWhitespace(first) {
      var i :| 0 <= i < |first| && !IsWhitespace(Capitalize(first)[i]);
      assert n[i] == Capitalize(first)[i];
    } else {
      var i :| 0 <= i < |last| && !IsWhitespace(Capitalize(last)[i]);
      assert n[|first| + 1 + i] == Capitalize(last)[i];
    }
  }

  /** Claims are matched on the lower-cased name, and for that the
      capitalisation makes no difference: the key is the two lower-cased
      parts around a space. */
  lemma DisplayNameLower(first: string, last: string)
    ensures Lower(DisplayName(first, last)) == Lower(first) + " " + Lower(last)
  {
    LowerAppend(Capitalize(first) + " ", Capitalize(last));
    LowerAppend(Capitalize(first), " ");
    LowerCapitalize(first);
    LowerCapitalize(last);
  }

  /** Picking a registered volunteer fills the name fields with capitalised
      names, so a later search on those fields books under the same name. */
  lemma DisplayNameStable(first: string, last: string)
    ensures DisplayName(Capitalize(first), Capitalize(last)) == DisplayName(first, last)
  {
    CapitalizeIdempotent(first);
    CapitalizeIdempotent(last);
  }

  /** How `retrieveVolunteer` (lines 161-182) ended: the lookup answered with
      at least one record (the first one's id and role), answered with an
      empty list, answered with an error status, or the request threw. */
  datatype LookupOutcome = Found(id: int, role: string) | NoMatch | NotOk | Failed

  /** The fields that say who is booking. */
  datatype Profile = Profile(firstName: string, lastName: string, volunteerName: string,
                             vId: int, vRole: string, isExistingVolunteer: bool)

  /** The date the component read from the clock when it mounted. */
  datatype Mount = Mount(year: int, month: int, date: int, day: int)

  class WeeklySchedule {
    var year: int
    var month: int
    var date: int
    var day: int
    /** `selectedSlots` and `newSelectedSlots`. */
    var confirmed: seq<Claim>
    var pending: seq<Claim>
    var volunteerName: string
    var firstName: string
    var lastName: string
    var vRole: string
    var vId: int
    var isExistingVolunteer: bool
    var weekOffset: int
    var activeVolunteers: seq<Card>

    function Store(): Lists
      reads this
    {
      Lists(confirmed, pending)
    }

    function Who(): Identity
      reads this
    {
      Identity(vId, volunteerName, vRole)
    }

    function ProfileOf(): Profile
      reads this
    {
      Profile(firstName, lastName, volunteerName, vId, vRole, isExistingVolunteer)
    }

    function MountOf(): Mount
      reads this
    {
      Mount(year, month, date, day)
    }

    /** The staged claims have distinct keys, none of them confirmed. */
    predicate Valid()
      reads this
    {
      Wf(Store())
    }

    /** The cards the effect of lines 146-149 shows for the current claims and
        week, with every card closed. */
    predicate CardsFresh(today: int)
      reads this
    {
      activeVolunteers == ActiveVolunteersForWeek(today, weekOffset, confirmed)
    }

    /** The component was mounted on day `mount`. */
    predicate MountedOn(mount: int)
      reads this
    {
      MountOf() == Mount(CivilFromDays(mount).year, CivilFromDays(mount).month,
                         CivilFromDays(mount).day, Weekday(mount))
    }

    /** What `isSlotSelected(index, time)` returns, the value the grid passes
        as `isSelected` (line 659): it reads the mount fields and never the
        week offset. The cell component does not render the value. */
    predicate SlotSelected(index: int, time: string)
      reads this
    {
      IsSlotSelected(year, month, date, day, confirmed, Who(), index, time)
    }

    /** The corrected selection: a confirmed claim of the current volunteer
        on cell (`index`, `time`) of the week displayed on day `today`. */
    predicate SlotSelectedIntended(today: int, index: int, time: string)
      reads this
    {
      IsSlotSelectedIntended(today, weekOffset, confirmed, Who(), index, time)
    }

    /** In the mount week, on a column that lies in the mount month, what
        `isSlotSelected` returns is the corrected selection. */
    lemma SlotSelectedInMountWeek(mount: int, index: int, time: string)
      requires MountedOn(mount) && weekOffset == 0
      requires !TwoDigitYear(CivilFromDays(mount).year)
      requires CivilFromDays(MountColumn(mount, index)).year == CivilFromDays(mount).year
      requires CivilFromDays(MountColumn(mount, index)).month == CivilFromDays(mount).month
      ensures SlotSelected(index, time) <==> SlotSelectedIntended(mount, index, time)
    {
      IsSlotSelectedAgreesInMonth(mount, confirmed, Who(), index, time);
    }

    /** The component mounted on day `today` (lines 151-159) once
        `fetchTimeslots` (lines 88-108) has delivered `loaded` and the card
        effect has run on it; a failed load is `loaded == []`. */
    constructor(today: int, loaded: seq<Claim>)
      ensures Valid() && CardsFresh(today)
      ensures Store() == Lists(loaded, [])
      ensures MountedOn(today)
      ensures ProfileOf() == Profile("", "", "", 0, "", false) && weekOffset == 0
    {
      var c := CivilFromDays(today);
      year, month, date, day := c.year, c.month, c.day, Weekday(today);
      confirmed, pending := loaded, [];
      volunteerName, firstName, lastName, vRole := "", "", "", "";
      vId, isExistingVolunteer, weekOffset := 0, false, 0;
      activeVolunteers := ActiveVolunteersForWeek(today, 0, loaded);
    }

    /** The effect of lines 146-149. */
    method RefreshActiveVolunteers(today: int)
      modifies this
      ensures CardsFresh(today)
      ensures forall v :: v in activeVolunteers ==> !v.isOpen
      ensures Store() == old(Store()) && ProfileOf() == old(ProfileOf())
      ensures MountOf() == old(MountOf()) && weekOffset == old(weekOffset)
    {
      activeVolunteers := ActiveVolunteersForWeek(today, weekOffset, confirmed);
      ActiveVolunteersClosed(today, weekOffset, confirmed);
    }

    /** `handleChangeFirstName` (lines 191-194): editing a name field clears
        the name slots are booked under. */
    method ChangeFirstName(input: string)
      modifies this
      ensures firstName == input && volunteerName == ""
      ensures lastName == old(lastName) && vId == old(vId) && vRole == old(vRole)
      ensures isExistingVolunteer == old(isExistingVolunteer)
      ensures Store() == old(Store()) && activeVolunteers == old(activeVolunteers)
      ensures MountOf() == old(MountOf()) && weekOffset == old(weekOffset)
    {
      volunteerName := "";
      firstName := input;
    }

    /** `handleChangeLastName` (lines 196-199). */
    method ChangeLastName(input: string)
      modifies this
      ensures lastName == input && volunteerName == ""
      ensures firstName == old(firstName) && vId == old(vId) && vRole == old(vRole)
      ensures isExistingVolunteer == old(isExistingVolunteer)
      ensures Store() == old(Store()) && activeVolunteers == old(activeVolunteers)
      ensures MountOf() == old(MountOf()) && weekOffset == old(weekOffset)
    {
      volunteerName := "";
      lastName := input;
    }

    /** `retrieveVolunteer` (lines 161-182): only a lookup that found someone
        sets the id and role and marks the volunteer as existing; an empty
        answer throws on `data[0]` before the id is set, and every other
        ending marks the volunteer as unknown and keeps the old id and role. */
    method RetrieveVolunteer(outcome: LookupOutcome)
      modifies this
      ensures isExistingVolunteer <==> outcome.Found?
      ensures outcome.Found? ==> vId == outcome.id && vRole == outcome.role
      ensures !outcome.Found? ==> vId == old(vId) && vRole == old(vRole)
      ensures firstName == old(firstName) && lastName == old(lastName)
      ensures volunteerName == old(volunteerName)
      ensures Store() == old(Store()) && activeVolunteers == old(activeVolunteers)
      ensures MountOf() == old(MountOf()) && weekOffset == old(weekOffset)
    {
      match outcome {
        case Found(id, role) =>
          isExistingVolunteer := true;
          vId := id;
          vRole := role;
        case NoMatch =>
          isExistingVolunteer := false;
        case NotOk =>
          isExistingVolunteer := false;
        case Failed =>
          isExistingVolunteer := false;
      }
    }

    /** `handleFindVolunteer` (lines 184-189): book under the capitalised
        name fields, then look the volunteer up. */
    method FindVolunteer(outcome: LookupOutcome)
      modifies this
      ensures volunteerName == DisplayName(old(firstName), old(lastName))
      ensures isExistingVolunteer <==> outcome.Found?
      ensures outcome.Found? ==> vId == outcome.id && vRole == outcome.role
      ensures !outcome.Found? ==> vId == old(vId) && vRole == old(vRole)
      ensures firstName == old(firstName) && lastName == old(lastName)
      ensures Store() == old(Store()) && activeVolunteers == old(activeVolunteers)
      ensures MountOf() == old(MountOf()) && weekOffset == old(weekOffset)
    {
      volunteerName := DisplayName(firstName, lastName);
      RetrieveVolunteer(outcome);
    }

    /** `handleSelectRegVolunteer` (lines 427-432): picking a registered
        volunteer from the list fills both name fields with the capitalised
        names, books under the combined name and looks the volunteer up. */
    method SelectRegisteredVolunteer(first: string, last: string, outcome: LookupOutcome)
      modifies this
      ensures firstName == Capitalize(first) && lastName == Capitalize(last)
      ensures volunteerName == DisplayName(first, last)
      ensures isExistingVolunteer <==> outcome.Found?
      ensures outcome.Found? ==> vId == outcome.id && vRole == outcome.role
      ensures !outcome.Found? ==> vId == old(vId) && vRole == old(vRole)
      ensures Store() == old(Store()) && activeVolunteers == old(activeVolunteers)
      ensures MountOf() == old(MountOf()) && weekOffset == old(weekOffset)
    {
      ChangeFirstName(Capitalize(first));
      ChangeLastName(Capitalize(last));
      volunteerName := DisplayName(first, last);
      RetrieveVolunteer(outcome);
    }

    /** `deleteTimeslot` (lines 228-246). The request carries `vid`, but the
        local filter compares with the component's own `vId` and
        `volunteerName`; once the request has returned, the confirmed claims
        with that key are dropped. The cards are left as they were until
        `RefreshActiveVolunteers` runs on the new list. */
    method DeleteTimeslot(vid: int, slotDate: int, time: string, outcome: FetchOutcome)
      modifies this
      ensures old(Valid()) ==> Valid()
      ensures confirmed == Slots.DeleteTimeslot(old(confirmed), ClickKey(old(Who()), slotDate, time), outcome)
      ensures pending == old(pending) && ProfileOf() == old(ProfileOf())
      ensures MountOf() == old(MountOf()) && weekOffset == old(weekOffset)
      ensures activeVolunteers == old(activeVolunteers)
    {
      DeletePreservesWf(Store(), ClickKey(Who(), slotDate, time), outcome);
      if outcome != Threw {
        confirmed := Without(confirmed, ClickKey(Who(), slotDate, time));
      }
    }

    /** Steps 3 to 7 of `handleSlotClick` (lines 262-311) on the cell of day
        `slotDate` and timeslot `time`: ignored under a blank name; otherwise
        a staged claim with the cell's key is unstaged, else a confirmed one
        is deleted, else a new claim is staged. The lists end as `Click`
        says, and the well-formedness of the store is kept. */
    method ClickCell(slotDate: int, time: string, outcome: FetchOutcome) returns (action: ClickAction)
      modifies this
      ensures action == Resolve(old(Store()), old(Who()), slotDate, time)
      ensures Store() == Click(old(Store()), old(Who()), slotDate, time, outcome)
      ensures old(Valid()) ==> Valid()
      ensures ProfileOf() == old(ProfileOf()) && activeVolunteers == old(activeVolunteers)
      ensures MountOf() == old(MountOf()) && weekOffset == old(weekOffset)
    {
      if Trim(volunteerName) == "" {
        return Ignored;
      }
      var k := ClickKey(Who(), slotDate, time);
      ghost var wasValid := Valid();
      if wasValid {
        ClickPreservesWf(Store(), Who(), slotDate, time, outcome);
      }
      var existingNew := Find(pending, c => Matches(c, k));
      var existingRegistered := Find(confirmed, c => Matches(c, k));
      if existingNew.Some? {
        pending := Without(pending, k);
        action := Unstaged;
      } else if existingRegistered.Some? {
        DeleteTimeslot(vId, slotDate, time, outcome);
        action := Deleted;
      } else {
        pending := pending + [NewClaim(Who(), slotDate, time)];
        action := Staged;
      }
    }

    /** `handleSlotClick` (lines 248-312) on grid column `index` of the week
        shown, on day `today`: the cell is the day `SlotDate` gives for the
        week offset, read before the click. */
    method SlotClick(index: int, time: string, today: int, outcome: FetchOutcome) returns (action: ClickAction)
      modifies this
      ensures action == Resolve(old(Store()), old(Who()), SlotDate(today, old(weekOffset), index), time)
      ensures Store() == Click(old(Store()), old(Who()), SlotDate(today, old(weekOffset), index), time, outcome)
      ensures old(Valid()) ==> Valid()
      ensures ProfileOf() == old(ProfileOf()) && activeVolunteers == old(activeVolunteers)
      ensures MountOf() == old(MountOf()) && weekOffset == old(weekOffset)
    {
      action := ClickCell(SlotDate(today, weekOffset, index), time, outcome);
    }

    /** The local part of `handleRegisterTimeslots` (lines 393-425): the
        register requests are not awaited and their answers are not looked
        at, so the staged claims always join the confirmed ones, the staging
        list empties. */
    method RegisterTimeslots()
      modifies this
      ensures Store() == Register(old(Store())) && Valid()
      ensures ProfileOf() == old(ProfileOf()) && activeVolunteers == old(activeVolunteers)
      ensures MountOf() == old(MountOf()) && weekOffset == old(weekOffset)
    {
      confirmed, pending := confirmed + pending, [];
    }

    /** `toggleVolunteerCard` (lines 387-391). */
    method ToggleVolunteerCard(name: string)
      modifies this
      ensures activeVolunteers == Toggle(old(activeVolunteers), name)
      ensures Store() == old(Store()) && ProfileOf() == old(ProfileOf())
      ensures MountOf() == old(MountOf()) && weekOffset == old(weekOffset)
    {
      activeVolunteers := Toggle(activeVolunteers, name);
    }

    /** The "previous week" button (line 486). */
    method PreviousWeek()
      modifies this
      ensures weekOffset == old(weekOffset) - 1
      ensures Store() == old(Store()) && ProfileOf() == old(ProfileOf())
      ensures MountOf() == old(MountOf()) && activeVolunteers == old(activeVolunteers)
    {
      weekOffset := weekOffset - 1;
    }

    /** The "next week" button (line 496). */
    method NextWeek()
      modifies this
      ensures weekOffset == old(weekOffset) + 1
      ensures Store() == old(Store()) && ProfileOf() == old(ProfileOf())
      ensures MountOf() == old(MountOf()) && activeVolunteers == old(activeVolunteers)
    {
      weekOffset := weekOffset + 1;
    }
  }
}
