# Weekly volunteer schedule: a verified model

This Dafny model covers the client-side core of the volunteer scheduling app's weekly grid, the `WeeklySchedule` component. A volunteer is identified by first and last name. The booking name is then set, and the grid cells become clickable.

The component keeps two lists of claims (one volunteer on one two-hour timeslot of one day):
- the confirmed claims loaded from the server (`selectedSlots`);
- the claims staged locally (`newSelectedSlots`).

A click on a cell acts in this order:
1. it unstages a staged claim of the current volunteer;
2. otherwise it deletes a confirmed one;
3. otherwise it stages a new one.

The sync button folds the staged claims into the confirmed ones. Around this store sit the week-window date arithmetic (the Sunday that starts the displayed week, the seven `DD/MM` column headers and the `YYYY-MM-DD` keys) and the views derived from the lists:
- the names shown in a cell;
- a volunteer's hours for the week;
- the volunteer cards of the week;
- `isSlotSelected`, whether a confirmed claim of the current volunteer is found for a cell. The grid passes it to each cell as `isSelected` (line 659).

Modules:
- `Seqs`. Sequence helpers: `find`, `filter`, `map`, de-duplication in first-occurrence order (`Array.from(new Set(...))`).
- `Text`. The JavaScript string operations the component uses: number to string, `padStart`, `split`, `trim`, case mapping, and the component's `capitalize`.
- `Calendar`. Dates as day numbers (day 0 is Thursday 1970-01-01) and the proleptic Gregorian conversion in both directions. Also `getDay` and the ECMAScript `MakeDay`, which normalises out-of-range days and months. `NewDate` is `new Date(y, m, d)`. Like every `new Date` call with year and month arguments, it first reads a year from 0 to 99 as 1900 + y, then applies `MakeDay`. The one-argument copy `new Date(t)` (lines 255, 259, 343, 346, 451 and 455) copies `t` unchanged, and the model uses the day number itself. `setDate` applies `MakeDay` to the date's own year and does no such remapping.
- `Week`. `formatDateLocal`, the ISO date part, the `DD/MM` headers, the start of the week, the date of a grid column, `obtainDateArr` and `getWeekDateRange`.
- `Slots`. Claims, their key (day, timeslot, volunteer id, lower-cased name) and the store transitions as functions of the two lists.
- `Views`. `getVolunteersForSlot`, `getVolunteerStats`, `getActiveVolunteersForWeek`, `toggleVolunteerCard` and `isSlotSelected`.
- `Schedule`. The component as the class `WeeklySchedule`. Its fields are the state hooks. Each method is one event handler, applied as one atomic step.

Two kinds of input become parameters:
- the clock reading (`today`, a day number);
- the way an awaited request ended (`FetchOutcome`, `LookupOutcome`).

The effect that recomputes the cards (lines 146-149) is the method `RefreshActiveVolunteers`. It runs after any handler that changed the confirmed claims or the week offset; until then, the cards are those of the earlier state.

Two behaviours of the code are easy to misread:
- Deleting a confirmed slot. The click handler shows the toast "Time slot has been permanently deleted!" (line 297) without waiting for the request. The local removal happens only when the request returns, whether or not the response is ok. A request that throws leaves the list as it was, although the toast has already been shown. `Slots.ClickDeletes` states this behaviour.
- A lookup that answers with an empty list throws on `data[0].id` before the id and role are set, so both are kept (`Schedule.WeeklySchedule.RetrieveVolunteer`).

## Model

| member | source | states |
|---|---|---|
| Text.Capitalize | src/app/components/WeeklySchedule.tsx:60-63 | capitalising keeps the length |
| Text.CapitalizeIdempotent | src/app/components/WeeklySchedule.tsx:60-63 | capitalising twice is capitalising once |
| Text.LowerCapitalize | src/app/components/WeeklySchedule.tsx:60-63 | a capitalised name lower-cases to the same string as the original, so name matching does not see it |
| Text.CapitalizeBlank | src/app/components/WeeklySchedule.tsx:60-63 | a capitalised string is blank exactly when the original is |
| Text.TrimEmptyIffBlank | src/app/components/WeeklySchedule.tsx:249-251 | `!s.trim()` holds exactly for strings made only of whitespace |
| Text.SplitPair | src/app/components/WeeklySchedule.tsx:139 | two separator-free pieces joined by the separator split back into exactly those two pieces |
| Text.JoinSplit | src/app/components/WeeklySchedule.tsx:122 | joining the pieces of a split with the separator gives back the string |
| Text.Pad2Injective | src/app/components/WeeklySchedule.tsx:336-337 | distinct month or day numbers below 100 pad to distinct two-character fields |
| Text.IntToStringInjective | src/app/components/WeeklySchedule.tsx:335 | distinct integers render differently |
| Calendar.CivilFromDays | src/app/components/WeeklySchedule.tsx:335-337 | the year, month and day read off a day number form a valid date that converts back to that day number |
| Calendar.CivilFromDaysRoundTrip | src/app/components/WeeklySchedule.tsx:335-337 | converting a valid date to a day number and back gives the date |
| Calendar.CivilFromDaysInjective | src/app/components/WeeklySchedule.tsx:335-337 | different days have different dates |
| Calendar.CivilFromDaysSucc | src/app/components/WeeklySchedule.tsx:259-260 | the day after day n has the calendar successor of day n's date, across month and year ends |
| Calendar.NewDateOfValid | src/app/components/WeeklySchedule.tsx:325-328 | `new Date(y, m - 1, d)` of a valid date is that date's day number, except that a year from 0 to 99 gives the same month and day in 1900 + y |
| Calendar.NewDateOfCivil | src/app/components/WeeklySchedule.tsx:436-437 | rebuilding a day from its own year, month and day of month gives back the day, for years outside 0 to 99 |
| Calendar.NewDateTwoDigitYear | src/app/components/WeeklySchedule.tsx:325-328 | `new Date(y, m, d)` with a year from 0 to 99 lands no earlier than January 1 of 1900 + y |
| Calendar.SetDateShift | src/app/components/WeeklySchedule.tsx:437 | `setDate(getDate() + k)` moves a date by k days, whatever month that lands in |
| Calendar.WeekdayShift | src/app/components/WeeklySchedule.tsx:256 | moving a day k days on moves its `getDay` k places on, modulo 7 |
| Week.FormatDateLocalInjective | src/app/components/WeeklySchedule.tsx:334-339 | different days have different `formatDateLocal` keys |
| Week.IsoDateFourDigitYear | src/app/components/WeeklySchedule.tsx:129 | for four-digit years the ISO date part equals the local key |
| Week.SplitDayMonth | src/app/components/WeeklySchedule.tsx:122 | `header.split("/")` of a column header recovers its padded day and month |
| Week.DayMonthDistinct | src/app/components/WeeklySchedule.tsx:438-440 | headers of days less than 364 days apart differ |
| Week.StartOfWeekIsSunday | src/app/components/WeeklySchedule.tsx:255-256 | the start of the week is `today - weekday(today) + 7 * offset`, a Sunday, and its week holds `today + 7 * offset` |
| Week.SlotDateIsColumn | src/app/components/WeeklySchedule.tsx:259-260 | column `index` is the day `index` days after the week's Sunday |
| Week.SlotDateNextWeek | src/app/components/WeeklySchedule.tsx:256 | each column of the next week is seven days after this week's |
| Week.DiffDateShift | src/app/components/WeeklySchedule.tsx:435-441 | `getDiffDate(k)`, built from the fields of day t, renders the header of the day k after `new Date` of those fields; outside the years 0 to 99 that is day t + k |
| Week.HeaderDayIsColumn | src/app/components/WeeklySchedule.tsx:434-468 | the day header i renders is column i's date when the week's Sunday is outside the years 0 to 99, and otherwise the day i after the same month and day in 1900 + y |
| Week.WeekDateRangeSpec | src/app/components/WeeklySchedule.tsx:447-470 | `dateArr` has seven entries, entry i being the `DD/MM` header of the day i after `new Date` of the Sunday's fields; when that Sunday is outside the years 0 to 99, it is the header of column i of the week |
| Week.WeekDateRangeNextWeek | src/app/components/WeeklySchedule.tsx:452 | one week on, every header is that of the day seven days later, when the new Sunday is outside the years 0 to 99 |
| Week.WeekDatesConsecutive | src/app/components/WeeklySchedule.tsx:434-445 | the seven headers are pairwise different, and each column's date is the calendar successor of the one before |
| Slots.MatchInIff | src/app/components/WeeklySchedule.tsx:263-278 | the `find` with the four-way comparison succeeds exactly when some claim has the clicked key |
| Slots.WithoutMembers | src/app/components/WeeklySchedule.tsx:283-291 | the filter keeps exactly the claims without the key, and leaves none with it |
| Slots.ClickBlankInert | src/app/components/WeeklySchedule.tsx:249-251 | under a blank name (which includes the `""` the name handlers leave) a click is ignored and changes neither list |
| Slots.ClickStagesOne | src/app/components/WeeklySchedule.tsx:300-311 | a click on a cell whose key is in neither list appends one claim with the current id, name and role, and leaves confirmed alone |
| Slots.DoubleClickRestores | src/app/components/WeeklySchedule.tsx:280-311 | clicking an empty cell twice restores both lists, and the second click unstages |
| Slots.ClickDeletes | src/app/components/WeeklySchedule.tsx:294-298 | a click on a key matched only among confirmed claims leaves the staged claims alone. Once the delete returns, ok or not, exactly the claims with the key are gone and every other key keeps its claims in order. A request that throws changes nothing |
| Slots.ClickOtherKeys | src/app/components/WeeklySchedule.tsx:248-312 | for every key but the clicked one, both lists keep exactly their claims in order |
| Slots.ClickPreservesWf | src/app/components/WeeklySchedule.tsx:263-311 | from a store whose staged keys are distinct and disjoint from the confirmed keys, every click keeps it so |
| Slots.DeletePreservesWf | src/app/components/WeeklySchedule.tsx:228-246 | a delete keeps the store well formed and only ever removes confirmed claims |
| Slots.RegisterMerges | src/app/components/WeeklySchedule.tsx:421-424 | after the sync nothing is staged, the confirmed claims are the old confirmed and staged ones, and per key the old confirmed claims come first, then the staged ones |
| Slots.StageSyncUnclick | src/app/components/WeeklySchedule.tsx:393-425 | staging a claim, syncing and clicking the cell again deletes it. Once the delete request returns, the lists are what a sync without the click leaves; if it throws, the synced claim stays confirmed |
| Views.InCellIff | src/app/components/WeeklySchedule.tsx:356 | the cell filter by timeslot and local date key holds exactly for claims on that day and timeslot |
| Views.CellNamesSpec | src/app/components/WeeklySchedule.tsx:353-359 | the names of a cell are distinct, and a name is listed exactly when a claim with that name is on that day and timeslot |
| Views.CellNamesConfirmedFirst | src/app/components/WeeklySchedule.tsx:351-358 | names carried by confirmed claims are listed before names carried only by staged ones |
| Views.VolunteersForSlotSpec | src/app/components/WeeklySchedule.tsx:341-360 | `getVolunteersForSlot(i, t)` lists each name once. A name is listed exactly when a confirmed or staged claim is on column i's day and timeslot t, confirmed names first |
| Views.RegisterKeepsCells | src/app/components/WeeklySchedule.tsx:351 | the sync leaves every cell showing the same names |
| Views.HeaderKeyOf | src/app/components/WeeklySchedule.tsx:122-123 | a header turned into a key is the local key of the same month and day in the given year |
| Views.WeekKeysAt | src/app/components/WeeklySchedule.tsx:120-125 | key i of the week is header i's month and day stamped with today's year |
| Views.WeekKeysMember | src/app/components/WeeklySchedule.tsx:368-373 | a day's local key is among the week's keys exactly when the day has a header's month and day and today's year |
| Views.StampedWeekInYear | src/app/components/WeeklySchedule.tsx:365-373 | when the whole week lies in today's year, and that year is outside 0 to 99, the keys are exactly the seven column days |
| Views.StampedWeekOtherYear | src/app/components/WeeklySchedule.tsx:365-373 | a day in another year than today's never matches a week key |
| Views.VolunteerStats | src/app/components/WeeklySchedule.tsx:381-384 | hours are twice the shifts, and there are no more shifts than confirmed claims |
| Views.VolunteerStatsSpec | src/app/components/WeeklySchedule.tsx:375-379 | shifts count the confirmed claims of the name, in any letter case, on a stamped week day |
| Views.VolunteerStatsRegister | src/app/components/WeeklySchedule.tsx:375-379 | staged claims never count, and the sync adds exactly the staged claims that count |
| Views.ActiveVolunteersClosed | src/app/components/WeeklySchedule.tsx:134-141 | every card is closed, and there are no more cards than claims |
| Views.ActiveVolunteersSpec | src/app/components/WeeklySchedule.tsx:116-144 | with names and roles free of the pipe character, the cards are distinct and are exactly the closed (name, role) pairs of the claims whose ISO date is a week key |
| Views.ActiveVolunteersPipeName | src/app/components/WeeklySchedule.tsx:136-139 | a name holding the pipe character is cut there: the card shows the part before it, and the part after it as the role |
| Views.InWeekFourDigitYear | src/app/components/WeeklySchedule.tsx:129-130 | for four-digit years the cards' week filter is the stamped week |
| Views.ToggleSpec | src/app/components/WeeklySchedule.tsx:387-391 | exactly the cards with that name flip; names, roles and order stay |
| Views.ToggleInvolution | src/app/components/WeeklySchedule.tsx:387-391 | toggling twice restores the cards |
| Views.CheckedDateMonth | src/app/components/WeeklySchedule.tsx:325-328 | outside the years 0 to 99, the day checked is `new Date` of the mount year and month with the displayed column's day of month |
| Views.CheckedDateSameMonth | src/app/components/WeeklySchedule.tsx:325-328 | outside the years 0 to 99, when the column lies in the mount month, the day checked is the column's day |
| Views.CheckedDateOtherMonth | src/app/components/WeeklySchedule.tsx:325-328 | outside the years 0 to 99, when the column lies in another month and its day of month exists in the mount month, the day checked is that day of month in the mount month, not the column |
| Views.CheckedDateMissesOtherMonth | src/app/components/WeeklySchedule.tsx:325-328 | outside the years 0 to 99, when the column lies in another month, the day checked is never the column, also when its day of month does not exist in the mount month and the constructor carries it into the next month |
| Calendar.FirstsDiffer | src/app/components/WeeklySchedule.tsx:328 | the first days of two different months are different days |
| Views.IsSlotSelectedMissesColumn | src/app/components/WeeklySchedule.tsx:324-332 | `isSlotSelected` returns false for a claim on a column of the mount week that lies in another month, in any year and whether or not the column's day of month exists in the mount month, although the corrected check finds it |
| Views.IsSlotSelectedTwoDigitYear | src/app/components/WeeklySchedule.tsx:324-332 | mounted in a year from 0 to 99, `isSlotSelected` returns false for a claim on any column of the mount week, because the day checked lies in 1900 + y |
| Views.IsSlotSelectedIgnoresOffset | src/app/components/WeeklySchedule.tsx:324-332 | in any week but the mount week, outside the years 0 to 99, `isSlotSelected` returns false for a claim on the displayed cell of a column whose mount-week day lies in the mount month, while the corrected check finds it |
| Views.IsSlotSelectedMarch1971 | src/app/components/WeeklySchedule.tsx:324-332 | mounted on Monday 1971-03-01 with the week offset at 4, `isSlotSelected` returns true for a claim on the displayed column 0, 1971-03-28: the check puts the mount-week column's day, 1971-02-28, back into March, exactly four weeks on |
| Views.March1971CheckedIsSlot | src/app/components/WeeklySchedule.tsx:325-328 | mounted on 1971-03-01, the day checked for column 0 is column 0 of the week at offset 4 |
| Views.IsSlotSelectedApril1970 | src/app/components/WeeklySchedule.tsx:324-332 | mounted on Wednesday 1970-04-01, the Sunday column shows 1970-03-29, the check looks at 1970-04-29, and `isSlotSelected` returns false for the claim on 1970-03-29 |
| Views.IsSlotSelectedAgreesInMonth | src/app/components/WeeklySchedule.tsx:324-332 | in the mount week, on a column in the mount month and outside the years 0 to 99, the code as written and the corrected check agree |
| Views.IsSlotSelectedIntendedSpec | src/app/components/WeeklySchedule.tsx:324-332 | a cell is selected exactly when a confirmed claim has its key, so exactly when a click with nothing staged there deletes |
| Views.MountColumnIsSlot | src/app/components/WeeklySchedule.tsx:255-260 | the columns of the mount week are the slot dates of offset 0 |
| Schedule.DisplayName | src/app/components/WeeklySchedule.tsx:186 | the booking name is the two parts around a single space |
| Schedule.DisplayNameBlank | src/app/components/WeeklySchedule.tsx:186 | the booking name is blank, and the grid inert, exactly when both name fields are blank |
| Schedule.DisplayNameLower | src/app/components/WeeklySchedule.tsx:186 | the key name of the booking name is the lower-cased first name, a space and the lower-cased last name |
| Schedule.DisplayNameStable | src/app/components/WeeklySchedule.tsx:427-432 | after picking a registered volunteer, a search on the filled fields books under the same name |
| Schedule.WeeklySchedule.SlotSelectedInMountWeek | src/app/components/WeeklySchedule.tsx:324-332 | while the mount week is displayed, on a column in the mount month and outside the years 0 to 99, the value passed as `isSelected` is the corrected selection |
| Schedule.WeeklySchedule.constructor | src/app/components/WeeklySchedule.tsx:151-159 | mounting records today's year, month, day of month and weekday, loads the confirmed claims, stages nothing and shows the week's cards |
| Schedule.WeeklySchedule.RefreshActiveVolunteers | src/app/components/WeeklySchedule.tsx:146-149 | the cards become the closed cards of the current claims and week; nothing else changes |
| Schedule.WeeklySchedule.ChangeFirstName | src/app/components/WeeklySchedule.tsx:191-194 | sets the first name and clears the booking name; nothing else changes |
| Schedule.WeeklySchedule.ChangeLastName | src/app/components/WeeklySchedule.tsx:196-199 | sets the last name and clears the booking name; nothing else changes |
| Schedule.WeeklySchedule.RetrieveVolunteer | src/app/components/WeeklySchedule.tsx:161-182 | the volunteer is marked existing exactly when the lookup found one, whose id and role are then taken; otherwise id and role stay |
| Schedule.WeeklySchedule.FindVolunteer | src/app/components/WeeklySchedule.tsx:184-189 | books under the capitalised name fields, then resolves the volunteer as the lookup says |
| Schedule.WeeklySchedule.SelectRegisteredVolunteer | src/app/components/WeeklySchedule.tsx:427-432 | fills both fields with the capitalised names, books under the combined name and resolves the volunteer |
| Schedule.WeeklySchedule.DeleteTimeslot | src/app/components/WeeklySchedule.tsx:228-246 | once the request returns, the confirmed claims with the component's own id and name on that day and timeslot are gone, whatever id the request carried; a throw changes nothing; the store stays well formed |
| Schedule.WeeklySchedule.ClickCell | src/app/components/WeeklySchedule.tsx:262-311 | the branch taken and the new lists are those `Slots.Resolve` and `Slots.Click` give, and the store stays well formed |
| Schedule.WeeklySchedule.SlotClick | src/app/components/WeeklySchedule.tsx:248-312 | a click on column `index` acts on the cell of that column's date in the displayed week, as `Slots.Click` says |
| Schedule.WeeklySchedule.RegisterTimeslots | src/app/components/WeeklySchedule.tsx:393-425 | the staged claims join the confirmed ones in order and nothing is staged any more, whatever the requests answer |
| Schedule.WeeklySchedule.ToggleVolunteerCard | src/app/components/WeeklySchedule.tsx:387-391 | the cards become `Toggle` of the old cards; nothing else changes |
| Schedule.WeeklySchedule.PreviousWeek | src/app/components/WeeklySchedule.tsx:486 | the week offset goes down by one; nothing else changes |
| Schedule.WeeklySchedule.NextWeek | src/app/components/WeeklySchedule.tsx:496 | the week offset goes up by one; nothing else changes |

## Left out

- The network. The server routes under `src/app/api/` are not part of this model. The requests themselves are left out too: `fetchTimeslots`, `fetchAllVolunteers` and the request bodies of `retrieveVolunteer`, `deleteTimeslot` and `registerTimeslot`. How a request ended is a parameter, and the loaded claims are the constructor's input.
- The server's one-day date shift when it stores and deletes. It is on the server side, and the client never sees it.
- The date parsing of loaded claims (`new Date(item.date)`) and time zones. In the source, the ISO date part (`toISOString`) is the UTC date and `formatDateLocal` the local one. Here every date is a day number in one time zone, and both are rendered from that day number.
- Concurrency: the un-awaited `registerAllSlots` with its `Promise.all` fan-out, overlapping deletes, and the render closures that a handler reads after an `await`. Each handler is one atomic step on the current state.
- `handleRegisterVolunteer` (lines 201-226), the registration of a new volunteer followed by a new lookup. It is a request plus the same lookup that `FindVolunteer` models.
- The unused `isSlotRegistered` (lines 314-322). Nothing calls it.
- The range label built by `toLocaleDateString` (line 459). It is a locale library call.
- Toasts, console logging, the loading flags `isLoadingReg` and `isUpdating`, the list of registered volunteers shown by the dropdown, and all JSX rendering.
- `src/app/components/Timeslot.tsx` and `src/app/page.tsx` are not part of this model. They are rendering and layout.
- Text.Lower and Text.Capitalize: only the ASCII letters are mapped. The source's `toLowerCase`/`toUpperCase` follow the full Unicode case tables, where upper-casing can lengthen a string (`"ßmith"` capitalises to `"SSmith"`), so the length `Text.Capitalize` keeps holds for the ASCII mapping only.
- Calendar.CivilFromDays: JavaScript's date range limit (100,000,000 days either side of 1970) and the Invalid Date value are not modelled. Days are unbounded integers.
- Schedule.WeeklySchedule.RetrieveVolunteer: a lookup that answers with something other than an array is not modelled. The lookup is taken to answer with a list of volunteer records, or not at all.
- Views.StampedWeekInYear, Views.CheckedDateMonth, Views.CheckedDateSameMonth, Views.CheckedDateOtherMonth, Views.IsSlotSelectedAgreesInMonth, Views.IsSlotSelectedIgnoresOffset and Schedule.WeeklySchedule.SlotSelectedInMountWeek: stated for mount years outside 0 to 99. In those years `new Date` reads the year as 1900 + y; `Views.IsSlotSelectedTwoDigitYear` states what the check then returns.
- Week.WeekDateRangeNextWeek and Week.DiffDateShift: the day-for-day statement is for years outside 0 to 99. `Week.HeaderDayIsColumn` states what the headers show in those years.
- The `toDateString` comparison is modelled as equality of day numbers, which is what it amounts to in one time zone.

## Findings

| source | as written | input that shows it | evidently intended | confidence | as-written member | corrected member |
|---|---|---|---|---|---|---|
| src/app/components/WeeklySchedule.tsx:324-332 | `isSlotSelected` shifts the mount date by `index - day`, keeps only the day of month and puts it back into the mount month and year. A column in another month is then looked up on the wrong day | mounted on Wednesday 1970-04-01, column 0 of the grid is Sunday 1970-03-29; the check looks at 1970-04-29, so `isSlotSelected` returns false although the volunteer has a confirmed claim on 1970-03-29 | `isSlotSelected` returns true when a confirmed claim of the current volunteer is on the cell's own date in the displayed week, the date `handleSlotClick` computes | not executed | Views.IsSlotSelectedApril1970 | Views.IsSlotSelectedIntended |
| src/app/components/WeeklySchedule.tsx:324-332 | `isSlotSelected` never reads `weekOffset`, so it always looks at the mount week | mounted on any day, move one week on (`weekOffset` 1) and take a claim on a displayed cell whose mount-week day is in the mount month; `isSlotSelected` looks seven days earlier and returns false. On a column of the mount week in another month it can instead land on the displayed cell (`Views.IsSlotSelectedMarch1971`) | the same corrected check, on the displayed week | not executed | Views.IsSlotSelectedIgnoresOffset | Views.IsSlotSelectedIntended |

`Views.IsSlotSelectedMissesColumn` states the first row in general: the check misses the claim on any column of the mount week that lies in another month, including a day of month that the mount month lacks (mounted on Monday 2024-04-01, column 0 is 2024-03-31 and the check looks at `new Date(2024, 3, 31)`, which is 2024-05-01). `Views.IsSlotSelectedIntendedSpec` proves the corrected check. The class exposes both: `WeeklySchedule.SlotSelected` is what the code returns, and `WeeklySchedule.SlotSelectedIntended` is the corrected selection. `src/app/components/Timeslot.tsx:50` uses the `isSelected` prop only as `isSelected && ""`, which renders nothing, so neither defect is visible on screen at present. They are defects in the value returned.
