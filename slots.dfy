/** The slot store of the weekly schedule: the confirmed claims loaded from
    the server (`selectedSlots`) and the claims staged locally
    (`newSelectedSlots`), and the transitions a click on a grid cell, the
    delete request and the sync of the staged claims make on them. Each
    handler is one atomic transition; how an awaited request ended is a
    parameter. */
module Slots {
  import opened Seqs
  import opened Text

  /** A claim of one volunteer on one timeslot of one day (`SelectedSlot`,
      lines 28-34); the day is a day number. */
  datatype Claim = Claim(date: int, timeslot: string, vId: int, vName: string, role: string)

  /** What identifies a claim: the day (`toDateString`), the timeslot label,
      the volunteer id and the lower-cased volunteer name. */
  datatype Key = Key(date: int, timeslot: string, vId: int, name: string)

  function KeyOf(c: Claim): Key
  {
    Key(c.date, c.timeslot, c.vId, Lower(c.vName))
  }

  /** The four-way comparison written out in `find` and `filter` (lines
      263-268, 272-277, 284-288, 241). */
  predicate Matches(c: Claim, k: Key)
  {
    c.date == k.date && c.timeslot == k.timeslot && c.vId == k.vId && Lower(c.vName) == k.name
  }

  /** The current volunteer as the component holds it: `vId`,
      `volunteerName` and `vRole`. */
  datatype Identity = Identity(vId: int, name: string, role: string)

  /** The key a click by `who` on the cell of day `slotDate` and timeslot
      `time` looks for. */
  function ClickKey(who: Identity, slotDate: int, time: string): Key
  {
    Key(slotDate, time, who.vId, Lower(who.name))
  }

  /** The claim a click stages (lines 302-308). */
  function NewClaim(who: Identity, slotDate: int, time: string): Claim
  {
    Claim(slotDate, time, who.vId, who.name, who.role)
  }

  datatype Lists = Lists(confirmed: seq<Claim>, pending: seq<Claim>)

  /** The staged keys are pairwise different and none of them is a
      confirmed key. */
  predicate Wf(s: Lists)
  {
    DistinctBy(s.pending, KeyOf)
    && forall c, d :: c in s.pending && d in s.confirmed ==> KeyOf(c) != KeyOf(d)
  }

  /** `find(...)` returned a claim. */
  predicate MatchIn(s: seq<Claim>, k: Key)
  {
    Find(s, c => Matches(c, k)).Some?
  }

  /** The claims of `s` that do not match `k`, in order. */
  function Without(s: seq<Claim>, k: Key): seq<Claim>
  {
    Filter(s, c => !Matches(c, k))
  }

  /** The claims of `s` that match `k`, in order. */
  function Only(s: seq<Claim>, k: Key): seq<Claim>
  {
    Filter(s, c => Matches(c, k))
  }

  /** How an awaited request ended. */
  datatype FetchOutcome = ResponseOk | ResponseNotOk | Threw

  /** `deleteTimeslot` (lines 228-246): the filter runs once the request has
      returned, whatever its status; a request that throws changes nothing. */
  function DeleteTimeslot(confirmed: seq<Claim>, k: Key, outcome: FetchOutcome): seq<Claim>
  {
    if outcome == Threw then confirmed else Without(confirmed, k)
  }

  datatype ClickAction = Ignored | Unstaged | Deleted | Staged

  /** The branch `handleSlotClick` (lines 248-312) takes: a blank name
      ignores the click, then a staged match is unstaged, else a confirmed
      match is deleted, else a claim is staged. */
  function Resolve(s: Lists, who: Identity, slotDate: int, time: string): ClickAction
  {
    var k := ClickKey(who, slotDate, time);
    if Trim(who.name) == "" then Ignored
    else if MatchIn(s.pending, k) then Unstaged
    else if MatchIn(s.confirmed, k) then Deleted
    else Staged
  }

  /** The lists after the click. */
  function Click(s: Lists, who: Identity, slotDate: int, time: string, outcome: FetchOutcome): Lists
  {
    var k := ClickKey(who, slotDate, time);
    match Resolve(s, who, slotDate, time)
    case Ignored => s
    case Unstaged => s.(pending := Without(s.pending, k))
    case Deleted => s.(confirmed := DeleteTimeslot(s.confirmed, k, outcome))
    case Staged => s.(pending := s.pending + [NewClaim(who, slotDate, time)])
  }

  /** `handleRegisterTimeslots` (lines 393-425), its local part: the staged
      claims are appended to the confirmed ones and the staging list is
      emptied. */
  function Register(s: Lists): Lists
  {
    Lists(s.confirmed + s.pending, [])
  }

  /** `find` succeeds exactly when some claim has the key. */
  lemma MatchInIff(s: seq<Claim>, k: Key)
    ensures MatchIn(s, k) <==> exists c :: c in s && KeyOf(c) == k
  {
    if MatchIn(s, k) {
      var c := Find(s, c => Matches(c, k)).value;
      assert c in s && KeyOf(c) == k;
    }
  }

  lemma MatchInAppend(s: seq<Claim>, c: Claim, k: Key)
    ensures MatchIn(s + [c], k) <==> MatchIn(s, k) || KeyOf(c) == k
  {
    MatchInIff(s + [c], k);
    MatchInIff(s, k);
  }

  /** What survives `Without` is exactly the claims without the key. */
  lemma WithoutMembers(s: seq<Claim>, k: Key)
    ensures forall c :: c in Without(s, k) <==> c in s && KeyOf(c) != k
    ensures !MatchIn(Without(s, k), k)
  {
    MatchInIff(Without(s, k), k);
  }

  /** A blank name (`!volunteerName.trim()`, lines 249-251) makes the grid
      inert: nothing changes, whatever the click. */
  lemma ClickBlankInert(s: Lists, who: Identity, slotDate: int, time: string, outcome: FetchOutcome)
    requires AllWhitespace(who.name)
    ensures Resolve(s, who, slotDate, time) == Ignored
    ensures Click(s, who, slotDate, time, outcome) == s
  {
    TrimEmptyIffBlank(who.name);
  }

  /** A click with a non-blank name on a cell whose key is in neither list
      stages exactly one claim carrying the current id, name and role, and
      leaves the confirmed list alone. */
  lemma ClickStagesOne(s: Lists, who: Identity, slotDate: int, time: string, outcome: FetchOutcome)
    requires !AllWhitespace(who.name)
    requires forall c :: c in s.pending + s.confirmed ==> KeyOf(c) != ClickKey(who, slotDate, time)
    ensures Resolve(s, who, slotDate, time) == Staged
    ensures Click(s, who, slotDate, time, outcome).confirmed == s.confirmed
    ensures Click(s, who, slotDate, time, outcome).pending
      == s.pending + [Claim(slotDate, time, who.vId, who.name, who.role)]
  {
    TrimEmptyIffBlank(who.name);
    MatchInIff(s.pending, ClickKey(who, slotDate, time));
    MatchInIff(s.confirmed, ClickKey(who, slotDate, time));
  }

  /** Clicking an empty cell twice restores both lists. */
  lemma DoubleClickRestores(s: Lists, who: Identity, slotDate: int, time: string, o1: FetchOutcome, o2: FetchOutcome)
    requires !AllWhitespace(who.name)
    requires forall c :: c in s.pending + s.confirmed ==> KeyOf(c) != ClickKey(who, slotDate, time)
    ensures Resolve(Click(s, who, slotDate, time, o1), who, slotDate, time) == Unstaged
    ensures Click(Click(s, who, slotDate, time, o1), who, slotDate, time, o2) == s
  {
    var k := ClickKey(who, slotDate, time);
    ClickStagesOne(s, who, slotDate, time, o1);
    var c := NewClaim(who, slotDate, time);
    var s1 := Click(s, who, slotDate, time, o1);
    MatchInAppend(s.pending, c, k);
    FilterAppend(s.pending, [c], x => !Matches(x, k));
    FilterKeepsAll(s.pending, x => !Matches(x, k));
    assert Without(s1.pending, k) == s.pending;
  }

  /** A click on a cell matched only among the confirmed claims leaves the
      staged ones alone. Once the delete request has returned, ok or not,
      exactly the confirmed claims with the key are gone and every other key
      keeps its claims in their order; a request that throws changes
      nothing. */
  lemma ClickDeletes(s: Lists, who: Identity, slotDate: int, time: string, outcome: FetchOutcome)
    requires !AllWhitespace(who.name)
    requires forall c :: c in s.pending ==> KeyOf(c) != ClickKey(who, slotDate, time)
    requires exists c :: c in s.confirmed && KeyOf(c) == ClickKey(who, slotDate, time)
    ensures Resolve(s, who, slotDate, time) == Deleted
    ensures Click(s, who, slotDate, time, outcome).pending == s.pending
    ensures outcome == Threw ==> Click(s, who, slotDate, time, outcome).confirmed == s.confirmed
    ensures outcome != Threw ==> forall c ::
      c in Click(s, who, slotDate, time, outcome).confirmed <==> c in s.confirmed && KeyOf(c) != ClickKey(who, slotDate, time)
    ensures outcome != Threw ==> forall k' :: k' != ClickKey(who, slotDate, time) ==>
      Only(Click(s, who, slotDate, time, outcome).confirmed, k') == Only(s.confirmed, k')
  {
    var k := ClickKey(who, slotDate, time);
    TrimEmptyIffBlank(who.name);
    MatchInIff(s.pending, k);
    MatchInIff(s.confirmed, k);
    WithoutMembers(s.confirmed, k);
    forall k' | k' != k ensures Only(Without(s.confirmed, k), k') == Only(s.confirmed, k') {
      FilterFilter(s.confirmed, x => !Matches(x, k), x => Matches(x, k'));
    }
  }

  /** A click changes nothing about any other key: for every key but the
      clicked one, both lists keep exactly their claims, in order. */
  lemma ClickOtherKeys(s: Lists, who: Identity, slotDate: int, time: string, outcome: FetchOutcome, k': Key)
    requires k' != ClickKey(who, slotDate, time)
    ensures Only(Click(s, who, slotDate, time, outcome).pending, k') == Only(s.pending, k')
    ensures Only(Click(s, who, slotDate, time, outcome).confirmed, k') == Only(s.confirmed, k')
  {
    var k := ClickKey(who, slotDate, time);
    match Resolve(s, who, slotDate, time)
    case Ignored =>
    case Unstaged =>
      FilterFilter(s.pending, x => !Matches(x, k), x => Matches(x, k'));
    case Deleted =>
      FilterFilter(s.confirmed, x => !Matches(x, k), x => Matches(x, k'));
    case Staged =>
      FilterAppend(s.pending, [NewClaim(who, slotDate, time)], x => Matches(x, k'));
  }

  /** From any state whose staged keys are distinct and disjoint from the
      confirmed keys, every click keeps it so. */
  lemma ClickPreservesWf(s: Lists, who: Identity, slotDate: int, time: string, outcome: FetchOutcome)
    requires Wf(s)
    ensures Wf(Click(s, who, slotDate, time, outcome))
  {
    var k := ClickKey(who, slotDate, time);
    var t := Click(s, who, slotDate, time, outcome);
    match Resolve(s, who, slotDate, time)
    case Ignored =>
    case Unstaged =>
      FilterPreservesDistinct(s.pending, x => !Matches(x, k), KeyOf);
    case Deleted =>
    case Staged =>
      var c := NewClaim(who, slotDate, time);
      MatchInIff(s.pending, k);
      MatchInIff(s.confirmed, k);
      assert KeyOf(c) == k;
      forall i, j | 0 <= i < j < |t.pending| ensures KeyOf(t.pending[i]) != KeyOf(t.pending[j]) {
        if j == |s.pending| {
          assert t.pending[i] == s.pending[i];
        } else {
          assert t.pending[i] == s.pending[i] && t.pending[j] == s.pending[j];
        }
      }
  }

  /** After the sync the staging list is empty, so the store is well formed,
      and every claim, staged or confirmed, is now confirmed. */
  lemma RegisterMerges(s: Lists)
    ensures Wf(Register(s)) && Register(s).pending == []
    ensures forall c :: c in Register(s).confirmed <==> c in s.confirmed || c in s.pending
    ensures forall k :: Only(Register(s).confirmed, k) == Only(s.confirmed, k) + Only(s.pending, k)
  {
    forall k ensures Only(Register(s).confirmed, k) == Only(s.confirmed, k) + Only(s.pending, k) {
      FilterAppend(s.confirmed, s.pending, x => Matches(x, k));
    }
  }

  /** A claim appended after claims without its key is found, and the
      filter takes exactly it away again. */
  lemma WithoutLast(base: seq<Claim>, c: Claim, k: Key)
    requires forall x :: x in base ==> KeyOf(x) != k
    requires KeyOf(c) == k
    ensures MatchIn(base + [c], k)
    ensures Without(base + [c], k) == base
  {
    MatchInAppend(base, c, k);
    FilterAppend(base, [c], x => !Matches(x, k));
    forall i | 0 <= i < |base| ensures !Matches(base[i], k) {
      assert base[i] in base;
    }
    FilterKeepsAll(base, x => !Matches(x, k));
  }

  /** Staging a claim, syncing, and clicking the same cell again deletes the
      claim just confirmed: when the request returns, the lists are those a
      sync without the click would have left. When it throws, the claim
      stays confirmed. */
  lemma StageSyncUnclick(s: Lists, who: Identity, slotDate: int, time: string, o1: FetchOutcome, o2: FetchOutcome)
    requires !AllWhitespace(who.name)
    requires forall c :: c in s.pending + s.confirmed ==> KeyOf(c) != ClickKey(who, slotDate, time)
    ensures Resolve(Register(Click(s, who, slotDate, time, o1)), who, slotDate, time) == Deleted
    ensures o2 != Threw ==> Click(Register(Click(s, who, slotDate, time, o1)), who, slotDate, time, o2) == Register(s)
    ensures o2 == Threw ==>
      Click(Register(Click(s, who, slotDate, time, o1)), who, slotDate, time, o2)
      == Lists(Register(s).confirmed + [NewClaim(who, slotDate, time)], [])
  {
    var k := ClickKey(who, slotDate, time);
    var c := NewClaim(who, slotDate, time);
    var base := s.confirmed + s.pending;
    ClickStagesOne(s, who, slotDate, time, o1);
    var r := Register(Click(s, who, slotDate, time, o1));
    assert r == Lists(base + [c], []);
    assert forall x :: x in base ==> x in s.pending + s.confirmed;
    WithoutLast(base, c, k);
    MatchInIff([], k);
    TrimEmptyIffBlank(who.name);
  }

  /** A delete request on its own only ever removes confirmed claims, so it
      keeps the store well formed. */
  lemma DeletePreservesWf(s: Lists, k: Key, outcome: FetchOutcome)
    ensures Wf(s) ==> Wf(Lists(DeleteTimeslot(s.confirmed, k, outcome), s.pending))
    ensures forall c :: c in DeleteTimeslot(s.confirmed, k, outcome) ==> c in s.confirmed
  {
    WithoutMembers(s.confirmed, k);
  }
}
