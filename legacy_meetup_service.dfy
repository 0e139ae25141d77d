/**
 * The earlier iteration of the meetup service: a case-sensitive duplicate
 * check, registrations gathered by concatenating the attribute matches with
 * the supplied list as given and taking `distinct()`, and the same lookup
 * and delete shape with its own not-found error.
 */
module LegacyMeetupService {
  import opened Domain
  import opened Text
  import opened OrderedSets
  import opened Persistence
  import MeetupService
  import RegistrationService

  /** No two stored meetups share exactly the event and the date-time. */
  predicate UniqueExactSlots(ms: map<int, Meetup>) {
    forall j, k | j in ms && k in ms && ms[j].event == ms[k].event && ms[j].meetupDate == ms[k].meetupDate :: j == k
  }

  /** The registrations `save` stores: matches, then the supplied list, then `distinct()`. */
  function LegacyRegistrations(regs: map<int, Registration>, nextRegistrationId: int, meetup: Meetup): (r: seq<Registration>)
    ensures NoDuplicates(r)
    ensures forall y :: y in r <==>
              y in FindByRegistrationAttributeIgnoringCase(regs, nextRegistrationId, meetup.registrationAttribute)
              || (meetup.registrations.Some? && y in meetup.registrations.value)
  {
    Distinct(FindByRegistrationAttributeIgnoringCase(regs, nextRegistrationId, meetup.registrationAttribute)
             + MeetupService.Listed(meetup.registrations))
  }

  // ---------------------------------------------------------------------
  // save

  /** The outcome of `save`: refused on an exactly equal slot, else stored. */
  ghost predicate SaveEffect(regs: map<int, Registration>, nextRegistrationId: int, before: map<int, Meetup>, nextMeetupId: int,
                             after: map<int, Meetup>, payload: Meetup, r: Result<Meetup>)
  {
    if ExistsByEventAndMeetupDate(before, payload.event, payload.meetupDate) then
      r == Failure(DuplicatedMeetup) && after == before
    else
      var k := SaveSlot(before.Keys, nextMeetupId, payload.id);
      r == Success(payload.(id := Some(k), registrations := Some(LegacyRegistrations(regs, nextRegistrationId, payload))))
      && after == before[k := r.value]
  }

  method Save(store: Store, meetup: Meetup) returns (r: Result<Meetup>)
    requires store.Valid()
    modifies store
    ensures store.Valid()
    ensures SaveEffect(old(store.registrations), old(store.nextRegistrationId), old(store.meetups), old(store.nextMeetupId),
                       store.meetups, meetup, r)
    ensures store.registrations == old(store.registrations) && store.nextRegistrationId == old(store.nextRegistrationId)
    ensures r.Failure? ==> unchanged(store)
    ensures store.nextMeetupId == if r.Success? then Advance(old(store.nextMeetupId), r.value.id.value) else old(store.nextMeetupId)
    ensures r.Success? && meetup.id.None? ==>
              r.value.id == Some(old(store.nextMeetupId)) && store.nextMeetupId == old(store.nextMeetupId) + 1
  {
    if ExistsByEventAndMeetupDate(store.meetups, meetup.event, meetup.meetupDate) {
      return Failure(DuplicatedMeetup);
    }
    var registrations := RegistrationService.GetByRegistrationAttribute(store, meetup.registrationAttribute);
    ghost var matches := registrations;
    if meetup.registrations.Some? {
      registrations := registrations + meetup.registrations.value;
    }
    assert registrations == matches + MeetupService.Listed(meetup.registrations);
    registrations := Distinct(registrations);
    var saved := store.SaveMeetup(meetup.(registrations := Some(registrations)));
    return Success(saved);
  }

  /**
   * The stored registrations begin with the matches in their own order; a
   * null supplied list contributes nothing.
   */
  lemma SavedRegistrationsShape(regs: map<int, Registration>, nextRegistrationId: int, meetup: Meetup)
    requires IdsMatchKeys(regs)
    ensures FindByRegistrationAttributeIgnoringCase(regs, nextRegistrationId, meetup.registrationAttribute)
              <= LegacyRegistrations(regs, nextRegistrationId, meetup)
    ensures meetup.registrations.None? ==>
              LegacyRegistrations(regs, nextRegistrationId, meetup) == FindByRegistrationAttributeIgnoringCase(regs, nextRegistrationId, meetup.registrationAttribute)
  {
    var matches := FindByRegistrationAttributeIgnoringCase(regs, nextRegistrationId, meetup.registrationAttribute);
    var listed := MeetupService.Listed(meetup.registrations);
    IdsAscendingNoDuplicates(matches);
    DistinctOfDuplicateFree(matches);
    DistinctPrefix(matches, listed);
    if meetup.registrations.None? {
      assert matches + listed == matches;
    }
  }

  lemma SavePreservesUniqueExactSlots(regs: map<int, Registration>, nextRegistrationId: int, before: map<int, Meetup>,
                                      nextMeetupId: int, after: map<int, Meetup>, payload: Meetup, r: Result<Meetup>)
    requires UniqueExactSlots(before)
    requires SaveEffect(regs, nextRegistrationId, before, nextMeetupId, after, payload, r)
    ensures UniqueExactSlots(after)
    ensures r.Failure? <==> ExistsByEventAndMeetupDate(before, payload.event, payload.meetupDate)
  {
  }

  /**
   * Every meetup the case-sensitive check refuses, the current check
   * refuses too; the converse fails for events that differ only in case.
   */
  lemma CaseSensitiveCheckIsWeaker(ms: map<int, Meetup>, event: string, date: LocalDateTime)
    ensures ExistsByEventAndMeetupDate(ms, event, date) ==> ExistsByEventIgnoringCaseAndMeetupDate(ms, event, date)
  {
    if ExistsByEventAndMeetupDate(ms, event, date) {
      var k :| k in ms && ms[k].event == event && ms[k].meetupDate == date;
      assert EqualsIgnoreCase(ms[k].event, event);
    }
  }

  /** A stored "Sync" at the same date-time: only the current check refuses "sync". */
  lemma CaseOnlyDuplicate(date: LocalDateTime)
    ensures !ExistsByEventAndMeetupDate(map[1 := Meetup(Some(1), "Sync", date, None, None)], "sync", date)
    ensures ExistsByEventIgnoringCaseAndMeetupDate(map[1 := Meetup(Some(1), "Sync", date, None, None)], "sync", date)
  {
    var ms := map[1 := Meetup(Some(1), "Sync", date, None, None)];
    assert "Sync" != "sync" by { assert "Sync"[0] != "sync"[0]; }
    assert Lower("Sync") == "sync";
    assert Lower("sync") == "sync";
    assert EqualsIgnoreCase(ms[1].event, "sync");
  }

  /**
   * When every supplied registration is the stored record for its id, the
   * earlier reconciliation (no lookup) and the current one (lookup by id)
   * store the same registrations.
   */
  lemma AgreesWithCurrentReconcile(regs: map<int, Registration>, matches: seq<Registration>, explicit: Option<seq<Registration>>)
    requires forall x | x in MeetupService.Listed(explicit) :: x.id.Some? && x.id.value in regs && regs[x.id.value] == x
    ensures MeetupService.Reconcile(regs, matches, explicit) == Success(Distinct(matches + MeetupService.Listed(explicit)))
  {
    var xs := MeetupService.Listed(explicit);
    assert forall i | 0 <= i < |xs| :: MeetupService.Resolves(regs, xs[i]) by {
      forall i | 0 <= i < |xs| ensures MeetupService.Resolves(regs, xs[i]) {
        assert xs[i] in xs;
      }
    }
    var resolved := MeetupService.ResolveAll(regs, xs).value;
    assert resolved == xs by {
      forall i | 0 <= i < |xs| ensures resolved[i] == xs[i] {
        assert xs[i] in xs;
      }
    }
    MeetupService.ReconcileIsDistinctConcat(regs, matches, explicit, resolved);
  }

  // ---------------------------------------------------------------------
  // getById, delete

  method GetById(store: Store, id: Option<int>) returns (r: Result<Meetup>)
    ensures id.None? ==> r == Failure(IllegalArgument)
    ensures id.Some? && id.value !in store.meetups ==> r == Failure(LegacyMeetupNotFound)
    ensures id.Some? && id.value in store.meetups ==> r == Success(store.meetups[id.value])
  {
    if id.None? {
      return Failure(IllegalArgument);
    }
    if id.value !in store.meetups {
      return Failure(LegacyMeetupNotFound);
    }
    return Success(store.meetups[id.value]);
  }

  method Delete(store: Store, id: Option<int>) returns (r: Outcome)
    requires store.Valid()
    modifies store
    ensures store.Valid()
    ensures id.None? ==> r == Failed(IllegalArgument)
    ensures id.Some? && id.value !in old(store.meetups) ==> r == Failed(LegacyMeetupNotFound)
    ensures r.Failed? ==> unchanged(store)
    ensures id.Some? && id.value in old(store.meetups) ==> r == Done && store.meetups == old(store.meetups) - {id.value}
    ensures store.nextMeetupId == old(store.nextMeetupId)
    ensures store.registrations == old(store.registrations) && store.nextRegistrationId == old(store.nextRegistrationId)
  {
    if id.None? {
      return Failed(IllegalArgument);
    }
    var found := GetById(store, id);
    if found.Failure? {
      return Failed(found.error);
    }
    MeetupAtOwnId(store, id.value);
    store.DeleteMeetup(found.value);
    return Done;
  }
}
