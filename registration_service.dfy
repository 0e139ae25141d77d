/**
 * The registration rule engine: email uniqueness on save and on update, the
 * null-id guard and not-found error of `getById`, delete after a successful
 * lookup, update of an unknown id turned into a save, and lookup by
 * attribute with case ignored.
 *
 * Each service method takes the store it works on; "today" is a parameter.
 */
module RegistrationService {
  import opened Domain
  import opened OrderedSets
  import opened Persistence

  /** No two stored registrations share an email. */
  predicate UniqueEmails(regs: map<int, Registration>) {
    forall j, k | j in regs && k in regs && regs[j].email == regs[k].email :: j == k
  }

  /** What `getById` yields for a table: the null-id guard, then the lookup. */
  function Lookup(regs: map<int, Registration>, id: Option<int>): Result<Registration> {
    if id.None? then Failure(IllegalArgument)
    else if id.value !in regs then Failure(RegistrationNotFound(id.value))
    else Success(regs[id.value])
  }

  /**
   * The condition `verifyDuplicatedEmailWhenTryToUpdate` throws on: the
   * email belongs to a registration stored under another id.
   */
  predicate EmailHeldByAnother(regs: map<int, Registration>, id: int, email: string) {
    exists k | k in regs :: regs[k].email == email && k != id
  }

  /**
   * The source finds "the" holder with `findByEmail(email).get()` and
   * compares its id; under unique emails that is the same test as
   * `EmailHeldByAnother`, and without a holder nothing is thrown.
   */
  lemma DuplicateEmailCheckOnUpdate(regs: map<int, Registration>, id: int, email: string, holder: int)
    requires UniqueEmails(regs)
    ensures !ExistsByEmail(regs, email) ==> !EmailHeldByAnother(regs, id, email)
    ensures holder in regs && regs[holder].email == email ==>
              (EmailHeldByAnother(regs, id, email) <==> holder != id)
  {
  }

  /** Updating a stored registration without changing its email never collides. */
  lemma KeepingOwnEmailIsAllowed(regs: map<int, Registration>, id: int, email: string)
    requires UniqueEmails(regs)
    requires id in regs && regs[id].email == email
    ensures !EmailHeldByAnother(regs, id, email)
  {
  }

  // ---------------------------------------------------------------------
  // save

  /** The outcome of `save`: refused on a taken email, else stamped and stored. */
  ghost predicate SaveEffect(before: map<int, Registration>, nextId: int, after: map<int, Registration>,
                             payload: Registration, today: LocalDate, r: Result<Registration>)
  {
    if ExistsByEmail(before, payload.email) then
      r == Failure(EmailAlreadyExists) && after == before
    else
      var k := SaveSlot(before.Keys, nextId, payload.id);
      r == Success(payload.(id := Some(k), dateOfRegistration := Some(today))) && after == before[k := r.value]
  }

  method Save(store: Store, registration: Registration, today: LocalDate) returns (r: Result<Registration>)
    requires store.Valid()
    modifies store
    ensures store.Valid()
    ensures SaveEffect(old(store.registrations), old(store.nextRegistrationId), store.registrations, registration, today, r)
    ensures r.Failure? ==> unchanged(store)
    ensures store.meetups == old(store.meetups) && store.nextMeetupId == old(store.nextMeetupId)
    ensures store.nextRegistrationId ==
              if r.Success? then Advance(old(store.nextRegistrationId), r.value.id.value) else old(store.nextRegistrationId)
    ensures r.Success? && registration.id.None? ==>
              r.value.id == Some(old(store.nextRegistrationId)) && store.nextRegistrationId == old(store.nextRegistrationId) + 1
    ensures r.Success? ==> Lookup(store.registrations, r.value.id) == Success(r.value)
  {
    if ExistsByEmail(store.registrations, registration.email) {
      return Failure(EmailAlreadyExists);
    }
    var stamped := registration.(dateOfRegistration := Some(today));
    var saved := store.SaveRegistration(stamped);
    return Success(saved);
  }

  lemma SavePreservesUniqueEmails(before: map<int, Registration>, nextId: int, after: map<int, Registration>,
                                  payload: Registration, today: LocalDate, r: Result<Registration>)
    requires UniqueEmails(before)
    requires SaveEffect(before, nextId, after, payload, today, r)
    ensures UniqueEmails(after)
    ensures r.Failure? <==> ExistsByEmail(before, payload.email)
  {
  }

  // ---------------------------------------------------------------------
  // getById, delete

  method GetById(store: Store, id: Option<int>) returns (r: Result<Registration>)
    ensures id.None? ==> r == Failure(IllegalArgument)
    ensures id.Some? && id.value !in store.registrations ==> r == Failure(RegistrationNotFound(id.value))
    ensures id.Some? && id.value in store.registrations ==> r == Success(store.registrations[id.value])
    ensures r == Lookup(store.registrations, id)
  {
    if id.None? {
      return Failure(IllegalArgument);
    }
    var found := if id.value in store.registrations then Some(store.registrations[id.value]) else None;
    if found.None? {
      return Failure(RegistrationNotFound(id.value));
    }
    return Success(found.value);
  }

  method Delete(store: Store, id: Option<int>) returns (r: Outcome)
    requires store.Valid()
    modifies store
    ensures store.Valid()
    ensures r.Failed? <==> Lookup(old(store.registrations), id).Failure?
    ensures r.Failed? ==> r.error == Lookup(old(store.registrations), id).error && unchanged(store)
    ensures r.Done? ==> store.registrations == old(store.registrations) - {id.value}
    ensures store.nextRegistrationId == old(store.nextRegistrationId)
    ensures store.meetups == old(store.meetups) && store.nextMeetupId == old(store.nextMeetupId)
  {
    var found := GetById(store, id);
    if found.Failure? {
      return Failed(found.error);
    }
    store.DeleteRegistrationById(id.value);
    return Done;
  }

  // ---------------------------------------------------------------------
  // update

  /**
   * The outcome of `update` on a stored id: refused when another record
   * holds the email, else the payload's fields with today's date replace
   * the entry at `id`.
   */
  ghost predicate UpdateEffect(before: map<int, Registration>, after: map<int, Registration>, id: int,
                               payload: Registration, today: LocalDate, r: Result<Registration>)
  {
    if EmailHeldByAnother(before, id, payload.email) then
      r == Failure(EmailAlreadyExists) && after == before
    else
      r == Success(Registration(Some(id), payload.registrationAttribute, payload.name, Some(today), payload.email))
      && after == before[id := r.value]
  }

  method Update(store: Store, id: int, registration: Registration, today: LocalDate) returns (r: Result<Registration>)
    requires store.Valid()
    modifies store
    ensures store.Valid()
    ensures id !in old(store.registrations) ==>
              SaveEffect(old(store.registrations), old(store.nextRegistrationId), store.registrations, registration, today, r)
    ensures id in old(store.registrations) ==>
              UpdateEffect(old(store.registrations), store.registrations, id, registration, today, r)
              && store.nextRegistrationId == old(store.nextRegistrationId)
    ensures r.Failure? ==> unchanged(store)
    ensures store.nextRegistrationId ==
              if r.Success? then Advance(old(store.nextRegistrationId), r.value.id.value) else old(store.nextRegistrationId)
    ensures store.meetups == old(store.meetups) && store.nextMeetupId == old(store.nextMeetupId)
  {
    if id !in store.registrations {
      r := Save(store, registration, today);
      return;
    }
    if EmailHeldByAnother(store.registrations, id, registration.email) {
      return Failure(EmailAlreadyExists);
    }
    var updated := Registration(Some(id), registration.registrationAttribute, registration.name, Some(today), registration.email);
    var saved := store.SaveRegistration(updated);
    return Success(saved);
  }

  lemma UpdatePreservesUniqueEmails(before: map<int, Registration>, after: map<int, Registration>, id: int,
                                    payload: Registration, today: LocalDate, r: Result<Registration>)
    requires UniqueEmails(before)
    requires UpdateEffect(before, after, id, payload, today, r)
    ensures UniqueEmails(after)
    ensures r.Success? ==> after[id].id == Some(id) && after.Keys == before.Keys + {id}
  {
  }

  // ---------------------------------------------------------------------
  // getByRegistrationAttribute

  method GetByRegistrationAttribute(store: Store, attribute: Option<string>) returns (result: seq<Registration>)
    requires store.Valid()
    ensures forall x :: x in result <==> IsStored(store.registrations, x) && AttributeMatches(x.registrationAttribute, attribute)
    ensures NoDuplicates(result) && IdsAscending(result)
    ensures result == FindByRegistrationAttributeIgnoringCase(store.registrations, store.nextRegistrationId, attribute)
  {
    var found := FindByRegistrationAttributeIgnoringCase(store.registrations, store.nextRegistrationId, attribute);
    IdsAscendingNoDuplicates(found);
    InsertAllIsDistinct([], found);
    assert [] + found == found;
    DistinctOfDuplicateFree(found);
    result := InsertAll([], found);
  }
}
