/**
 * The earlier iteration of the registration service: the same email rule,
 * a version token that starts at "001" and is bumped on every update, a
 * lookup without a null guard, and a delete that re-reads the table to
 * confirm the row is gone.
 */
module LegacyRegistrationService {
  import opened Domain
  import opened Persistence
  import opened VersionToken

  /** The version every new registration starts at. */
  const FirstRegistration: string := "001"

  /** No two stored registrations share an email. */
  predicate UniqueEmails(regs: map<int, VersionedRegistration>) {
    forall j, k | j in regs && k in regs && regs[j].email == regs[k].email :: j == k
  }

  /** The condition `verifyDuplicatedEmail` throws on: another id holds the email. */
  predicate EmailHeldByAnother(regs: map<int, VersionedRegistration>, id: int, email: string) {
    exists k | k in regs :: regs[k].email == email && k != id
  }

  /** The numeric value of a record's version, when it has one that parses. */
  function VersionNumber(x: VersionedRegistration): Option<int> {
    if x.registrationVersion.None? then None else ParseInt(x.registrationVersion.value)
  }

  /** Every stored version parses to a positive count. */
  predicate WellVersioned(regs: map<int, VersionedRegistration>) {
    forall k | k in regs :: VersionNumber(regs[k]).Some? && VersionNumber(regs[k]).value >= 1
  }

  /** The first version reads as 1. */
  lemma FirstRegistrationIsOne()
    ensures ParseInt(FirstRegistration) == Some(1)
  {
    assert DigitChar(1) == '1';
    DigitsOfSmall(FirstRegistration, 1);
  }

  // ---------------------------------------------------------------------
  // save

  /** The outcome of `save`: refused on a taken email, else dated, versioned "001" and stored. */
  ghost predicate SaveEffect(before: map<int, VersionedRegistration>, nextId: int, after: map<int, VersionedRegistration>,
                             payload: VersionedRegistration, today: LocalDate, r: Result<VersionedRegistration>)
  {
    if LegacyExistsByEmail(before, payload.email) then
      r == Failure(EmailAlreadyExists) && after == before
    else
      var k := SaveSlot(before.Keys, nextId, payload.id);
      r == Success(payload.(id := Some(k), dateOfRegistration := Some(today), registrationVersion := Some(FirstRegistration)))
      && after == before[k := r.value]
  }

  method Save(store: LegacyStore, registration: VersionedRegistration, today: LocalDate) returns (r: Result<VersionedRegistration>)
    requires store.Valid()
    modifies store
    ensures store.Valid()
    ensures SaveEffect(old(store.registrations), old(store.nextId), store.registrations, registration, today, r)
    ensures r.Failure? ==> unchanged(store)
    ensures store.nextId == if r.Success? then Advance(old(store.nextId), r.value.id.value) else old(store.nextId)
    ensures r.Success? && registration.id.None? ==> r.value.id == Some(old(store.nextId)) && store.nextId == old(store.nextId) + 1
  {
    if LegacyExistsByEmail(store.registrations, registration.email) {
      return Failure(EmailAlreadyExists);
    }
    var stamped := registration.(dateOfRegistration := Some(today), registrationVersion := Some(FirstRegistration));
    var saved := store.SaveRegistration(stamped);
    return Success(saved);
  }

  lemma SavePreservesInvariants(before: map<int, VersionedRegistration>, nextId: int, after: map<int, VersionedRegistration>,
                                payload: VersionedRegistration, today: LocalDate, r: Result<VersionedRegistration>)
    requires UniqueEmails(before) && WellVersioned(before)
    requires SaveEffect(before, nextId, after, payload, today, r)
    ensures UniqueEmails(after) && WellVersioned(after)
    ensures r.Failure? <==> LegacyExistsByEmail(before, payload.email)
    ensures r.Success? ==> VersionNumber(r.value) == Some(1)
  {
    FirstRegistrationIsOne();
  }

  // ---------------------------------------------------------------------
  // getById, delete

  /** `getById` of this iteration takes a non-null id and has no guard. */
  method GetById(store: LegacyStore, id: int) returns (r: Result<VersionedRegistration>)
    ensures id !in store.registrations ==> r == Failure(LegacyRegistrationNotFound)
    ensures id in store.registrations ==> r == Success(store.registrations[id])
  {
    if id !in store.registrations {
      return Failure(LegacyRegistrationNotFound);
    }
    return Success(store.registrations[id]);
  }

  /**
   * `delete(registration)`: a null id and an unknown registration are
   * refused; otherwise the row is removed and the table re-read, and
   * against this store the re-read always finds the row gone.
   */
  method Delete(store: LegacyStore, registration: VersionedRegistration) returns (r: Outcome)
    requires store.Valid()
    modifies store
    ensures store.Valid()
    ensures registration.id.None? ==> r == Failed(IllegalArgument)
    ensures registration.id.Some? && registration.id.value !in old(store.registrations) ==> r == Failed(LegacyRegistrationNotFound)
    ensures r.Failed? ==> unchanged(store)
    ensures registration.id.Some? && registration.id.value in old(store.registrations) ==>
              r == Done && store.registrations == old(store.registrations) - {registration.id.value}
    ensures r != Failed(FoundButNotDeleted)
    ensures store.nextId == old(store.nextId)
  {
    if registration.id.None? {
      return Failed(IllegalArgument);
    }
    if registration.id.value !in store.registrations {
      return Failed(LegacyRegistrationNotFound);
    }
    store.DeleteRegistration(registration);
    var stillStored := registration.id.value in store.registrations;
    r := if stillStored then Failed(FoundButNotDeleted) else Done;
  }

  // ---------------------------------------------------------------------
  // update

  /**
   * The outcome of `update` on a stored id: refused when another record
   * holds the email, then refused when the stored version does not parse,
   * else the payload's name and email, today's date and the bumped version
   * replace the entry at `id`.
   */
  ghost predicate UpdateEffect(before: map<int, VersionedRegistration>, after: map<int, VersionedRegistration>, id: int,
                               payload: VersionedRegistration, today: LocalDate, r: Result<VersionedRegistration>)
    requires id in before
  {
    if EmailHeldByAnother(before, id, payload.email) then
      r == Failure(EmailAlreadyExists) && after == before
    else
      match GetUpdatedVersion(before[id].registrationVersion)
      case Failure(e) => r == Failure(e) && after == before
      case Success(version) =>
        r == Success(VersionedRegistration(Some(id), payload.name, payload.email, Some(today), Some(version)))
        && after == before[id := r.value]
  }

  method Update(store: LegacyStore, id: int, registration: VersionedRegistration, today: LocalDate) returns (r: Result<VersionedRegistration>)
    requires store.Valid()
    modifies store
    ensures store.Valid()
    ensures id !in old(store.registrations) ==>
              SaveEffect(old(store.registrations), old(store.nextId), store.registrations, registration, today, r)
    ensures id in old(store.registrations) ==>
              UpdateEffect(old(store.registrations), store.registrations, id, registration, today, r)
              && store.nextId == old(store.nextId)
    ensures r.Failure? ==> unchanged(store)
    ensures store.nextId == if r.Success? then Advance(old(store.nextId), r.value.id.value) else old(store.nextId)
  {
    if id !in store.registrations {
      r := Save(store, registration, today);
      return;
    }
    var actual := store.registrations[id];
    if EmailHeldByAnother(store.registrations, id, registration.email) {
      return Failure(EmailAlreadyExists);
    }
    var version := GetUpdatedVersion(actual.registrationVersion);
    if version.Failure? {
      return Failure(version.error);
    }
    var updated := VersionedRegistration(Some(id), registration.name, registration.email, Some(today), Some(version.value));
    var saved := store.SaveRegistration(updated);
    return Success(saved);
  }

  /**
   * Below the top of the `int` range an update keeps emails unique and
   * versions parsable, never fails on the version, and bumps it by one.
   */
  lemma UpdatePreservesInvariants(before: map<int, VersionedRegistration>, after: map<int, VersionedRegistration>, id: int,
                                  payload: VersionedRegistration, today: LocalDate, r: Result<VersionedRegistration>)
    requires UniqueEmails(before) && WellVersioned(before)
    requires id in before && VersionNumber(before[id]).value < Int32Max
    requires UpdateEffect(before, after, id, payload, today, r)
    ensures UniqueEmails(after) && WellVersioned(after)
    ensures r.Failure? <==> EmailHeldByAnother(before, id, payload.email)
    ensures r.Success? ==> VersionNumber(r.value) == Some(VersionNumber(before[id]).value + 1)
  {
    var n := VersionNumber(before[id]).value;
    UpdatedVersionCounts(before[id].registrationVersion.value, n);
  }

  /**
   * A record whose version has reached the top of the `int` range is
   * updated once more to the token "00-2147483648", which does not parse:
   * every later update of it fails with a number-format error.
   */
  lemma UpdateAtTopOfRangeBreaksVersion(before: map<int, VersionedRegistration>, after: map<int, VersionedRegistration>, id: int,
                                        payload: VersionedRegistration, today: LocalDate, r: Result<VersionedRegistration>,
                                        next: VersionedRegistration, later: map<int, VersionedRegistration>, r2: Result<VersionedRegistration>)
    requires id in before && VersionNumber(before[id]) == Some(Int32Max)
    requires UpdateEffect(before, after, id, payload, today, r) && r.Success?
    requires UpdateEffect(after, later, id, next, today, r2) && !EmailHeldByAnother(after, id, next.email)
    ensures VersionNumber(after[id]) == None
    ensures r2 == Failure(NumberFormat) && later == after
  {
    UpdatedVersionStopsParsing(before[id].registrationVersion.value, Int32Max);
  }

  /** Updating a stored registration without changing its email never collides. */
  lemma KeepingOwnEmailIsAllowed(regs: map<int, VersionedRegistration>, id: int, email: string)
    requires UniqueEmails(regs)
    requires id in regs && regs[id].email == email
    ensures !EmailHeldByAnother(regs, id, email)
  {
  }
}
