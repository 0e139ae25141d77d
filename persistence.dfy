/**
 * The persistence gateway the services are given: an in-memory keyed store
 * standing for the Spring Data repositories, and the derived queries the
 * services call, with the semantics their method names give them.
 */
module Persistence {
  import opened Domain
  import opened Text
  import opened OrderedSets

  /**
   * The key a JPA `save` writes to: an entity whose id is stored is merged
   * into that row; one without an id, or with an id that is not stored,
   * is inserted under the next identity value.
   */
  function SaveSlot(keys: set<int>, nextId: int, id: Option<int>): int {
    if id.Some? && id.value in keys then id.value else nextId
  }

  predicate IdsMatchKeys(regs: map<int, Registration>) {
    forall k | k in regs :: regs[k].id == Some(k)
  }

  /** Every element carries an id, and the ids strictly increase. */
  predicate IdsAscending(rs: seq<Registration>) {
    && (forall i | 0 <= i < |rs| :: rs[i].id.Some?)
    && (forall i, j | 0 <= i < j < |rs| :: rs[i].id.value < rs[j].id.value)
  }

  /** `x` is one of the stored registrations. */
  predicate IsStored(regs: map<int, Registration>, x: Registration) {
    exists k | k in regs :: regs[k] == x
  }

  /** A stored record that carries its own key is found again under its id. */
  lemma StoredAtOwnId(regs: map<int, Registration>, x: Registration)
    requires IdsMatchKeys(regs)
    requires IsStored(regs, x)
    ensures x.id.Some? && x.id.value in regs && regs[x.id.value] == x
  {
    var k :| k in regs && regs[k] == x;
  }

  lemma IdsAscendingNoDuplicates(rs: seq<Registration>)
    requires IdsAscending(rs)
    ensures NoDuplicates(rs)
  {
    forall i, j | 0 <= i < j < |rs| ensures rs[i] != rs[j] {
      assert rs[i].id.value < rs[j].id.value;
    }
  }

  // ---------------------------------------------------------------------
  // RegistrationRepository

  /** `existsByEmail`: some stored registration has exactly this email. */
  predicate ExistsByEmail(regs: map<int, Registration>, email: string) {
    exists k | k in regs :: regs[k].email == email
  }

  /**
   * The attribute condition of `findByRegistrationAttributeIgnoringCase`:
   * a null argument becomes `IS NULL`, any other argument an equality of
   * both sides with case ignored.
   */
  predicate AttributeMatches(stored: Option<string>, query: Option<string>) {
    match query
    case None => stored.None?
    case Some(q) => stored.Some? && EqualsIgnoreCase(stored.value, q)
  }

  /** Every key lies in [1, bound): the identity sequence handed it out. */
  predicate KeysBelow(regs: map<int, Registration>, bound: int) {
    forall k | k in regs :: 1 <= k < bound
  }

  /**
   * The stored registrations whose key lies in [lo, hi) and whose attribute
   * matches, in ascending key order.
   */
  function ScanByAttribute(regs: map<int, Registration>, attribute: Option<string>, lo: int, hi: int): (r: seq<Registration>)
    ensures forall x | x in r :: IsStored(regs, x) && AttributeMatches(x.registrationAttribute, attribute)
    ensures forall k | lo <= k < hi && k in regs && AttributeMatches(regs[k].registrationAttribute, attribute) :: regs[k] in r
    ensures IdsMatchKeys(regs) ==> IdsAscending(r) && forall x | x in r :: lo <= x.id.value
    decreases hi - lo
  {
    if lo >= hi then []
    else
      var rest := ScanByAttribute(regs, attribute, lo + 1, hi);
      if lo in regs && AttributeMatches(regs[lo].registrationAttribute, attribute) then [regs[lo]] + rest
      else rest
  }

  /**
   * `findByRegistrationAttributeIgnoringCase`: the stored registrations
   * whose attribute matches, in ascending id order (`nextId` bounds the
   * ids the store has handed out).
   */
  function FindByRegistrationAttributeIgnoringCase(regs: map<int, Registration>, nextId: int, attribute: Option<string>): (r: seq<Registration>)
    ensures KeysBelow(regs, nextId) ==>
      forall x :: x in r <==> IsStored(regs, x) && AttributeMatches(x.registrationAttribute, attribute)
    ensures IdsMatchKeys(regs) ==> IdsAscending(r)
  {
    ScanByAttribute(regs, attribute, 1, nextId)
  }

  // ---------------------------------------------------------------------
  // MeetupRepository

  /** `existsByEventIgnoringCaseAndMeetupDate`. */
  predicate ExistsByEventIgnoringCaseAndMeetupDate(meetups: map<int, Meetup>, event: string, date: LocalDateTime) {
    exists k | k in meetups :: EqualsIgnoreCase(meetups[k].event, event) && meetups[k].meetupDate == date
  }

  /** `existsByEventAndMeetupDate`, the case-sensitive query of the earlier iteration. */
  predicate ExistsByEventAndMeetupDate(meetups: map<int, Meetup>, event: string, date: LocalDateTime) {
    exists k | k in meetups :: meetups[k].event == event && meetups[k].meetupDate == date
  }

  // ---------------------------------------------------------------------
  // The store

  /**
   * The identity value after a save wrote to key `k`: an insert under the
   * next value consumes it, a merge into a stored row does not.
   */
  function Advance(nextId: int, k: int): int {
    if k == nextId then nextId + 1 else nextId
  }

  /**
   * Both tables, each with its own identity sequence.  Every stored entity
   * carries its own key as its id, and every key was handed out by its
   * table's sequence.
   */
  class Store {
    var registrations: map<int, Registration>
    var meetups: map<int, Meetup>
    var nextRegistrationId: int
    var nextMeetupId: int

    ghost predicate Valid()
      reads this
    {
      && 1 <= nextRegistrationId && 1 <= nextMeetupId
      && (forall k | k in registrations :: 1 <= k < nextRegistrationId && registrations[k].id == Some(k))
      && (forall k | k in meetups :: 1 <= k < nextMeetupId && meetups[k].id == Some(k))
    }

    constructor ()
      ensures Valid()
      ensures registrations == map[] && meetups == map[]
      ensures nextRegistrationId == 1 && nextMeetupId == 1
    {
      registrations, meetups := map[], map[];
      nextRegistrationId, nextMeetupId := 1, 1;
    }

    /** `RegistrationRepository.save`. */
    method SaveRegistration(r: Registration) returns (saved: Registration)
      requires Valid()
      modifies this
      ensures Valid()
      ensures saved == r.(id := Some(SaveSlot(old(registrations).Keys, old(nextRegistrationId), r.id)))
      ensures registrations == old(registrations)[saved.id.value := saved]
      ensures nextRegistrationId == Advance(old(nextRegistrationId), saved.id.value)
      ensures meetups == old(meetups) && nextMeetupId == old(nextMeetupId)
    {
      var k := SaveSlot(registrations.Keys, nextRegistrationId, r.id);
      saved := r.(id := Some(k));
      registrations := registrations[k := saved];
      nextRegistrationId := Advance(nextRegistrationId, k);
    }

    /** `RegistrationRepository.deleteById`, which the services call only for a stored id. */
    method DeleteRegistrationById(id: int)
      requires Valid()
      requires id in registrations
      modifies this
      ensures Valid()
      ensures registrations == old(registrations) - {id}
      ensures nextRegistrationId == old(nextRegistrationId)
      ensures meetups == old(meetups) && nextMeetupId == old(nextMeetupId)
    {
      registrations := registrations - {id};
    }

    /** `MeetupRepository.save`. */
    method SaveMeetup(m: Meetup) returns (saved: Meetup)
      requires Valid()
      modifies this
      ensures Valid()
      ensures saved == m.(id := Some(SaveSlot(old(meetups).Keys, old(nextMeetupId), m.id)))
      ensures meetups == old(meetups)[saved.id.value := saved]
      ensures nextMeetupId == Advance(old(nextMeetupId), saved.id.value)
      ensures registrations == old(registrations) && nextRegistrationId == old(nextRegistrationId)
    {
      var k := SaveSlot(meetups.Keys, nextMeetupId, m.id);
      saved := m.(id := Some(k));
      meetups := meetups[k := saved];
      nextMeetupId := Advance(nextMeetupId, k);
    }

    /** `MeetupRepository.delete(entity)`: removes the row with the entity's id. */
    method DeleteMeetup(m: Meetup)
      requires Valid()
      modifies this
      ensures Valid()
      ensures meetups == if m.id.Some? then old(meetups) - {m.id.value} else old(meetups)
      ensures nextMeetupId == old(nextMeetupId)
      ensures registrations == old(registrations) && nextRegistrationId == old(nextRegistrationId)
    {
      if m.id.Some? {
        meetups := meetups - {m.id.value};
      }
    }
  }

  /** Every meetup in a valid store carries its own key as its id. */
  lemma MeetupAtOwnId(store: Store, k: int)
    requires store.Valid() && k in store.meetups
    ensures store.meetups[k].id == Some(k)
  {
  }

  // ---------------------------------------------------------------------
  // The earlier iteration's registration table

  predicate LegacyExistsByEmail(regs: map<int, VersionedRegistration>, email: string) {
    exists k | k in regs :: regs[k].email == email
  }

  class LegacyStore {
    var registrations: map<int, VersionedRegistration>
    var nextId: int

    ghost predicate Valid()
      reads this
    {
      && 1 <= nextId
      && (forall k | k in registrations :: 1 <= k < nextId && registrations[k].id == Some(k))
    }

    constructor ()
      ensures Valid()
      ensures registrations == map[] && nextId == 1
    {
      registrations, nextId := map[], 1;
    }

    /** `RegistrationRepository.save`. */
    method SaveRegistration(r: VersionedRegistration) returns (saved: VersionedRegistration)
      requires Valid()
      modifies this
      ensures Valid()
      ensures saved == r.(id := Some(SaveSlot(old(registrations).Keys, old(nextId), r.id)))
      ensures registrations == old(registrations)[saved.id.value := saved]
      ensures nextId == Advance(old(nextId), saved.id.value)
    {
      var k := SaveSlot(registrations.Keys, nextId, r.id);
      saved := r.(id := Some(k));
      registrations := registrations[k := saved];
      nextId := Advance(nextId, k);
    }

    /** `RegistrationRepository.delete(entity)`: removes the row with the entity's id. */
    method DeleteRegistration(r: VersionedRegistration)
      requires Valid()
      modifies this
      ensures Valid()
      ensures registrations == if r.id.Some? then old(registrations) - {r.id.value} else old(registrations)
      ensures nextId == old(nextId)
    {
      if r.id.Some? {
        registrations := registrations - {r.id.value};
      }
    }
  }
}
