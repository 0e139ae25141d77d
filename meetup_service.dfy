/**
 * The meetup rule engine: uniqueness of (event ignoring case, date-time) on
 * save and on update, registration reconciliation on save, the null-id
 * guard and not-found error of `getById`, delete after a successful lookup,
 * and update of an unknown id turned into a save.
 */
module MeetupService {
  import opened Domain
  import opened Text
  import opened OrderedSets
  import opened Persistence
  import RegistrationService

  /** No two stored meetups share the event (case ignored) and the date-time. */
  predicate UniqueSlots(ms: map<int, Meetup>) {
    forall j, k | j in ms && k in ms && EqualsIgnoreCase(ms[j].event, ms[k].event) && ms[j].meetupDate == ms[k].meetupDate :: j == k
  }

  /**
   * The condition the update-time duplicate check throws on: a meetup with
   * the same event (case ignored) and date-time is stored under another id.
   */
  predicate SlotHeldByAnother(ms: map<int, Meetup>, id: int, event: string, date: LocalDateTime) {
    exists k | k in ms :: EqualsIgnoreCase(ms[k].event, event) && ms[k].meetupDate == date && k != id
  }

  /**
   * The source finds "the" holder with
   * `findByEventIgnoringCaseAndMeetupDate(...).get()` and compares its id;
   * under unique slots that is the same test as `SlotHeldByAnother`, and
   * without a holder nothing is thrown.
   */
  lemma DuplicateSlotCheckOnUpdate(ms: map<int, Meetup>, id: int, event: string, date: LocalDateTime, holder: int)
    requires UniqueSlots(ms)
    ensures !ExistsByEventIgnoringCaseAndMeetupDate(ms, event, date) ==> !SlotHeldByAnother(ms, id, event, date)
    ensures holder in ms && EqualsIgnoreCase(ms[holder].event, event) && ms[holder].meetupDate == date ==>
              (SlotHeldByAnother(ms, id, event, date) <==> holder != id)
  {
  }

  /** Updating a stored meetup without moving it to another slot never collides. */
  lemma KeepingOwnSlotIsAllowed(ms: map<int, Meetup>, id: int, event: string, date: LocalDateTime)
    requires UniqueSlots(ms)
    requires id in ms && EqualsIgnoreCase(ms[id].event, event) && ms[id].meetupDate == date
    ensures !SlotHeldByAnother(ms, id, event, date)
  {
  }

  // ---------------------------------------------------------------------
  // Registration reconciliation

  /** The explicitly listed registrations; a null set lists none. */
  function Listed(explicit: Option<seq<Registration>>): seq<Registration> {
    if explicit.Some? then explicit.value else []
  }

  /** An explicitly listed registration resolves when its id is stored. */
  predicate Resolves(regs: map<int, Registration>, x: Registration) {
    x.id.Some? && x.id.value in regs
  }

  /**
   * Each listed registration looked up with the registration service's
   * `getById`, in list order; the first failed lookup aborts with its error.
   */
  function ResolveAll(regs: map<int, Registration>, xs: seq<Registration>): (r: Result<seq<Registration>>)
    ensures r.Success? <==> forall i | 0 <= i < |xs| :: Resolves(regs, xs[i])
    ensures r.Success? ==> |r.value| == |xs| && forall i | 0 <= i < |xs| :: r.value[i] == regs[xs[i].id.value]
    decreases |xs|
  {
    if xs == [] then Success([])
    else
      match ResolveAll(regs, xs[..|xs| - 1])
      case Failure(e) => Failure(e)
      case Success(resolved) =>
        match RegistrationService.Lookup(regs, xs[|xs| - 1].id)
        case Failure(e) => Failure(e)
        case Success(x) => Success(resolved + [x])
  }

  /**
   * A failed resolution reports the error of the first listed registration
   * whose lookup fails: a null id gives the null-id error, an unknown id
   * the not-found error carrying that id.
   */
  lemma {:induction false} ResolveAllFailsAtFirst(regs: map<int, Registration>, xs: seq<Registration>)
    requires ResolveAll(regs, xs).Failure?
    ensures exists i | 0 <= i < |xs| ::
              !Resolves(regs, xs[i]) && (forall j | 0 <= j < i :: Resolves(regs, xs[j]))
              && ResolveAll(regs, xs).error == RegistrationService.Lookup(regs, xs[i].id).error
    decreases |xs|
  {
    var init := xs[..|xs| - 1];
    if ResolveAll(regs, init).Failure? {
      ResolveAllFailsAtFirst(regs, init);
      var i :| 0 <= i < |init| && !Resolves(regs, init[i]) && (forall j | 0 <= j < i :: Resolves(regs, init[j]))
               && ResolveAll(regs, init).error == RegistrationService.Lookup(regs, init[i].id).error;
      assert init[i] == xs[i];
      assert forall j | 0 <= j < i :: init[j] == xs[j];
    } else {
      var i := |xs| - 1;
      assert forall j | 0 <= j < i :: init[j] == xs[j];
      assert !Resolves(regs, xs[i]);
    }
  }

  /** Once a prefix of the list fails to resolve, the whole list fails the same way. */
  lemma {:induction false} ResolveAllFailurePersists(regs: map<int, Registration>, xs: seq<Registration>, n: nat)
    requires n <= |xs|
    requires ResolveAll(regs, xs[..n]).Failure?
    ensures ResolveAll(regs, xs) == ResolveAll(regs, xs[..n])
    decreases |xs| - n
  {
    if n < |xs| {
      var ys := xs[..n + 1];
      assert ys[..|ys| - 1] == xs[..n];
      ResolveAllFailurePersists(regs, xs, n + 1);
    } else {
      assert xs[..n] == xs;
    }
  }

  /**
   * The registrations `save` stores with a meetup: the attribute matches
   * copied into a `LinkedHashSet`, each resolved listed registration added
   * in turn, and the set re-wrapped through `stream().distinct()`.
   */
  function Reconcile(regs: map<int, Registration>, matches: seq<Registration>, explicit: Option<seq<Registration>>): (r: Result<seq<Registration>>)
    ensures r.Failure? <==> exists i | 0 <= i < |Listed(explicit)| :: !Resolves(regs, Listed(explicit)[i])
    ensures r.Failure? ==> r.error == ResolveAll(regs, Listed(explicit)).error
    ensures r.Success? ==> NoDuplicates(r.value)
    ensures r.Success? ==> forall y :: y in r.value <==> y in matches || y in ResolveAll(regs, Listed(explicit)).value
  {
    match ResolveAll(regs, Listed(explicit))
    case Failure(e) => Failure(e)
    case Success(resolved) => Success(InsertAll([], Distinct(InsertAll(InsertAll([], matches), resolved))))
  }

  /**
   * The reconciled sequence is `distinct()` of the matches followed by the
   * resolved listed registrations; when the matches have no duplicates they
   * come first, in their own order, and nothing inserted later displaces them.
   */
  lemma ReconcileIsDistinctConcat(regs: map<int, Registration>, matches: seq<Registration>,
                                  explicit: Option<seq<Registration>>, resolved: seq<Registration>)
    requires ResolveAll(regs, Listed(explicit)) == Success(resolved)
    ensures Reconcile(regs, matches, explicit) == Success(Distinct(matches + resolved))
    ensures NoDuplicates(matches) ==>
              |matches| <= |Distinct(matches + resolved)| && Distinct(matches + resolved)[..|matches|] == matches
  {
    InsertAllIsDistinct([], matches);
    assert [] + matches == matches;
    InsertAllIsDistinct(Distinct(matches), resolved);
    DistinctAbsorbs(matches, resolved);
    RewrapIsIdentity(Distinct(matches + resolved));
    DistinctPrefix(matches, resolved);
    if NoDuplicates(matches) {
      DistinctOfDuplicateFree(matches);
    }
  }

  /**
   * Deduplicating by record equality is deduplicating by id: when every
   * stored record carries its own key and the matches are stored records,
   * the reconciled registrations are stored records with pairwise distinct
   * ids.
   */
  lemma ReconciledIdsAreDistinct(regs: map<int, Registration>, matches: seq<Registration>, explicit: Option<seq<Registration>>)
    requires IdsMatchKeys(regs)
    requires forall x | x in matches :: IsStored(regs, x)
    requires Reconcile(regs, matches, explicit).Success?
    ensures forall x | x in Reconcile(regs, matches, explicit).value :: IsStored(regs, x)
    ensures forall i, j | 0 <= i < j < |Reconcile(regs, matches, explicit).value| ::
              Reconcile(regs, matches, explicit).value[i].id != Reconcile(regs, matches, explicit).value[j].id
  {
    var rs := Reconcile(regs, matches, explicit).value;
    var resolved := ResolveAll(regs, Listed(explicit)).value;
    forall x | x in resolved ensures IsStored(regs, x) {
      var i :| 0 <= i < |resolved| && resolved[i] == x;
      assert Resolves(regs, Listed(explicit)[i]);
      var k := Listed(explicit)[i].id.value;
      assert k in regs && regs[k] == x;
    }
    forall i, j | 0 <= i < j < |rs| ensures rs[i].id != rs[j].id {
      var a, b := rs[i], rs[j];
      assert a in matches || a in resolved;
      assert b in matches || b in resolved;
      assert IsStored(regs, a) && IsStored(regs, b);
      StoredAtOwnId(regs, a);
      StoredAtOwnId(regs, b);
      assert a != b;
    }
  }

  /**
   * A request's listed registration, carrying only its id.
   */
  function Stub(id: int): Registration {
    Registration(Some(id), None, "", None, "")
  }

  /**
   * Attribute matches [1, 2] and listed ids [2, 3] reconcile to the stored
   * records 1, 2, 3 in that order: the listed 2 is already present.
   */
  lemma ReconcileScenario(r1: Registration, r2: Registration, r3: Registration)
    requires r1.id == Some(1) && r2.id == Some(2) && r3.id == Some(3)
    ensures Reconcile(map[1 := r1, 2 := r2, 3 := r3], [r1, r2], Some([Stub(2), Stub(3)])) == Success([r1, r2, r3])
  {
    var regs := map[1 := r1, 2 := r2, 3 := r3];
    ScenarioResolves(regs, r2, r3);
    ReconcileIsDistinctConcat(regs, [r1, r2], Some([Stub(2), Stub(3)]), [r2, r3]);
    ScenarioDistinct(r1, r2, r3);
  }

  /** The repeated 2 is dropped and the first occurrences keep their order. */
  lemma ScenarioDistinct(r1: Registration, r2: Registration, r3: Registration)
    requires r1.id == Some(1) && r2.id == Some(2) && r3.id == Some(3)
    ensures Distinct([r1, r2] + [r2, r3]) == [r1, r2, r3]
  {
    var s := [r1, r2] + [r2, r3];
    assert s[..3] == [r1, r2, r2] && s[3] == r3 && r3 !in s[..3];
    var t := s[..3];
    assert t[..2] == [r1, r2] && t[2] == r2 && r2 in t[..2];
    assert r1 != r2;
    DistinctOfDuplicateFree([r1, r2]);
  }

  /** The listed ids 2 and 3 resolve, in order, to the records stored under them. */
  lemma ScenarioResolves(regs: map<int, Registration>, r2: Registration, r3: Registration)
    requires 2 in regs && regs[2] == r2 && 3 in regs && regs[3] == r3
    ensures ResolveAll(regs, [Stub(2), Stub(3)]) == Success([r2, r3])
  {
    var xs := [Stub(2), Stub(3)];
    assert xs[..1][..0] == [] && xs[..1][0].id == Some(2);
    assert ResolveAll(regs, []) == Success([]);
    assert [] + [r2] == [r2];
    assert ResolveAll(regs, xs[..1]) == Success([r2]);
    assert xs[1].id == Some(3) && [r2] + [r3] == [r2, r3];
  }

  /** What `save` stores a meetup's registrations as, for the store's tables. */
  function MeetupRegistrations(regs: map<int, Registration>, nextRegistrationId: int, meetup: Meetup): Result<seq<Registration>> {
    Reconcile(regs, FindByRegistrationAttributeIgnoringCase(regs, nextRegistrationId, meetup.registrationAttribute), meetup.registrations)
  }

  /**
   * The loop of lines 38-45: every listed registration is looked up with
   * the registration service's `getById` and added to the ordered set; the
   * first failed lookup propagates its error.
   */
  method AddListed(store: Store, registrations: seq<Registration>, xs: seq<Registration>) returns (r: Result<seq<Registration>>)
    ensures ResolveAll(store.registrations, xs).Failure? ==> r == Failure(ResolveAll(store.registrations, xs).error)
    ensures ResolveAll(store.registrations, xs).Success? ==>
              r == Success(InsertAll(registrations, ResolveAll(store.registrations, xs).value))
  {
    var acc := registrations;
    ghost var resolved: seq<Registration> := [];
    var i := 0;
    while i < |xs|
      invariant 0 <= i <= |xs|
      invariant ResolveAll(store.registrations, xs[..i]) == Success(resolved)
      invariant acc == InsertAll(registrations, resolved)
    {
      var found := RegistrationService.GetById(store, xs[i].id);
      assert xs[..i + 1][..i] == xs[..i];
      if found.Failure? {
        ResolveAllFailurePersists(store.registrations, xs, i + 1);
        return Failure(found.error);
      }
      acc := Insert(acc, found.value);
      assert (resolved + [found.value])[..|resolved|] == resolved;
      resolved := resolved + [found.value];
      i := i + 1;
    }
    assert xs[..i] == xs;
    return Success(acc);
  }

  /**
   * Lines 36-46 of `save`, run against the store: the attribute matches,
   * then the listed registrations, then the `distinct()` re-wrap.
   */
  method CollectRegistrations(store: Store, meetup: Meetup) returns (r: Result<seq<Registration>>)
    requires store.Valid()
    ensures r == MeetupRegistrations(store.registrations, store.nextRegistrationId, meetup)
  {
    var matches := RegistrationService.GetByRegistrationAttribute(store, meetup.registrationAttribute);
    var registrations := InsertAll([], matches);
    if meetup.registrations.Some? {
      var added := AddListed(store, registrations, meetup.registrations.value);
      if added.Failure? {
        return Failure(added.error);
      }
      registrations := added.value;
    }
    registrations := InsertAll([], Distinct(registrations));
    return Success(registrations);
  }

  // ---------------------------------------------------------------------
  // save

  /**
   * The outcome of `save`: refused on a taken slot before any lookup, then
   * refused on an unresolvable listed registration, else stored with the
   * reconciled registrations.
   */
  ghost predicate SaveEffect(regs: map<int, Registration>, nextRegistrationId: int, before: map<int, Meetup>, nextMeetupId: int,
                             after: map<int, Meetup>, payload: Meetup, r: Result<Meetup>)
  {
    if ExistsByEventIgnoringCaseAndMeetupDate(before, payload.event, payload.meetupDate) then
      r == Failure(MeetupAlreadyExists) && after == before
    else match MeetupRegistrations(regs, nextRegistrationId, payload)
      case Failure(e) => r == Failure(e) && after == before
      case Success(rs) =>
        var k := SaveSlot(before.Keys, nextMeetupId, payload.id);
        r == Success(payload.(id := Some(k), registrations := Some(rs))) && after == before[k := r.value]
  }

  method Save(store: Store, meetup: Meetup) returns (r: Result<Meetup>)
    requires store.Valid()
    modifies store
    ensures store.Valid()
    ensures SaveEffect(old(store.registrations), old(store.nextRegistrationId), old(store.meetups), old(store.nextMeetupId),
                       store.meetups, meetup, r)
    ensures store.registrations == old(store.registrations) && store.nextRegistrationId == old(store.nextRegistrationId)
    ensures r.Failure? ==> unchanged(store)
    ensures store.nextMeetupId == if r.Success? then Advance(old(store.nextMeetupId), r.value.id.value) else old(store.nextMeetupId)
    ensures r.Success? && meetup.id.None? ==>
              r.value.id == Some(old(store.nextMeetupId)) && store.nextMeetupId == old(store.nextMeetupId) + 1
    ensures r.Success? ==> r.value.id.value in store.meetups && store.meetups[r.value.id.value] == r.value
  {
    if ExistsByEventIgnoringCaseAndMeetupDate(store.meetups, meetup.event, meetup.meetupDate) {
      return Failure(MeetupAlreadyExists);
    }
    var registrations := CollectRegistrations(store, meetup);
    if registrations.Failure? {
      return Failure(registrations.error);
    }
    var saved := store.SaveMeetup(meetup.(registrations := Some(registrations.value)));
    return Success(saved);
  }

  lemma SavePreservesUniqueSlots(regs: map<int, Registration>, nextRegistrationId: int, before: map<int, Meetup>, nextMeetupId: int,
                                 after: map<int, Meetup>, payload: Meetup, r: Result<Meetup>)
    requires UniqueSlots(before)
    requires SaveEffect(regs, nextRegistrationId, before, nextMeetupId, after, payload, r)
    ensures UniqueSlots(after)
    ensures ExistsByEventIgnoringCaseAndMeetupDate(before, payload.event, payload.meetupDate) ==> r == Failure(MeetupAlreadyExists)
    ensures r.Success? ==> r.value.event == payload.event && r.value.meetupDate == payload.meetupDate
                           && r.value.registrationAttribute == payload.registrationAttribute
  {
  }

  // ---------------------------------------------------------------------
  // getById, delete

  method GetById(store: Store, id: Option<int>) returns (r: Result<Meetup>)
    ensures id.None? ==> r == Failure(IllegalArgument)
    ensures id.Some? && id.value !in store.meetups ==> r == Failure(MeetupNotFound(id.value))
    ensures id.Some? && id.value in store.meetups ==> r == Success(store.meetups[id.value])
  {
    if id.None? {
      return Failure(IllegalArgument);
    }
    if id.value !in store.meetups {
      return Failure(MeetupNotFound(id.value));
    }
    return Success(store.meetups[id.value]);
  }

  method Delete(store: Store, id: Option<int>) returns (r: Outcome)
    requires store.Valid()
    modifies store
    ensures store.Valid()
    ensures id.None? ==> r == Failed(IllegalArgument)
    ensures id.Some? && id.value !in old(store.meetups) ==> r == Failed(MeetupNotFound(id.value))
    ensures r.Failed? ==> unchanged(store)
    ensures id.Some? && id.value in old(store.meetups) ==> r == Done && store.meetups == old(store.meetups) - {id.value}
    ensures store.nextMeetupId == old(store.nextMeetupId)
    ensures store.registrations == old(store.registrations) && store.nextRegistrationId == old(store.nextRegistrationId)
  {
    if id.None? {
      return Failed(IllegalArgument);
    }
    var found := GetById(store, id);
    if found.Failure? {
      return Failed(found.error);
    }
    MeetupAtOwnId(store, id.value);
    store.DeleteMeetup(found.value);
    return Done;
  }

  // ---------------------------------------------------------------------
  // update

  /**
   * The outcome of `update` on a stored id: refused when another meetup
   * holds the slot, else the payload's fields, registrations as supplied,
   * replace the entry at `id`.
   */
  ghost predicate UpdateEffect(before: map<int, Meetup>, after: map<int, Meetup>, id: int, payload: Meetup, r: Result<Meetup>)
  {
    if SlotHeldByAnother(before, id, payload.event, payload.meetupDate) then
      r == Failure(MeetupAlreadyExists) && after == before
    else
      r == Success(Meetup(Some(id), payload.event, payload.meetupDate, payload.registrationAttribute, payload.registrations))
      && after == before[id := r.value]
  }

  method Update(store: Store, id: int, meetup: Meetup) returns (r: Result<Meetup>)
    requires store.Valid()
    modifies store
    ensures store.Valid()
    ensures id !in old(store.meetups) ==>
              SaveEffect(old(store.registrations), old(store.nextRegistrationId), old(store.meetups), old(store.nextMeetupId),
                         store.meetups, meetup, r)
    ensures id in old(store.meetups) ==>
              UpdateEffect(old(store.meetups), store.meetups, id, meetup, r) && store.nextMeetupId == old(store.nextMeetupId)
    ensures r.Failure? ==> unchanged(store)
    ensures store.nextMeetupId == if r.Success? then Advance(old(store.nextMeetupId), r.value.id.value) else old(store.nextMeetupId)
    ensures store.registrations == old(store.registrations) && store.nextRegistrationId == old(store.nextRegistrationId)
  {
    if id !in store.meetups {
      r := Save(store, meetup);
      return;
    }
    if SlotHeldByAnother(store.meetups, id, meetup.event, meetup.meetupDate) {
      return Failure(MeetupAlreadyExists);
    }
    var updated := Meetup(Some(id), meetup.event, meetup.meetupDate, meetup.registrationAttribute, meetup.registrations);
    var saved := store.SaveMeetup(updated);
    return Success(saved);
  }

  lemma UpdatePreservesUniqueSlots(before: map<int, Meetup>, after: map<int, Meetup>, id: int, payload: Meetup, r: Result<Meetup>)
    requires UniqueSlots(before)
    requires UpdateEffect(before, after, id, payload, r)
    ensures UniqueSlots(after)
    ensures r.Failure? <==> SlotHeldByAnother(before, id, payload.event, payload.meetupDate)
  {
  }
}
