# Meetup service rule layer in Dafny

This project models the business rules of a meetup-management back end.
Registrations are people with a unique email. Meetups are events with a
date-time, optionally tied to a registration attribute, and a set of
registrations. The model covers the service classes that enforce the
rules, in their current form and in the earlier iteration that preceded
them:

- `service/registration/RegistrationServiceImpl.java`:
  - email uniqueness on save and on update, where update excludes the record's own id;
  - the null-id guard and the not-found error of `getById`;
  - delete only after a successful lookup;
  - update of an unknown id turned into a save;
  - lookup by attribute, with case ignored, as an insertion-ordered set.
- `service/meetup/MeetupServiceImpl.java`:
  - uniqueness of (event ignoring case, date-time) on save, and on update excluding the record itself;
  - registration reconciliation on save: the attribute matches, then every listed registration resolved by id, kept in a `LinkedHashSet`;
  - the same lookup, delete and upsert shape.
- `service/RegistrationServiceImpl.java` (earlier iteration):
  - a version token that starts at "001" and becomes `"00" + (parseInt(old) + 1)` on update;
  - a lookup without a null guard;
  - a delete that re-reads the table after removing the row.
- `service/MeetupServiceImpl.java` (earlier iteration):
  - a case-sensitive duplicate check;
  - registrations built as the attribute matches followed by the supplied list, then `distinct()`.

Layout, one Dafny module per file:

- `domain.dfy` (`Domain`): the records, `Option`, `Result`/`Outcome`, and one error constructor per exception class.
- `text.dfy` (`Text`): case-insensitive comparison by ASCII lower-casing.
- `ordered_sets.dfy` (`OrderedSets`): `LinkedHashSet` insertion and `Stream.distinct()` as sequences without duplicates, with their laws.
- `persistence.dfy` (`Persistence`): the repositories as an in-memory store.
  - `Store` is a class holding both tables, each with its own identity sequence, as each entity has its own `IDENTITY` id column; `LegacyStore` holds the earlier registration table.
  - It also defines the derived queries the services call.
  - `save` merges: a stored id is overwritten, and a missing or unknown id gets the next identity value.
  - A query with a null argument means `IS NULL`.
  - List queries return rows in ascending id order (see "Left out").
- `registration_service.dfy`, `meetup_service.dfy`, `legacy_registration_service.dfy`, `legacy_meetup_service.dfy`: one module per service class.
  - Each service method takes the store it works on and returns a `Result` or an `Outcome`.
  - Each state change is stated by an effect predicate (`SaveEffect`, `UpdateEffect`).
  - Lemmas beside the methods prove what the rules guarantee about those effects.
- `version_token.dfy` (`VersionToken`): `Integer.parseInt`, `String.valueOf`, Java's 32-bit increment, and `getUpdatedVersion`.

An explicitly listed registration that has a null or unknown id does not get
skipped in the current meetup `save`, although the `isPresent` test at line
41 suggests it would be. `getById` throws before that test is reached, so
the whole save fails with that error and nothing is stored. The model
follows the code.

## Model

| member | source | states |
|---|---|---|
| `OrderedSets.Insert` | src/main/java/com/microservicemeetup/service/meetup/MeetupServiceImpl.java:42 | `LinkedHashSet.add` keeps what was there as a prefix, adds exactly `x`, and keeps the set duplicate-free |
| `OrderedSets.InsertAll` | src/main/java/com/microservicemeetup/service/meetup/MeetupServiceImpl.java:36 | copying a collection into a `LinkedHashSet` keeps the start as a prefix, holds exactly the old and the added elements, and stays duplicate-free |
| `OrderedSets.Distinct` | src/main/java/com/microservicemeetup/service/MeetupServiceImpl.java:34 | `distinct()` yields no duplicates and exactly the elements of its input |
| `OrderedSets.DistinctOfDuplicateFree` | src/main/java/com/microservicemeetup/service/meetup/MeetupServiceImpl.java:46 | `distinct()` of a duplicate-free sequence is that sequence |
| `OrderedSets.DistinctIdempotent` | src/main/java/com/microservicemeetup/service/meetup/MeetupServiceImpl.java:46 | `distinct()` is idempotent |
| `OrderedSets.DistinctPrefix` | src/main/java/com/microservicemeetup/service/MeetupServiceImpl.java:31-34 | elements already emitted by `distinct()` never move when more input follows |
| `OrderedSets.InsertAllIsDistinct` | src/main/java/com/microservicemeetup/service/meetup/MeetupServiceImpl.java:36-43 | adding elements one at a time to a `LinkedHashSet` equals `distinct()` of the concatenation |
| `OrderedSets.DistinctAbsorbs` | src/main/java/com/microservicemeetup/service/meetup/MeetupServiceImpl.java:46 | taking `distinct()` of a prefix first does not change `distinct()` of the whole |
| `OrderedSets.RewrapIsIdentity` | src/main/java/com/microservicemeetup/service/meetup/MeetupServiceImpl.java:46 | the `new LinkedHashSet<>(set.stream().distinct()...)` re-wrap returns the same set in the same order |
| `Text.Lower` | src/main/java/com/microservicemeetup/service/registration/RegistrationServiceImpl.java:90 | the `IgnoringCase` folding turns each ASCII capital into its lower-case partner and keeps every other character in place |
| `Text.EqualsIgnoreCaseCharwise` | src/main/java/com/microservicemeetup/service/registration/RegistrationServiceImpl.java:90 | two strings are equal ignoring case exactly when they have the same length and each position holds the same character or an ASCII capital and its lower-case partner |
| `Persistence.ScanByAttribute` | src/main/java/com/microservicemeetup/service/registration/RegistrationServiceImpl.java:90 | the scan of a key range returns only stored, matching records, every matching record in the range, in ascending id order |
| `Persistence.FindByRegistrationAttributeIgnoringCase` | src/main/java/com/microservicemeetup/service/registration/RegistrationServiceImpl.java:90 | the query returns exactly the stored registrations whose attribute equals the argument ignoring case (null matches null), in ascending id order |
| `Persistence.Store.constructor` | src/main/java/com/microservicemeetup/model/Registration.java:18-21 | both tables start empty, and each table's identity sequence starts at 1 |
| `Persistence.Store.SaveRegistration` | src/main/java/com/microservicemeetup/service/registration/RegistrationServiceImpl.java:33 | `save` writes the record under its stored id or the next registration identity, advances that identity only for a fresh row, and leaves the meetup table and its identity alone |
| `Persistence.Store.DeleteRegistrationById` | src/main/java/com/microservicemeetup/service/registration/RegistrationServiceImpl.java:51 | `deleteById` removes exactly that key |
| `Persistence.Store.SaveMeetup` | src/main/java/com/microservicemeetup/service/meetup/MeetupServiceImpl.java:48 | `save` writes the meetup under its stored id or the next meetup identity, advances that identity only for a fresh row, and leaves the registration table and its identity alone |
| `Persistence.Store.DeleteMeetup` | src/main/java/com/microservicemeetup/service/meetup/MeetupServiceImpl.java:77 | `delete(entity)` removes the row with the entity's id and nothing else |
| `Persistence.LegacyStore.constructor` | src/main/java/com/microservicemeetup/model/Registration.java:18-21 | the earlier registration table starts empty with identity value 1 |
| `Persistence.LegacyStore.SaveRegistration` | src/main/java/com/microservicemeetup/service/RegistrationServiceImpl.java:37 | `save` writes the record under its stored id or the next identity, advances the identity only for a fresh row, and changes nothing else |
| `Persistence.LegacyStore.DeleteRegistration` | src/main/java/com/microservicemeetup/service/RegistrationServiceImpl.java:56 | `delete(entity)` removes the row with the entity's id and nothing else |
| `RegistrationService.DuplicateEmailCheckOnUpdate` | src/main/java/com/microservicemeetup/service/registration/RegistrationServiceImpl.java:97-103 | with unique emails, "the holder found by email has another id" is exactly "another id holds the email", and no holder means no error |
| `RegistrationService.KeepingOwnEmailIsAllowed` | src/main/java/com/microservicemeetup/service/registration/RegistrationServiceImpl.java:97-103 | an update that keeps the record's own email never collides |
| `RegistrationService.Save` | src/main/java/com/microservicemeetup/service/registration/RegistrationServiceImpl.java:28-34 | a taken email fails with EmailAlreadyExists and stores nothing; otherwise the payload dated today is stored and found again by `getById`; an id-less payload gets the next registration identity, which then advances by one; the meetup identity never moves |
| `RegistrationService.SavePreservesUniqueEmails` | src/main/java/com/microservicemeetup/service/registration/RegistrationServiceImpl.java:105-110 | save fails exactly when the email exists, and keeps emails unique |
| `RegistrationService.GetById` | src/main/java/com/microservicemeetup/service/registration/RegistrationServiceImpl.java:37-46 | read-only: a null id gives IllegalArgument, an unknown id RegistrationNotFound(id), otherwise the stored record |
| `RegistrationService.Delete` | src/main/java/com/microservicemeetup/service/registration/RegistrationServiceImpl.java:49-52 | fails with the lookup's error and changes nothing when the lookup fails; otherwise removes exactly that id |
| `RegistrationService.Update` | src/main/java/com/microservicemeetup/service/registration/RegistrationServiceImpl.java:56-74 | an unknown id behaves exactly like save; a stored id fails when another id holds the email, else its entry becomes the payload's attribute, name and email with today's date and no identity is consumed |
| `RegistrationService.UpdatePreservesUniqueEmails` | src/main/java/com/microservicemeetup/service/registration/RegistrationServiceImpl.java:64-73 | update keeps emails unique and keeps the record at its id |
| `RegistrationService.GetByRegistrationAttribute` | src/main/java/com/microservicemeetup/service/registration/RegistrationServiceImpl.java:88-91 | read-only: exactly the stored registrations whose attribute matches ignoring case, without duplicates, in ascending id order |
| `MeetupService.DuplicateSlotCheckOnUpdate` | src/main/java/com/microservicemeetup/service/meetup/MeetupServiceImpl.java:116-126 | with unique slots, "the meetup found by event and date has another id" is exactly "another id holds the slot", and no holder means no error |
| `MeetupService.KeepingOwnSlotIsAllowed` | src/main/java/com/microservicemeetup/service/meetup/MeetupServiceImpl.java:116-126 | an update that keeps the meetup's own event and date never collides |
| `MeetupService.ResolveAll` | src/main/java/com/microservicemeetup/service/meetup/MeetupServiceImpl.java:38-45 | resolution succeeds exactly when every listed id is non-null and stored, and then yields the stored records in list order |
| `MeetupService.ResolveAllFailsAtFirst` | src/main/java/com/microservicemeetup/service/meetup/MeetupServiceImpl.java:39-40 | a failed resolution carries the `getById` error of the first listed registration that does not resolve |
| `MeetupService.ResolveAllFailurePersists` | src/main/java/com/microservicemeetup/service/meetup/MeetupServiceImpl.java:39-40 | a failure on a prefix of the list is the failure of the whole list |
| `MeetupService.Reconcile` | src/main/java/com/microservicemeetup/service/meetup/MeetupServiceImpl.java:36-46 | reconciliation fails exactly when a listed registration does not resolve, with that error; otherwise it holds exactly the matches and the resolved records, without duplicates |
| `MeetupService.ReconcileIsDistinctConcat` | src/main/java/com/microservicemeetup/service/meetup/MeetupServiceImpl.java:36-46 | the reconciled sequence is `distinct()` of matches followed by resolved records, and duplicate-free matches stay first in their own order |
| `MeetupService.ReconciledIdsAreDistinct` | src/main/java/com/microservicemeetup/service/meetup/MeetupServiceImpl.java:36-46 | when stored records carry their own key, the reconciled registrations are stored records with pairwise distinct ids |
| `MeetupService.ReconcileScenario` | src/main/java/com/microservicemeetup/service/meetup/MeetupServiceImpl.java:36-46 | matches [1, 2] and listed ids [2, 3] reconcile to the records 1, 2, 3 in that order |
| `MeetupService.AddListed` | src/main/java/com/microservicemeetup/service/meetup/MeetupServiceImpl.java:38-45 | the loop returns the first lookup error, or the set with every resolved registration added in list order |
| `MeetupService.CollectRegistrations` | src/main/java/com/microservicemeetup/service/meetup/MeetupServiceImpl.java:36-46 | read-only: returns the reconciliation of the store's attribute matches with the listed registrations |
| `MeetupService.Save` | src/main/java/com/microservicemeetup/service/meetup/MeetupServiceImpl.java:34-50 | a taken slot fails with MeetupAlreadyExists before any lookup; a failed lookup fails with its error; otherwise the meetup is stored with the reconciled registrations; an id-less meetup gets the next meetup identity, which then advances by one; the registration table and its identity are untouched |
| `MeetupService.SavePreservesUniqueSlots` | src/main/java/com/microservicemeetup/service/meetup/MeetupServiceImpl.java:102-106 | save keeps (event ignoring case, date-time) unique, refuses a taken slot, and keeps event, date-time and attribute as given |
| `MeetupService.GetById` | src/main/java/com/microservicemeetup/service/meetup/MeetupServiceImpl.java:53-58 | read-only: a null id gives IllegalArgument, an unknown id MeetupNotFound(id), otherwise the stored meetup |
| `MeetupService.Delete` | src/main/java/com/microservicemeetup/service/meetup/MeetupServiceImpl.java:74-79 | a null or unknown id fails with those errors and changes nothing; otherwise exactly that meetup is removed |
| `MeetupService.Update` | src/main/java/com/microservicemeetup/service/meetup/MeetupServiceImpl.java:82-100 | an unknown id behaves exactly like save; a stored id fails when another id holds the slot, else its entry becomes the payload with its registrations as supplied and no identity is consumed |
| `MeetupService.UpdatePreservesUniqueSlots` | src/main/java/com/microservicemeetup/service/meetup/MeetupServiceImpl.java:116-126 | update keeps slots unique and fails exactly when another id holds the slot |
| `VersionToken.ParseInt` | src/main/java/com/microservicemeetup/service/RegistrationServiceImpl.java:105 | `Integer.parseInt` fails on an empty string, and a parsed value lies in the `int` range, has a digit last and a sign or digit first, and is non-positive after a minus sign and non-negative otherwise |
| `VersionToken.NatToDigits` | src/main/java/com/microservicemeetup/service/RegistrationServiceImpl.java:105 | the digits `String.valueOf` writes for a natural number: at least one digit, and a leading zero only for zero itself |
| `VersionToken.IntToString` | src/main/java/com/microservicemeetup/service/RegistrationServiceImpl.java:105 | `String.valueOf(int)` starts with a minus sign exactly for negative values, followed by digits without a leading zero |
| `VersionToken.GetUpdatedVersion` | src/main/java/com/microservicemeetup/service/RegistrationServiceImpl.java:103-106 | the update token exists exactly when the stored version is non-null and parses, a failure is NumberFormat, and a token always begins with "00" |
| `VersionToken.Int32Increment` | src/main/java/com/microservicemeetup/service/RegistrationServiceImpl.java:105 | Java's `+ 1` on `int` stays in range and agrees with `n + 1` modulo 2^32 |
| `VersionToken.NatToDigitsValue` | src/main/java/com/microservicemeetup/service/RegistrationServiceImpl.java:105 | the digits `String.valueOf` writes for a natural number read back as that number |
| `VersionToken.LeadingZeroValue` | src/main/java/com/microservicemeetup/service/RegistrationServiceImpl.java:104-105 | a leading "0" does not change the value of a digit string |
| `VersionToken.ParseIntToString` | src/main/java/com/microservicemeetup/service/RegistrationServiceImpl.java:105 | `Integer.parseInt(String.valueOf(n)) == n` for every `int` |
| `VersionToken.UpdatedVersionCounts` | src/main/java/com/microservicemeetup/service/RegistrationServiceImpl.java:103-106 | a version that parses to n, with -1 <= n < 2^31-1, is updated to a token that parses to n + 1 |
| `VersionToken.UpdatedVersionStopsParsing` | src/main/java/com/microservicemeetup/service/RegistrationServiceImpl.java:103-106 | at 2^31-1 (wrap-around) or below -1 the updated token has a minus sign after "00" and does not parse |
| `VersionToken.UpdatedVersionExamples` | src/main/java/com/microservicemeetup/service/RegistrationServiceImpl.java:103-106 | "001" becomes "002", "009" becomes "0010"; a null, empty or non-numeric version fails with NumberFormat |
| `LegacyRegistrationService.FirstRegistrationIsOne` | src/main/java/com/microservicemeetup/service/RegistrationServiceImpl.java:23 | the first version "001" reads as 1 |
| `LegacyRegistrationService.Save` | src/main/java/com/microservicemeetup/service/RegistrationServiceImpl.java:30-38 | a taken email fails and stores nothing; otherwise the payload dated today with version "001" is stored, an id-less payload under the next identity, which then advances by one |
| `LegacyRegistrationService.SavePreservesInvariants` | src/main/java/com/microservicemeetup/service/RegistrationServiceImpl.java:119-123 | save fails exactly on a taken email, keeps emails unique and versions parsable, and stores version 1 |
| `LegacyRegistrationService.GetById` | src/main/java/com/microservicemeetup/service/RegistrationServiceImpl.java:41-48 | read-only: an unknown id gives the not-found error, otherwise the stored record; no null guard |
| `LegacyRegistrationService.Delete` | src/main/java/com/microservicemeetup/service/RegistrationServiceImpl.java:51-61 | a null id or unknown record fails and removes nothing; otherwise exactly that row is removed, and the re-check never reports FoundButNotDeleted |
| `LegacyRegistrationService.Update` | src/main/java/com/microservicemeetup/service/RegistrationServiceImpl.java:64-84 | an unknown id behaves exactly like save; a stored id fails on an email held by another id, then on an unparsable version, else stores the payload's name and email, today's date and the bumped version without consuming an identity |
| `LegacyRegistrationService.UpdatePreservesInvariants` | src/main/java/com/microservicemeetup/service/RegistrationServiceImpl.java:72-83 | below 2^31-1 an update keeps emails unique and versions parsable, fails only on an email held by another id, and bumps the version by one |
| `LegacyRegistrationService.UpdateAtTopOfRangeBreaksVersion` | src/main/java/com/microservicemeetup/service/RegistrationServiceImpl.java:103-106 | updating a record at version 2^31-1 stores an unparsable version, so its next update fails with NumberFormat and changes nothing |
| `LegacyRegistrationService.KeepingOwnEmailIsAllowed` | src/main/java/com/microservicemeetup/service/RegistrationServiceImpl.java:112-117 | an update that keeps the record's own email never collides |
| `LegacyMeetupService.Save` | src/main/java/com/microservicemeetup/service/MeetupServiceImpl.java:29-38 | an exactly equal (event, date-time) fails with DuplicatedMeetup and stores nothing; otherwise the meetup is stored with `distinct()` of the matches followed by the supplied list, an id-less meetup under the next meetup identity |
| `LegacyMeetupService.LegacyRegistrations` | src/main/java/com/microservicemeetup/service/MeetupServiceImpl.java:31-34 | the registrations `save` stores have no duplicates and are exactly the attribute matches and the supplied ones |
| `LegacyMeetupService.SavedRegistrationsShape` | src/main/java/com/microservicemeetup/service/MeetupServiceImpl.java:31-35 | the stored registrations begin with the attribute matches in their order, and equal the matches when the list is null |
| `LegacyMeetupService.SavePreservesUniqueExactSlots` | src/main/java/com/microservicemeetup/service/MeetupServiceImpl.java:66-70 | save fails exactly on an exactly equal slot and keeps exact slots unique |
| `LegacyMeetupService.CaseSensitiveCheckIsWeaker` | src/main/java/com/microservicemeetup/service/MeetupServiceImpl.java:66-70 | every meetup the case-sensitive check refuses is refused by the case-insensitive check too |
| `LegacyMeetupService.CaseOnlyDuplicate` | src/main/java/com/microservicemeetup/service/MeetupServiceImpl.java:66-70 | a stored "Sync" lets "sync" through the case-sensitive check but not the case-insensitive one |
| `LegacyMeetupService.AgreesWithCurrentReconcile` | src/main/java/com/microservicemeetup/service/MeetupServiceImpl.java:31-34 | when the supplied registrations are the stored records, concatenation plus `distinct()` equals the current lookup-based reconciliation |
| `LegacyMeetupService.GetById` | src/main/java/com/microservicemeetup/service/MeetupServiceImpl.java:41-46 | read-only: a null id gives IllegalArgument, an unknown id the not-found error, otherwise the stored meetup |
| `LegacyMeetupService.Delete` | src/main/java/com/microservicemeetup/service/MeetupServiceImpl.java:55-59 | a null or unknown id fails and changes nothing; otherwise exactly that meetup is removed |

## Left out

- The HTTP layer, DTOs, Bean Validation annotations and Swagger configuration: routing and framework checks, not rules of the services.
- `find(filter, pageable)` in both current services: query-by-example matching and paging are library behaviour.
- `getRegistrationByRegistrationAtribute` of the earlier registration service: it only forwards to a repository query that the earlier registration record does not support.
- The earlier meetup service's `find` and `update`: both are stubs that return null.
- The clock: `LocalDate.now()` is the `today` parameter. Dates and date-times are opaque values compared for equality.
- Case folding covers ASCII letters only. Java's and the database's Unicode case rules are not modelled.
- `Integer.parseInt` accepts only ASCII digits here. Java also accepts other Unicode decimal digits.
- Entity ids are unbounded integers. The 64-bit range of `Long` is not modelled.
- The `getId() != id` tests in the three update-time duplicate checks compare boxed `Long` references: registration/RegistrationServiceImpl.java line 99, meetup/MeetupServiceImpl.java lines 121-122 and the earlier RegistrationServiceImpl.java line 114. Java answers true for equal ids above 127 unless both come from the same object. The model compares values, which is the evident intent.
- The derived `findBy...` queries are stated as "another stored id holds the value". The single-result query throws when several rows match; the uniqueness lemmas show that cannot happen from a state the services maintain.
- Mutation of the caller's argument (`setDateOfRegistration`, `setRegistrations`, `setRegistrationVersion`): the model builds the new record as a value, so aliasing between the argument and the stored entity is not captured.
- `Registration.meetups`, the inverse side of the many-to-many mapping, is left out: no service reads it. `Meetup.registrations`, the owning side with the join table, is kept.
- `MeetupService.GetById`, `MeetupService.Update`, `LegacyMeetupService.Save`: a stored meetup holds copies of its registrations, not references to the registration rows. The source writes only the registration ids to the join table and reads the current rows back, so after a registration is updated the model returns the older copy, and an update stores the caller's entries as given where the source keeps only their ids.
- Foreign-key effects of deleting a registration that a meetup still references: database constraints are not part of the service logic.
- `LegacyRegistrationService.Delete`: `existsByRegistration(registration)` is read as "a row with the entity's id is stored". The repository declaring that query is not part of this model.
- The earlier registration service's null checks on `registration` itself: a null argument fails with a `NullPointerException` before any rule is reached.
- `findById(null)` in the earlier `getById` and in both `update` methods: the id is taken as non-null, since the library rejects a null id before any rule runs.
- The earlier meetup service calls `getByRegistrationAttribute`, which the earlier registration service does not declare. The model uses the current attribute query.
- Exception message text, including the Portuguese strings: errors are constructors, carrying the id where the message does.
- Concurrency: check-then-act races between clients are out of scope.
- Row order of list queries: a derived query without ORDER BY promises no order. The model returns rows in ascending id order, and the order-dependent lemmas (`SavedRegistrationsShape`, `ReconcileIsDistinctConcat`, `ReconcileScenario`) hold for that order.
