/**
 * The records the meetup service stores and the errors its services raise.
 *
 * Dates and date-times are opaque values compared only for equality; a
 * Java `null` is `None`.
 */
module Domain {

  datatype Option<+T> = None | Some(value: T)

  /** `java.time.LocalDate`, kept opaque: only equality is used. */
  datatype LocalDate = LocalDate(epochDay: int)

  /** `java.time.LocalDateTime`, kept opaque: only equality is used. */
  datatype LocalDateTime = LocalDateTime(epochSecond: int)

  /**
   * One constructor per exception class the services throw.  The error
   * carries the id where the exception's message includes it.
   */
  datatype Error =
    | IllegalArgument              // IllegalArgumentException from verifyNullId
    | EmailAlreadyExists           // EmailAlreadyExistsException (both variants)
    | RegistrationNotFound(id: int)
    | MeetupAlreadyExists
    | MeetupNotFound(id: int)
    | LegacyRegistrationNotFound   // the earlier variant's exception, no id in it
    | LegacyMeetupNotFound         // the earlier variant's exception, no id in it
    | DuplicatedMeetup             // the earlier variant's duplicate-meetup exception
    | FoundButNotDeleted           // RegistrationFoundButNotDeletedException
    | NumberFormat                 // NumberFormatException from Integer.parseInt

  /** A service call that returns a value or throws. */
  datatype Result<+T> = Success(value: T) | Failure(error: Error)

  /** A `void` service call that completes or throws. */
  datatype Outcome = Done | Failed(error: Error)

  /**
   * The `Registration` entity.  Its `meetups` back-reference is not part of
   * the record: the entity's equality leaves it out, and no service reads it.
   */
  datatype Registration = Registration(
    id: Option<int>,
    registrationAttribute: Option<string>,
    name: string,
    dateOfRegistration: Option<LocalDate>,
    email: string)

  /**
   * The `Meetup` entity.  `registrations` is the owning side of the
   * many-to-many association, in the iteration order of its set; `None` is a
   * null set.
   */
  datatype Meetup = Meetup(
    id: Option<int>,
    event: string,
    meetupDate: LocalDateTime,
    registrationAttribute: Option<string>,
    registrations: Option<seq<Registration>>)

  /**
   * The registration of the earlier iteration, whose classification field
   * is a version token ("001", "002", ...) instead of a free-text attribute.
   */
  datatype VersionedRegistration = VersionedRegistration(
    id: Option<int>,
    name: string,
    email: string,
    dateOfRegistration: Option<LocalDate>,
    registrationVersion: Option<string>)
}
