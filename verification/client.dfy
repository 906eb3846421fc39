/**
 * The Client entity: six persisted attributes plus the database identity,
 * the two derived dates (current age, life-expectancy date), the full name,
 * the audited setters and identity-based equality. `today` stands for
 * `LocalDate.now()`.
 */
module ClientEntity {
  import opened Basics
  import opened Dates

  /** Every field may be null on an object that has not been validated or persisted. */
  datatype Client = Client(
    id: Option<int>,
    firstName: Option<string>,
    lastName: Option<string>,
    age: Option<Int32>,
    birthDate: Option<Date>,
    createdAt: Option<Date>,
    updatedAt: Option<Date>)

  /** `AVERAGE_LIFE_EXPECTANCY` in `calculateLifeExpectancyDate`. */
  const AverageLifeExpectancy: nat := 78

  /** The four-argument constructor: no identity yet, both audit dates set to today. */
  function NewClient(firstName: Option<string>, lastName: Option<string>, age: Option<Int32>, birthDate: Option<Date>, today: Date): (c: Client)
    ensures c.id.None?
    ensures c.firstName == firstName && c.lastName == lastName && c.age == age && c.birthDate == birthDate
    ensures c.createdAt == Some(today) && c.updatedAt == Some(today)
  {
    Client(None, firstName, lastName, age, birthDate, Some(today), Some(today))
  }

  /** `calculateCurrentAge`; `None` is the NullPointerException of a missing birth date. */
  function CurrentAge(c: Client, today: Date): (age: Option<int>)
    ensures age.Some? <==> c.birthDate.Some?
    ensures age.Some? && !Before(today, c.birthDate.value) ==>
      age.value == today.year - c.birthDate.value.year - (if EarlierInYear(today, c.birthDate.value) then 1 else 0)
  {
    match c.birthDate
    case None => None
    case Some(b) =>
      var years := PeriodYears(b, today);
      assert !Before(today, b) ==>
        years == today.year - b.year - (if EarlierInYear(today, b) then 1 else 0) by {
        if !Before(today, b) {
          PeriodYearsCompleted(b, today);
        }
      }
      Some(years)
  }

  /** `calculateLifeExpectancyDate`: the birth date 78 years on; `None` when the birth date is missing. */
  function LifeExpectancyDate(c: Client): (d: Option<Date>)
    ensures d.Some? <==> c.birthDate.Some?
    ensures d.Some? ==> d.value.year == c.birthDate.value.year + AverageLifeExpectancy && d.value.month == c.birthDate.value.month
    ensures d.Some? ==>
      || PeriodYears(c.birthDate.value, d.value) == AverageLifeExpectancy
      || (c.birthDate.value.month == 2 && c.birthDate.value.day == 29
          && PeriodYears(c.birthDate.value, d.value) == AverageLifeExpectancy - 1)
  {
    match c.birthDate
    case None => None
    case Some(b) =>
      PlusYearsPeriod(b, AverageLifeExpectancy);
      Some(PlusYears(b, AverageLifeExpectancy))
  }

  /** `getFullName`: a null name part is rendered as "null". */
  function FullName(c: Client): string
  {
    Show(c.firstName) + " " + Show(c.lastName)
  }

  /** The audited setters: each stores its value and stamps `updatedAt` with today. */
  function SetFirstName(c: Client, v: Option<string>, today: Date): Client
  {
    c.(firstName := v).(updatedAt := Some(today))
  }

  function SetLastName(c: Client, v: Option<string>, today: Date): Client
  {
    c.(lastName := v).(updatedAt := Some(today))
  }

  function SetAge(c: Client, v: Option<Int32>, today: Date): Client
  {
    c.(age := v).(updatedAt := Some(today))
  }

  function SetBirthDate(c: Client, v: Option<Date>, today: Date): Client
  {
    c.(birthDate := v).(updatedAt := Some(today))
  }

  /** The audited setters never touch the identity or the creation date. */
  lemma SettersKeepIdentity(c: Client, today: Date, s: Option<string>, a: Option<Int32>, b: Option<Date>)
    ensures SetFirstName(c, s, today).id == c.id && SetFirstName(c, s, today).createdAt == c.createdAt
    ensures SetLastName(c, s, today).id == c.id && SetLastName(c, s, today).createdAt == c.createdAt
    ensures SetAge(c, a, today).id == c.id && SetAge(c, a, today).createdAt == c.createdAt
    ensures SetBirthDate(c, b, today).id == c.id && SetBirthDate(c, b, today).createdAt == c.createdAt
  {
  }

  /**
   * `equals`: the same object, or two clients carrying the same non-null id.
   * `sameObject` stands for the reference test `this == o`.
   */
  predicate Equals(a: Client, b: Client, sameObject: bool)
  {
    sameObject || (a.id.Some? && a.id == b.id)
  }

  /** Between distinct objects equality is "same database row": symmetric and transitive, and never holds for a transient client. */
  lemma EqualsIsRowIdentity(a: Client, b: Client, c: Client)
    ensures Equals(a, b, false) <==> Equals(b, a, false)
    ensures Equals(a, b, false) && Equals(b, c, false) ==> Equals(a, c, false)
    ensures a.id.None? ==> !Equals(a, b, false) && !Equals(b, a, false)
    ensures Equals(a, a, false) <==> a.id.Some?
  {
  }
}
