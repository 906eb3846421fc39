/**
 * ClientService: the business rules of the client registry over the
 * repository's store. Every operation takes the store and, when it writes,
 * hands back the new one; a failed operation leaves the store as it was (the
 * service is transactional). `today` stands for `LocalDate.now()` and `sqrt`
 * for `Math.sqrt`.
 */
module ClientService {
  import opened Basics
  import opened Dates
  import opened ClientEntity
  import opened ClientDto
  import opened ClientMapper
  import opened Repository
  import opened Statistics

  /** `IllegalArgumentException` with its message, or any other exception. */
  datatype ServiceError = IllegalArgument(message: string) | Internal

  /** The store after an operation, and what the operation returned or threw. */
  datatype Step<T> = Step(store: Store, result: Result<T, ServiceError>)

  const DuplicateMessage: string := "Ya existe un cliente con el nombre: "
  const IncoherentAgeMessage: string := "La edad proporcionada no es coherente con la fecha de nacimiento"
  const NotFoundMessage: string := "Cliente no encontrado con ID: "
  const InvalidRangeMessage: string := "La edad mínima no puede ser mayor que la edad máxima"

  /** The message of a lookup by an unknown id, which names the id. */
  function NotFound(id: int): string
  {
    NotFoundMessage + IntToString(id)
  }

  /** The stated age may differ from the one the birth date gives by at most one year. */
  predicate AgeCoherent(calculated: int, stated: int)
  {
    Abs(calculated - stated) <= 1
  }

  /** Everything `createClient` checks before it writes, in the order it checks it. */
  predicate CreateAccepted(s: Store, request: CreateClientRequest, today: Date)
  {
    && FindByFirstNameAndLastName(s, request.firstName, request.lastName).NoMatch?
    && request.birthDate.Some? && request.age.Some?
    && AgeCoherent(PeriodYears(request.birthDate.value, today), request.age.value)
    && Persistable(NewClient(request.firstName, request.lastName, request.age, request.birthDate, today), today)
  }

  /**
   * `createClient`:
   * 1. an existing client with the same first and last name is a duplicate;
   * 2. the stated age must agree with the birth date within one year;
   * 3. the new entity is saved, and any persistence failure is internal.
   * A missing age or birth date throws a NullPointerException (internal).
   */
  function CreateClient(s: Store, request: CreateClientRequest, today: Date): (r: Step<Client>)
    ensures r.result.Err? ==> r.store == s
    ensures r.result.Ok? <==> CreateAccepted(s, request, today)
    ensures FindByFirstNameAndLastName(s, request.firstName, request.lastName).Unique? ==>
      r.result == Err(IllegalArgument(DuplicateMessage + Show(request.firstName) + " " + Show(request.lastName)))
    ensures (&& FindByFirstNameAndLastName(s, request.firstName, request.lastName).NoMatch?
             && request.birthDate.Some? && request.age.Some?
             && !AgeCoherent(PeriodYears(request.birthDate.value, today), request.age.value)) ==>
      r.result == Err(IllegalArgument(IncoherentAgeMessage))
    ensures r.result.Ok? ==>
      var c := r.result.value;
      && c.id == Some(s.nextId)
      && c.firstName == request.firstName && c.lastName == request.lastName
      && c.age == request.age && c.birthDate == request.birthDate
      && c.createdAt == Some(today) && c.updatedAt == Some(today)
      && r.store == Store(s.rows[s.nextId := c], s.nextId + 1)
    ensures WellFormed(s) ==> WellFormed(r.store)
  {
    match FindByFirstNameAndLastName(s, request.firstName, request.lastName)
    case Unique(_) =>
      Step(s, Err(IllegalArgument(DuplicateMessage + Show(request.firstName) + " " + Show(request.lastName))))
    case NotUnique => Step(s, Err(Internal))
    case NoMatch =>
      var temp := ToEntity(Some(request), today).value;
      match CurrentAge(temp, today)
      case None => Step(s, Err(Internal))
      case Some(calculated) =>
        if request.age.None? then Step(s, Err(Internal))
        else if !AgeCoherent(calculated, request.age.value) then Step(s, Err(IllegalArgument(IncoherentAgeMessage)))
        else
          match Save(s, temp, today)
          case None => Step(s, Err(Internal))
          case Some(saved) => Step(saved.store, Ok(saved.client))
  }

  /**
   * A request that passes the controller's validation, whose age agrees with
   * its birth date, whose names fit their columns and which duplicates nobody
   * is created.
   */
  lemma CreateAdmitsValid(s: Store, request: CreateClientRequest, today: Date)
    requires ValidRequest(request, today)
    requires |request.firstName.value| <= NameLength && |request.lastName.value| <= NameLength
    requires AgeCoherent(PeriodYears(request.birthDate.value, today), request.age.value)
    requires FindByFirstNameAndLastName(s, request.firstName, request.lastName).NoMatch?
    ensures CreateClient(s, request, today).result.Ok?
  {
  }

  /** A created client can be read back under its new id. */
  lemma CreateThenGet(s: Store, request: CreateClientRequest, today: Date)
    requires CreateClient(s, request, today).result.Ok?
    ensures var r := CreateClient(s, request, today);
      GetClientById(r.store, r.result.value.id.value) == Ok(r.result.value)
  {
  }

  /** `getClientById`: the row, or an IllegalArgumentException naming the id. */
  function GetClientById(s: Store, id: int): (r: Result<Client, ServiceError>)
    ensures r.Ok? <==> id in s.rows
    ensures r.Ok? ==> r.value == s.rows[id]
    ensures r.Err? ==> r.error == IllegalArgument(NotFound(id))
  {
    match FindById(s, id)
    case Some(c) => Ok(c)
    case None => Err(IllegalArgument(NotFound(id)))
  }

  /** `getAllClients`. */
  function GetAllClients(s: Store): (r: seq<Client>)
    ensures WellFormed(s) ==> |r| == Count(s) && forall c :: c in r <==> InTable(s, c)
  {
    assert WellFormed(s) ==> |FindAll(s)| == Count(s) by {
      if WellFormed(s) {
        FindAllCount(s);
      }
    }
    FindAll(s)
  }

  /**
   * `updateClient`: an unknown id is an IllegalArgumentException naming it;
   * otherwise the partial update is applied and saved, and a persistence
   * failure is internal.
   */
  function UpdateClient(s: Store, id: int, request: CreateClientRequest, today: Date): (r: Step<Client>)
    ensures r.result.Err? ==> r.store == s
    ensures id !in s.rows ==> r.result == Err(IllegalArgument(NotFound(id)))
    ensures r.result.Ok? ==> id in s.rows
    ensures WellFormed(s) && id in s.rows ==>
      var updated := UpdateEntity(Some(s.rows[id]), Some(request), today).value;
      && (r.result.Ok? <==> Persistable(updated, today))
      && (r.result.Ok? ==> r.result.value == updated && r.store == Store(s.rows[id := updated], s.nextId))
    ensures WellFormed(s) ==> WellFormed(r.store)
  {
    match FindById(s, id)
    case None => Step(s, Err(IllegalArgument(NotFound(id))))
    case Some(existing) =>
      var updated := UpdateEntity(Some(existing), Some(request), today).value;
      UpdateEntityIsPartial(existing, request, today);
      match Save(s, updated, today)
      case None => Step(s, Err(Internal))
      case Some(saved) => Step(saved.store, Ok(saved.client))
  }

  /** An update keeps the client's identity and creation date. */
  lemma UpdateKeepsIdentity(s: Store, id: int, request: CreateClientRequest, today: Date)
    requires WellFormed(s)
    requires UpdateClient(s, id, request, today).result.Ok?
    ensures var c := UpdateClient(s, id, request, today).result.value;
      c.id == Some(id) && c.createdAt == s.rows[id].createdAt
  {
    UpdateEntityIsPartial(s.rows[id], request, today);
  }

  /** `deleteClient`: an unknown id is an IllegalArgumentException naming it; otherwise that row, and only it, goes. */
  function DeleteClient(s: Store, id: int): (r: Step<()>)
    ensures r.result.Ok? <==> id in s.rows
    ensures r.result.Err? ==> r.store == s && r.result.error == IllegalArgument(NotFound(id))
    ensures r.result.Ok? ==> r.store.rows == s.rows - {id} && r.store.nextId == s.nextId
    ensures WellFormed(s) ==> WellFormed(r.store)
  {
    if !ExistsById(s, id) then Step(s, Err(IllegalArgument(NotFound(id))))
    else Step(DeleteById(s, id), Ok(()))
  }

  /** After a delete the id is unknown to every lookup. */
  lemma DeleteThenGet(s: Store, id: int)
    requires id in s.rows
    ensures GetClientById(DeleteClient(s, id).store, id) == Err(IllegalArgument(NotFound(id)))
  {
  }

  /** The metrics of an empty registry: zero clients, zero averages, and 0 for both extreme ages. */
  const NoMetrics: ClientMetrics := ClientMetrics(0, 0.0, 0.0, Some(0), Some(0))

  /**
   * `getClientMetrics`: the count, the average age, the population standard
   * deviation and the extreme ages; the fixed all-zero metrics when the table
   * is empty.
   */
  function GetClientMetrics(s: Store, sqrt: real -> real): (m: ClientMetrics)
    ensures Count(s) == 0 ==> m == NoMetrics
    ensures m.totalClients == Count(s)
    ensures Count(s) > 0 ==>
      && m.youngestAge == FindMinimum(GetAllAges(s))
      && m.oldestAge == FindMaximum(GetAllAges(s))
      && m.ageStandardDeviation == StandardDeviation(GetAllAges(s), sqrt)
    ensures WellFormed(s) && Count(s) > 0 ==> m.averageAge == Mean(GetAllAges(s))
  {
    var total := Count(s);
    var average := CalculateAverageAge(s);
    assert WellFormed(s) && total > 0 ==> average == Some(Mean(GetAllAges(s))) by {
      if WellFormed(s) && total > 0 {
        AverageOverCount(s);
      }
    }
    var ages := GetAllAges(s);
    var deviation := StandardDeviation(ages, sqrt);
    var youngest := FindMinimum(ages);
    var oldest := FindMaximum(ages);
    if total == 0 then NoMetrics
    else ClientMetrics(total, if average.Some? then average.value else 0.0, deviation, youngest, oldest)
  }

  /** On a well-formed non-empty table the average is the mean of every stored client's age. */
  lemma AverageOverCount(s: Store)
    requires WellFormed(s) && Count(s) > 0
    ensures CalculateAverageAge(s) == Some(Mean(GetAllAges(s)))
  {
    FindAllCount(s);
  }

  /** On a non-empty table the average age lies between the youngest and the oldest age. */
  lemma MetricsOrdered(s: Store, sqrt: real -> real)
    requires WellFormed(s) && Count(s) > 0
    ensures var m := GetClientMetrics(s, sqrt);
      && m.youngestAge.Some? && m.oldestAge.Some?
      && m.youngestAge.value as real <= m.averageAge <= m.oldestAge.value as real
  {
    AgesOnePerClient(s);
    FindAllCount(s);
    MeanBetweenExtremes(GetAllAges(s));
  }

  /** `findClientsByFirstName`. */
  function FindClientsByFirstName(s: Store, firstName: string): (r: seq<Client>)
    ensures WellFormed(s) ==> forall c :: c in r <==> InTable(s, c) && FirstNameContains(c, firstName)
  {
    FindByFirstNameContainingIgnoreCase(s, firstName)
  }

  /** `findClientsByAgeRange`: an inverted range is an IllegalArgumentException, otherwise the range query. */
  function FindClientsByAgeRange(s: Store, minAge: Int32, maxAge: Int32): (r: Result<seq<Client>, ServiceError>)
    ensures r.Err? <==> minAge > maxAge
    ensures r.Err? ==> r.error == IllegalArgument(InvalidRangeMessage)
    ensures r.Ok? ==> forall c :: c in r.value ==> AgeBetween(c, minAge, maxAge)
    ensures r.Ok? && WellFormed(s) ==> forall c :: InTable(s, c) && AgeBetween(c, minAge, maxAge) ==> c in r.value
    ensures r.Ok? ==> SortedBy(r.value, AgeKey)
  {
    if minAge > maxAge then Err(IllegalArgument(InvalidRangeMessage))
    else Ok(FindByAgeRange(s, minAge, maxAge))
  }
}
