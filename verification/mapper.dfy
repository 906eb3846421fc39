/**
 * ClientMapper: conversions between the request/response objects and the
 * Client entity, including the partial update used by the update operation.
 * `today` stands for `LocalDate.now()` wherever the entity stamps a date.
 */
module ClientMapper {
  import opened Basics
  import opened Dates
  import opened ClientEntity
  import opened ClientDto

  /** `toEntity`: null for a null request, otherwise a new transient client carrying the request's four fields. */
  function ToEntity(request: Option<CreateClientRequest>, today: Date): (c: Option<Client>)
    ensures c.None? <==> request.None?
    ensures c.Some? ==>
      && c.value.id.None?
      && c.value.firstName == request.value.firstName
      && c.value.lastName == request.value.lastName
      && c.value.age == request.value.age
      && c.value.birthDate == request.value.birthDate
      && c.value.createdAt == Some(today) && c.value.updatedAt == Some(today)
  {
    match request
    case None => None
    case Some(r) => Some(NewClient(r.firstName, r.lastName, r.age, r.birthDate, today))
  }

  /**
   * `toDto`: the stored fields plus the derived full name, current age and
   * life-expectancy date. A client without a birth date makes the derived
   * computations throw; that is `None` here.
   */
  function ToDto(c: Client, today: Date): (r: Option<ClientResponse>)
    ensures r.Some? <==> c.birthDate.Some?
    ensures r.Some? ==>
      && r.value.id == c.id
      && r.value.firstName == c.firstName && r.value.lastName == c.lastName
      && r.value.age == c.age && r.value.birthDate == c.birthDate
      && r.value.createdAt == c.createdAt && r.value.updatedAt == c.updatedAt
      && r.value.fullName == FullName(c)
      && Some(r.value.currentAge) == CurrentAge(c, today)
      && Some(r.value.lifeExpectancyDate) == LifeExpectancyDate(c)
  {
    match (CurrentAge(c, today), LifeExpectancyDate(c))
    case (Some(age), Some(expectancy)) =>
      Some(ClientResponse(c.id, c.firstName, c.lastName, FullName(c), c.age, age,
                          c.birthDate, expectancy, c.createdAt, c.updatedAt))
    case _ => None
  }

  /**
   * `toDtoList`: an empty list for null, otherwise `toDto` element by element
   * in the same order; `None` when one of the conversions throws.
   */
  function ToDtoList(clients: Option<seq<Client>>, today: Date): (r: Option<seq<ClientResponse>>)
    ensures clients.None? ==> r == Some([])
    ensures clients.Some? ==>
      (r.Some? <==> forall i :: 0 <= i < |clients.value| ==> clients.value[i].birthDate.Some?)
    ensures clients.Some? && r.Some? ==>
      |r.value| == |clients.value|
      && forall i :: 0 <= i < |clients.value| ==> Some(r.value[i]) == ToDto(clients.value[i], today)
  {
    match clients
    case None => Some([])
    case Some(cs) => MapToDto(cs, today)
  }

  function MapToDto(cs: seq<Client>, today: Date): (r: Option<seq<ClientResponse>>)
    ensures r.Some? <==> forall i :: 0 <= i < |cs| ==> cs[i].birthDate.Some?
    ensures r.Some? ==> |r.value| == |cs| && forall i :: 0 <= i < |cs| ==> Some(r.value[i]) == ToDto(cs[i], today)
  {
    if cs == [] then Some([])
    else
      match (ToDto(cs[0], today), MapToDto(cs[1..], today))
      case (Some(d), Some(ds)) =>
        assert forall i :: 1 <= i < |cs| ==> cs[i] == cs[1..][i - 1];
        Some([d] + ds)
      case (_, rest) =>
        assert rest.None? ==> exists i :: 1 <= i < |cs| && cs[i] == cs[1..][i - 1] && cs[i].birthDate.None?;
        None
  }

  /**
   * `updateEntity`: with a null client or null request the client comes back
   * unchanged; otherwise every non-null request field overwrites the entity's
   * through its audited setter.
   */
  function UpdateEntity(client: Option<Client>, request: Option<CreateClientRequest>, today: Date): (r: Option<Client>)
    ensures client.None? || request.None? ==> r == client
  {
    if client.None? || request.None? then client
    else
      var c := client.value;
      var req := request.value;
      var c1 := if req.firstName.Some? then SetFirstName(c, req.firstName, today) else c;
      var c2 := if req.lastName.Some? then SetLastName(c1, req.lastName, today) else c1;
      var c3 := if req.age.Some? then SetAge(c2, req.age, today) else c2;
      var c4 := if req.birthDate.Some? then SetBirthDate(c3, req.birthDate, today) else c3;
      Some(c4)
  }

  /** A request field that is present wins, an absent one keeps the old value. */
  function Merge<T>(requested: Option<T>, current: Option<T>): Option<T>
  {
    if requested.Some? then requested else current
  }

  /** Some field of the request is present. */
  predicate Touches(req: CreateClientRequest)
  {
    req.firstName.Some? || req.lastName.Some? || req.age.Some? || req.birthDate.Some?
  }

  /**
   * The partial update overwrites exactly the present fields, never the
   * identity or the creation date, and stamps the modification date only
   * when it set something.
   */
  lemma UpdateEntityIsPartial(c: Client, req: CreateClientRequest, today: Date)
    ensures var r := UpdateEntity(Some(c), Some(req), today).value;
      && r.id == c.id && r.createdAt == c.createdAt
      && r.firstName == Merge(req.firstName, c.firstName)
      && r.lastName == Merge(req.lastName, c.lastName)
      && r.age == Merge(req.age, c.age)
      && r.birthDate == Merge(req.birthDate, c.birthDate)
      && r.updatedAt == (if Touches(req) then Some(today) else c.updatedAt)
  {
  }

  /** Applying the same request twice is the same as applying it once. */
  lemma UpdateEntityIdempotent(c: Client, req: CreateClientRequest, today: Date)
    ensures var once := UpdateEntity(Some(c), Some(req), today);
      UpdateEntity(once, Some(req), today) == once
  {
    UpdateEntityIsPartial(c, req, today);
    UpdateEntityIsPartial(UpdateEntity(Some(c), Some(req), today).value, req, today);
  }

  /** `toApiResponse(Client, message)`: a success envelope around `toDto`, or the exception it throws. */
  function ClientApiResponse(c: Client, message: string, today: Date): (r: Option<ApiResponse<ClientResponse>>)
    ensures r.Some? <==> c.birthDate.Some?
    ensures r.Some? ==> r.value.success && r.value.message == message && r.value.data == ToDto(c, today)
  {
    match ToDto(c, today)
    case None => None
    case Some(dto) => Some(Success(Some(dto), message))
  }

  /** `toApiResponse(List<Client>, message)`: a success envelope around `toDtoList`. */
  function ListApiResponse(clients: seq<Client>, message: string, today: Date): (r: Option<ApiResponse<seq<ClientResponse>>>)
    ensures r.Some? <==> forall i :: 0 <= i < |clients| ==> clients[i].birthDate.Some?
    ensures r.Some? ==> r.value.success && r.value.message == message && r.value.data == ToDtoList(Some(clients), today)
  {
    match ToDtoList(Some(clients), today)
    case None => None
    case Some(dtos) => Some(Success(Some(dtos), message))
  }
}
