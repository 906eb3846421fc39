/**
 * ClientController: the REST handlers of `/api/v1/clients`, from a request
 * that has already passed authorization (the URL rules and `@PreAuthorize`
 * are in Policy) to the status and the response envelope. A request body that
 * fails `@Valid` is answered 400 by the framework before the handler runs;
 * that reply carries the framework's own body, `None` here.
 */
module ClientApi {
  import opened Basics
  import opened Dates
  import opened ClientEntity
  import opened ClientDto
  import opened ClientMapper
  import opened Repository
  import opened ClientService

  const StatusOk: int := 200
  const StatusCreated: int := 201
  const StatusBadRequest: int := 400
  const StatusNotFound: int := 404
  const StatusServerError: int := 500

  const InternalErrorMessage: string := "Error interno del servidor"
  const CreatedMessage: string := "Cliente creado exitosamente"
  const FoundMessage: string := "Cliente encontrado exitosamente"
  const UpdatedMessage: string := "Cliente actualizado exitosamente"
  const DeletedMessage: string := "Cliente eliminado exitosamente"
  const MetricsMessage: string := "Métricas calculadas exitosamente"
  const InvalidRangeReply: string := "Rango de edad inválido"
  const NoCriterionMessage: string := "Debe proporcionar al menos un criterio de búsqueda"
  const HealthMessage: string := "Servicio de gestión de clientes funcionando correctamente"

  /** A handler that can write: the store after it, and its reply. */
  datatype Handled<T> = Handled(store: Store, response: Response<T>)

  /** The 500 reply of every handler's catch-all. */
  function InternalError<T>(): (r: Response<T>)
    ensures r.status == StatusServerError && r.body == Some(Error(InternalErrorMessage))
  {
    Response(StatusServerError, Some(Error(InternalErrorMessage)))
  }

  /**
   * The catch clauses: an IllegalArgumentException answers `onIllegal` with
   * its own message, anything else answers 500.
   */
  function Failure<T>(e: ServiceError, onIllegal: int): (r: Response<T>)
    ensures e.IllegalArgument? ==> r.status == onIllegal && r.body == Some(Error(e.message))
    ensures e.Internal? ==> r == InternalError()
  {
    match e
    case IllegalArgument(message) => Response(onIllegal, Some(Error(message)))
    case Internal => InternalError()
  }

  /** `toApiResponse(client, message)` answered with `status`, or 500 when the conversion throws. */
  function ClientReply(c: Client, message: string, status: int, today: Date): (r: Response<ClientResponse>)
    ensures c.birthDate.Some? ==>
      && r.status == status && r.body.Some? && r.body.value.success
      && r.body.value.message == message && r.body.value.data == ToDto(c, today)
    ensures c.birthDate.None? ==> r == InternalError()
  {
    match ClientApiResponse(c, message, today)
    case None => InternalError()
    case Some(body) => Response(status, Some(body))
  }

  /** A 200 with the converted list, or 500 when a conversion throws. */
  function ListReply(clients: seq<Client>, message: string, today: Date): (r: Response<seq<ClientResponse>>)
    ensures (forall i :: 0 <= i < |clients| ==> clients[i].birthDate.Some?) ==>
      && r.status == StatusOk && r.body.Some? && r.body.value.success && r.body.value.message == message
      && r.body.value.data == ToDtoList(Some(clients), today)
    ensures (exists i :: 0 <= i < |clients| && clients[i].birthDate.None?) ==> r == InternalError()
  {
    match ListApiResponse(clients, message, today)
    case None => InternalError()
    case Some(body) => Response(StatusOk, Some(body))
  }

  /** Every listed row of a well-formed table has a birth date, so its conversion cannot throw. */
  lemma ListedRowsConvert(s: Store, clients: seq<Client>)
    ensures WellFormed(s) && (forall c :: c in clients ==> InTable(s, c)) ==>
      forall i :: 0 <= i < |clients| ==> clients[i].birthDate.Some?
  {
    if WellFormed(s) && (forall c :: c in clients ==> InTable(s, c)) {
      forall i | 0 <= i < |clients|
        ensures clients[i].birthDate.Some?
      {
        assert clients[i] in clients;
        var k :| k in s.rows && s.rows[k] == clients[i];
      }
    }
  }

  /** POST: validate, create, answer 201 with the new client; a duplicate or incoherent age is a 400. */
  function CreateClientHandler(s: Store, request: CreateClientRequest, today: Date): (r: Handled<ClientResponse>)
    ensures !ValidRequest(request, today) ==> r == Handled(s, Response(StatusBadRequest, None))
    ensures r.response.status == StatusCreated <==> ValidRequest(request, today) && CreateAccepted(s, request, today)
    ensures r.response.status in {StatusCreated, StatusBadRequest, StatusServerError}
    ensures r.response.status != StatusCreated ==> r.store == s
    ensures r.response.status == StatusCreated ==>
      && r.store.nextId == s.nextId + 1
      && s.nextId in r.store.rows
      && r.response.body.Some? && r.response.body.value.data == ToDto(r.store.rows[s.nextId], today)
    ensures ValidRequest(request, today) && FindByFirstNameAndLastName(s, request.firstName, request.lastName).Unique? ==>
      r.response == Response(StatusBadRequest, Some(Error(DuplicateMessage + request.firstName.value + " " + request.lastName.value)))
    ensures WellFormed(s) ==> WellFormed(r.store)
  {
    if !ValidRequest(request, today) then Handled(s, Response(StatusBadRequest, None))
    else
      var step := CreateClient(s, request, today);
      match step.result
      case Err(e) => Handled(s, Failure(e, StatusBadRequest))
      case Ok(c) => Handled(step.store, ClientReply(c, CreatedMessage, StatusCreated, today))
  }

  /** GET: every client, with a message counting them. */
  function GetAllClientsHandler(s: Store, today: Date): (r: Response<seq<ClientResponse>>)
    ensures r.status in {StatusOk, StatusServerError}
    ensures WellFormed(s) ==>
      && r.status == StatusOk && r.body.Some?
      && r.body.value.message == "Se encontraron " + NatToString(Count(s)) + " clientes"
      && r.body.value.data.Some? && |r.body.value.data.value| == Count(s)
    ensures WellFormed(s) ==> r.body.value.data == ToDtoList(Some(FindAll(s)), today)
  {
    var clients := GetAllClients(s);
    ListedRowsConvert(s, clients);
    ListReply(clients, "Se encontraron " + NatToString(|clients|) + " clientes", today)
  }

  /** GET /{id}: the client, or 404 with the service's message naming the id. */
  function GetClientByIdHandler(s: Store, id: int, today: Date): (r: Response<ClientResponse>)
    ensures r.status == StatusNotFound <==> id !in s.rows
    ensures id !in s.rows ==> r.body == Some(Error(NotFound(id)))
    ensures WellFormed(s) && id in s.rows ==>
      && r.status == StatusOk && r.body.Some? && r.body.value.message == FoundMessage
      && r.body.value.data == ToDto(s.rows[id], today)
  {
    match GetClientById(s, id)
    case Err(e) => Failure(e, StatusNotFound)
    case Ok(c) => ClientReply(c, FoundMessage, StatusOk, today)
  }

  /**
   * PUT /{id}: validate, update, answer 200; an unknown id is a 404. The
   * update checks neither duplicates nor the age against the birth date.
   */
  function UpdateClientHandler(s: Store, id: int, request: CreateClientRequest, today: Date): (r: Handled<ClientResponse>)
    ensures !ValidRequest(request, today) ==> r == Handled(s, Response(StatusBadRequest, None))
    ensures ValidRequest(request, today) ==> (r.response.status == StatusNotFound <==> id !in s.rows)
    ensures ValidRequest(request, today) && id !in s.rows ==> r.response.body == Some(Error(NotFound(id)))
    ensures r.response.status in {StatusOk, StatusBadRequest, StatusNotFound, StatusServerError}
    ensures r.response.status != StatusOk ==> r.store == s
    ensures WellFormed(s) ==> WellFormed(r.store)
  {
    if !ValidRequest(request, today) then Handled(s, Response(StatusBadRequest, None))
    else
      var step := UpdateClient(s, id, request, today);
      match step.result
      case Err(e) => Handled(s, Failure(e, StatusNotFound))
      case Ok(c) => Handled(step.store, ClientReply(c, UpdatedMessage, StatusOk, today))
  }

  /**
   * A valid update of a stored client whose names fit their columns succeeds
   * and replaces all four fields, keeping the identity and the creation date:
   * `@Valid` demands every field, so the partial update never keeps one.
   */
  lemma UpdateReplacesAllFields(s: Store, id: int, request: CreateClientRequest, today: Date)
    requires WellFormed(s) && id in s.rows
    requires ValidRequest(request, today)
    requires |request.firstName.value| <= NameLength && |request.lastName.value| <= NameLength
    ensures var r := UpdateClientHandler(s, id, request, today);
      && r.response.status == StatusOk
      && r.store.rows == s.rows[id := Client(Some(id), request.firstName, request.lastName, request.age,
                                             request.birthDate, s.rows[id].createdAt, Some(today))]
  {
    UpdateEntityIsPartial(s.rows[id], request, today);
  }

  /** DELETE /{id}: 200 with no data, or 404 naming the id. */
  function DeleteClientHandler(s: Store, id: int): (r: Handled<()>)
    ensures r.response.status == StatusOk <==> id in s.rows
    ensures r.response.status != StatusOk ==>
      r.response == Response(StatusNotFound, Some(Error(NotFound(id)))) && r.store == s
    ensures r.response.status == StatusOk ==>
      r.response.body == Some(Success(None, DeletedMessage)) && r.store.rows == s.rows - {id}
    ensures WellFormed(s) ==> WellFormed(r.store)
  {
    var step := DeleteClient(s, id);
    match step.result
    case Err(e) => Handled(s, Failure(e, StatusNotFound))
    case Ok(_) => Handled(step.store, Response(StatusOk, Some(Success(None, DeletedMessage))))
  }

  /** A second delete of the same id is a 404. */
  lemma DeleteTwiceNotFound(s: Store, id: int)
    requires id in s.rows
    ensures var first := DeleteClientHandler(s, id);
      && first.response.status == StatusOk
      && DeleteClientHandler(first.store, id).response.status == StatusNotFound
  {
  }

  /** GET /metrics: always 200 with the service's metrics. */
  function MetricsHandler(s: Store, sqrt: real -> real): (r: Response<ClientMetrics>)
    ensures r.status == StatusOk && r.body.Some? && r.body.value.success && r.body.value.message == MetricsMessage
    ensures r.body.value.data.Some? && r.body.value.data.value.totalClients == Count(s)
    ensures Count(s) == 0 ==> r.body.value.data == Some(NoMetrics)
    ensures r.body.value.data == Some(GetClientMetrics(s, sqrt))
  {
    Response(StatusOk, Some(Success(Some(GetClientMetrics(s, sqrt)), MetricsMessage)))
  }

  /** A first name that is present and not blank once trimmed; it takes precedence over the ages. */
  predicate NameGiven(firstName: Option<string>)
  {
    firstName.Some? && !IsBlank(firstName.value)
  }

  /** `minAge < 0 || maxAge < 0 || minAge > maxAge`. */
  predicate BadRange(minAge: Int32, maxAge: Int32)
  {
    minAge < 0 || maxAge < 0 || minAge > maxAge
  }

  /**
   * GET /search: by the trimmed first name when one is given, else by the
   * age range when both ends are given, else 400. The name message quotes the
   * name as sent, before trimming.
   */
  function SearchHandler(s: Store, firstName: Option<string>, minAge: Option<Int32>, maxAge: Option<Int32>, today: Date): (r: Response<seq<ClientResponse>>)
    ensures r.status == StatusBadRequest <==>
      !NameGiven(firstName) && (minAge.None? || maxAge.None? || BadRange(minAge.value, maxAge.value))
    ensures !NameGiven(firstName) && (minAge.None? || maxAge.None?) ==>
      r == Response(StatusBadRequest, Some(Error(NoCriterionMessage)))
    ensures !NameGiven(firstName) && minAge.Some? && maxAge.Some? && BadRange(minAge.value, maxAge.value) ==>
      r == Response(StatusBadRequest, Some(Error(InvalidRangeReply)))
    ensures WellFormed(s) ==> r.status != StatusServerError
    ensures WellFormed(s) && NameGiven(firstName) ==>
      var found := FindClientsByFirstName(s, Trim(firstName.value));
      && r.body.Some? && r.body.value.data == ToDtoList(Some(found), today)
      && r.body.value.message == "Se encontraron " + NatToString(|found|) + " clientes con el nombre '" + firstName.value + "'"
    ensures WellFormed(s) && !NameGiven(firstName) && minAge.Some? && maxAge.Some? && !BadRange(minAge.value, maxAge.value) ==>
      var found := FindClientsByAgeRange(s, minAge.value, maxAge.value).value;
      && r.status == StatusOk
      && r.body.Some? && r.body.value.data == ToDtoList(Some(found), today)
      && r.body.value.message == RangeMessage(|found|, minAge.value, maxAge.value)
  {
    if NameGiven(firstName) then NameSearch(s, firstName.value, today)
    else if minAge.Some? && maxAge.Some? then
      if BadRange(minAge.value, maxAge.value) then Response(StatusBadRequest, Some(Error(InvalidRangeReply)))
      else RangeSearch(s, minAge.value, maxAge.value, today)
    else Response(StatusBadRequest, Some(Error(NoCriterionMessage)))
  }

  /** The name branch of the search: a case-insensitive match on the trimmed name. */
  function NameSearch(s: Store, firstName: string, today: Date): (r: Response<seq<ClientResponse>>)
    ensures r.status == StatusOk || r.status == StatusServerError
    ensures WellFormed(s) ==>
      var found := FindClientsByFirstName(s, Trim(firstName));
      && r.status == StatusOk
      && r.body.Some? && r.body.value.data == ToDtoList(Some(found), today)
      && r.body.value.message == "Se encontraron " + NatToString(|found|) + " clientes con el nombre '" + firstName + "'"
  {
    var found := FindClientsByFirstName(s, Trim(firstName));
    ListedRowsConvert(s, found);
    ListReply(found, "Se encontraron " + NatToString(|found|) + " clientes con el nombre '" + firstName + "'", today)
  }

  /** `String.format("Se encontraron %d clientes entre %d y %d años", ...)`. */
  function RangeMessage(count: nat, minAge: int, maxAge: int): string
  {
    "Se encontraron " + NatToString(count) + " clientes entre " + IntToString(minAge) + " y " + IntToString(maxAge) + " años"
  }

  /** The age branch of the search, for a range that passed the controller's own check. */
  function RangeSearch(s: Store, minAge: Int32, maxAge: Int32, today: Date): (r: Response<seq<ClientResponse>>)
    requires !BadRange(minAge, maxAge)
    ensures r.status == StatusOk || r.status == StatusServerError
    ensures WellFormed(s) ==>
      var found := FindClientsByAgeRange(s, minAge, maxAge).value;
      && r.status == StatusOk
      && r.body.Some? && r.body.value.data == ToDtoList(Some(found), today)
      && r.body.value.message == RangeMessage(|found|, minAge, maxAge)
  {
    match FindClientsByAgeRange(s, minAge, maxAge)
    case Err(_) => InternalError()
    case Ok(found) =>
      RangeRowsInTable(s, minAge, maxAge);
      ListedRowsConvert(s, found);
      ListReply(found, RangeMessage(|found|, minAge, maxAge), today)
  }

  /**
   * The age search of a well-formed table lists exactly the clients whose age
   * lies in the range, ends included, youngest first, each converted.
   */
  lemma {:induction false} RangeSearchFindsExactly(s: Store, minAge: Int32, maxAge: Int32, today: Date)
    requires WellFormed(s)
    requires 0 <= minAge <= maxAge
    ensures var r := SearchHandler(s, None, Some(minAge), Some(maxAge), today);
      exists found: seq<Client> ::
        && r.status == StatusOk
        && r.body.Some? && r.body.value.data == ToDtoList(Some(found), today)
        && r.body.value.data.Some? && |r.body.value.data.value| == |found|
        && (forall c :: c in found <==> InTable(s, c) && AgeBetween(c, minAge as int, maxAge as int))
        && SortedBy(found, AgeKey)
  {
    var found := FindClientsByAgeRange(s, minAge, maxAge).value;
    RangeReply(s, minAge, maxAge, today);
    RangeFound(s, minAge, maxAge);
  }

  /** The age-only search answers with the conversion of the range query's clients, one per client. */
  lemma RangeReply(s: Store, minAge: Int32, maxAge: Int32, today: Date)
    requires WellFormed(s)
    requires 0 <= minAge <= maxAge
    ensures var r := SearchHandler(s, None, Some(minAge), Some(maxAge), today);
      var found := FindClientsByAgeRange(s, minAge, maxAge).value;
      && r.status == StatusOk
      && r.body.Some? && r.body.value.data == ToDtoList(Some(found), today)
      && r.body.value.data.Some? && |r.body.value.data.value| == |found|
  {
    var found := FindClientsByAgeRange(s, minAge, maxAge).value;
    assert !NameGiven(None) && !BadRange(minAge, maxAge);
    RangeRowsInTable(s, minAge, maxAge);
    ListedRowsConvert(s, found);
  }

  /** The range query's clients are exactly the stored clients in the range, ordered by age. */
  lemma RangeFound(s: Store, minAge: Int32, maxAge: Int32)
    requires WellFormed(s)
    requires minAge <= maxAge
    ensures var found := FindClientsByAgeRange(s, minAge, maxAge).value;
      && (forall c :: c in found <==> InTable(s, c) && AgeBetween(c, minAge as int, maxAge as int))
      && SortedBy(found, AgeKey)
  {
    RangeRowsInTable(s, minAge, maxAge);
  }

  lemma RangeRowsInTable(s: Store, minAge: Int32, maxAge: Int32)
    ensures WellFormed(s) && FindClientsByAgeRange(s, minAge, maxAge).Ok? ==>
      forall c :: c in FindClientsByAgeRange(s, minAge, maxAge).value ==> InTable(s, c)
  {
    if WellFormed(s) && FindClientsByAgeRange(s, minAge, maxAge).Ok? {
      var found := FindClientsByAgeRange(s, minAge, maxAge).value;
      forall c | c in found
        ensures InTable(s, c)
      {
        assert c in multiset(found);
      }
    }
  }

  /** A usable first name decides the search whatever ages come with it. */
  lemma NameTakesPrecedence(s: Store, firstName: string, min1: Option<Int32>, max1: Option<Int32>,
                            min2: Option<Int32>, max2: Option<Int32>, today: Date)
    requires !IsBlank(firstName)
    ensures SearchHandler(s, Some(firstName), min1, max1, today) == SearchHandler(s, Some(firstName), min2, max2, today)
  {
  }

  /** Padding around the name changes the message but not the clients found. */
  lemma {:induction false} SearchIgnoresPadding(s: Store, firstName: string, minAge: Option<Int32>, maxAge: Option<Int32>, today: Date)
    requires !IsBlank(firstName)
    ensures var padded := SearchHandler(s, Some(firstName), minAge, maxAge, today);
      var trimmed := SearchHandler(s, Some(Trim(firstName)), minAge, maxAge, today);
      && padded.status == trimmed.status
      && padded.body.Some? && trimmed.body.Some?
      && padded.body.value.data == trimmed.body.value.data
  {
    var name := Trim(firstName);
    assert Trim(name) == name;
    var found := FindClientsByFirstName(s, name);
    assert SearchHandler(s, Some(firstName), minAge, maxAge, today)
      == ListReply(found, "Se encontraron " + NatToString(|found|) + " clientes con el nombre '" + firstName + "'", today);
    assert SearchHandler(s, Some(name), minAge, maxAge, today)
      == ListReply(found, "Se encontraron " + NatToString(|found|) + " clientes con el nombre '" + name + "'", today);
    ListReplyIgnoresMessage(found,
      "Se encontraron " + NatToString(|found|) + " clientes con el nombre '" + firstName + "'",
      "Se encontraron " + NatToString(|found|) + " clientes con el nombre '" + name + "'", today);
  }

  /** The message of a list reply affects neither its status nor its data. */
  lemma ListReplyIgnoresMessage(clients: seq<Client>, m1: string, m2: string, today: Date)
    ensures ListReply(clients, m1, today).status == ListReply(clients, m2, today).status
    ensures ListReply(clients, m1, today).body.Some? && ListReply(clients, m2, today).body.Some?
    ensures ListReply(clients, m1, today).body.value.data == ListReply(clients, m2, today).body.value.data
  {
  }

  /** GET /health: always 200 with data "OK". */
  function HealthHandler(): (r: Response<string>)
    ensures r.status == StatusOk && r.body == Some(Success(Some("OK"), HealthMessage))
  {
    Response(StatusOk, Some(Success(Some("OK"), HealthMessage)))
  }
}
