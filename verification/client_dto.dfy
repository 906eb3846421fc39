/**
 * ClientDTO: the create/update request with its Bean Validation constraints,
 * the client view, the metrics view and the generic response envelope. The
 * `timestamp`/`calculatedAt` stamps (`LocalDate.now()`) are not modelled.
 */
module ClientDto {
  import opened Basics
  import opened Dates

  /** The JSON body of create and update; absent properties are null. */
  datatype CreateClientRequest = CreateClientRequest(
    firstName: Option<string>,
    lastName: Option<string>,
    age: Option<Int32>,
    birthDate: Option<Date>)

  /** `@NotBlank`: non-null and not only characters `trim` removes. */
  predicate NotBlank(s: Option<string>)
  {
    s.Some? && !IsBlank(s.value)
  }

  /**
   * What `@Valid` checks before a handler runs: both names @NotBlank, age
   * @NotNull and @Positive, birth date @NotNull and @Past (strictly before today).
   */
  predicate ValidRequest(req: CreateClientRequest, today: Date)
  {
    && NotBlank(req.firstName)
    && NotBlank(req.lastName)
    && req.age.Some? && req.age.value > 0
    && req.birthDate.Some? && Before(req.birthDate.value, today)
  }

  datatype ClientResponse = ClientResponse(
    id: Option<int>,
    firstName: Option<string>,
    lastName: Option<string>,
    fullName: string,
    age: Option<Int32>,
    currentAge: int,
    birthDate: Option<Date>,
    lifeExpectancyDate: Date,
    createdAt: Option<Date>,
    updatedAt: Option<Date>)

  /** Averages are exact here where the service computes in `double`. */
  datatype ClientMetrics = ClientMetrics(
    totalClients: int,
    averageAge: real,
    ageStandardDeviation: real,
    youngestAge: Option<Int32>,
    oldestAge: Option<Int32>)

  /** `ApiResponse<T>`: a success flag, a message and possibly-null data. */
  datatype ApiResponse<T> = ApiResponse(success: bool, message: string, data: Option<T>)

  /** A `ResponseEntity`: the HTTP status and the envelope, absent when the framework writes its own error body. */
  datatype Response<T> = Response(status: int, body: Option<ApiResponse<T>>)

  /** `ApiResponse.success(data, message)`. */
  function Success<T>(data: Option<T>, message: string): (r: ApiResponse<T>)
    ensures r.success && r.message == message && r.data == data
  {
    ApiResponse(true, message, data)
  }

  /** `ApiResponse.error(message)`: no data. */
  function Error<T>(message: string): (r: ApiResponse<T>)
    ensures !r.success && r.message == message && r.data.None?
  {
    ApiResponse(false, message, None)
  }
}
