/**
 * The uniform response envelope `{code, message, data}` and its factories.
 * A Java `null` payload is `None`.
 */
module Dto {
  import opened Wrappers

  datatype ApiResponse<T> = ApiResponse(code: int, message: string, data: Option<T>)

  /** A 2xx code: the request was handled successfully. */
  predicate IsSuccessful<T>(r: ApiResponse<T>)
  {
    200 <= r.code < 300
  }

  /** A 4xx code: the client's request was rejected. */
  predicate IsClientError<T>(r: ApiResponse<T>)
  {
    400 <= r.code < 500
  }

  /** A 5xx code: the server failed. */
  predicate IsServerError<T>(r: ApiResponse<T>)
  {
    500 <= r.code < 600
  }

  function Success<T>(data: T): (r: ApiResponse<T>)
    ensures IsSuccessful(r) && r.code == 200 && r.message == "OK"
    ensures r.data == Some(data)
  {
    ApiResponse(200, "OK", Some(data))
  }

  function Created<T>(data: T): (r: ApiResponse<T>)
    ensures IsSuccessful(r) && r.code == 201 && r.message == "Created"
    ensures r.data == Some(data)
  {
    ApiResponse(201, "Created", Some(data))
  }

  function Accepted<T>(): (r: ApiResponse<T>)
    ensures IsSuccessful(r) && r.code == 202 && r.message == "Accepted"
    ensures r.data.None?
  {
    ApiResponse(202, "Accepted", None)
  }

  function BadRequest<T>(message: string): (r: ApiResponse<T>)
    ensures IsClientError(r) && r.code == 400
    ensures r.message == message && r.data.None?
  {
    ApiResponse(400, message, None)
  }

  function NotFound<T>(message: string): (r: ApiResponse<T>)
    ensures IsClientError(r) && r.code == 404
    ensures r.message == message && r.data.None?
  {
    ApiResponse(404, message, None)
  }

  function InternalError<T>(message: string): (r: ApiResponse<T>)
    ensures IsServerError(r) && r.code == 500
    ensures r.message == message && r.data.None?
  {
    ApiResponse(500, message, None)
  }

  /** The general error factory: any code, the given message, no payload. */
  function Error<T>(code: int, message: string): (r: ApiResponse<T>)
    ensures r.code == code && r.message == message && r.data.None?
  {
    ApiResponse(code, message, None)
  }

  /** The three fixed-code error factories are instances of `Error`. */
  lemma ErrorFactoriesAreInstancesOfError<T>(message: string)
    ensures BadRequest<T>(message) == Error(400, message)
    ensures NotFound<T>(message) == Error(404, message)
    ensures InternalError<T>(message) == Error(500, message)
  {
  }

  /** Only `Success` and `Created` carry a payload; every other factory has null data. */
  lemma OnlySuccessAndCreatedCarryData<T>(data: T, code: int, message: string)
    ensures Success(data).data.Some? && Created(data).data.Some?
    ensures Accepted<T>().data.None?
    ensures BadRequest<T>(message).data.None? && NotFound<T>(message).data.None?
    ensures InternalError<T>(message).data.None? && Error<T>(code, message).data.None?
  {
  }
}
