/** The outcomes a handler or middleware ends a request with, as tags. The
    status codes are those of the response writers in cmd/api/errors.go and
    of the handlers' own writeJSON calls; the 401 and 403 writers are not
    part of this model and get no code. */
module Responses {
  import opened Validation
  import opened Storage

  /** The status of a handler's successful writeJSON. */
  datatype SuccessStatus = StatusOK | StatusCreated | StatusAccepted

  datatype Response =
    | Success(status: SuccessStatus)
    | BadRequest
    | NotFound
    | FailedValidation(errors: Errors)
    | EditConflict
    | RateLimitExceeded
    | ServerError
    | InvalidCredentials
    | InvalidAuthenticationToken
    | AuthenticationRequired
    | InactiveAccount
    | NotPermitted
  {
    /** Written by a helper outside this model. */
    predicate Unnumbered()
    {
      InvalidCredentials? || InvalidAuthenticationToken? || AuthenticationRequired?
      || InactiveAccount? || NotPermitted?
    }
  }

  /** The HTTP status the response is written with. */
  function StatusCode(r: Response): (code: int)
    requires !r.Unnumbered()
    ensures 200 <= code < 300 <==> r.Success?
    ensures code == 409 <==> r == EditConflict
    ensures code == 429 <==> r == RateLimitExceeded
    ensures code == 500 <==> r == ServerError
    ensures code == 400 <==> r == BadRequest || r.FailedValidation?
  {
    match r
    case Success(status) => (match status case StatusOK => 200 case StatusCreated => 201 case StatusAccepted => 202)
    case BadRequest => 400
    case NotFound => 404
    case FailedValidation(_) => 400
    case EditConflict => 409
    case RateLimitExceeded => 429
    case ServerError => 500
  }

  /** The response for a lookup by id: 404 for ErrNoRecord, 500 for any other error. */
  function LookupFailure(err: DataError): (resp: Response)
    ensures resp == NotFound <==> err == ErrNoRecord
    ensures resp != NotFound ==> resp == ServerError
  {
    if err == ErrNoRecord then NotFound else ServerError
  }

  /** The response for a failed optimistic update of a movie or a user: 409 for
      ErrEditConflict, 500 for any other error. */
  function UpdateFailure(err: DataError): (resp: Response)
    ensures resp == EditConflict <==> err == ErrEditConflict
    ensures resp != EditConflict ==> resp == ServerError
  {
    if err == ErrEditConflict then EditConflict else ServerError
  }
}
