/**
 * The request/response layer of the adapter: what one HTTP round trip to the
 * host can answer, which status codes count as success, and how a decoded,
 * optionally validated body becomes a value or an error.  Sockets, headers,
 * credentials and JSON text are abstracted away: a reply says whether the
 * host was reached, with which status code, and whether the body decoded
 * into the expected shape with all required fields present.
 */
module Transport {
  import opened Wrappers

  /** Why an adapter operation failed. */
  datatype Error =
    | TransportFailed                 // the round trip itself did not complete
    | UnexpectedStatus(code: int)     // the host answered outside the success codes
    | ParseFailed                     // the body was not JSON of the expected shape
    | MissingFields                   // the body decoded but lacks a required field
    | IdentityUnavailable(cause: Error) // the caller's own UUID could not be resolved

  /** The body of an answered request: undecodable, or decoded into a value.
      `complete` says whether every field the validator requires is present. */
  datatype Payload<T> = Garbled | Decoded(value: T, complete: bool)

  /** What one request to the host produced. */
  datatype Reply<T> = Unreachable | Answered(code: int, payload: Payload<T>)

  const StatusOK: int := 200
  const StatusCreated: int := 201
  const StatusNoContent: int := 204

  /** The status codes the adapter accepts as a successful response. */
  predicate IsSuccessStatus(code: int) {
    code == StatusOK || code == StatusCreated || code == StatusNoContent
  }

  /** A request whose response body is not used (POST, DELETE). */
  function Send<T>(reply: Reply<T>): (r: Result<(), Error>)
    ensures r.Success? <==> reply.Answered? && IsSuccessStatus(reply.code)
    ensures reply.Unreachable? ==> r == Failure(TransportFailed)
    ensures reply.Answered? && r.Failure? ==> r.error == UnexpectedStatus(reply.code)
  {
    match reply
    case Unreachable => Failure(TransportFailed)
    case Answered(code, _) =>
      if IsSuccessStatus(code) then Success(()) else Failure(UnexpectedStatus(code))
  }

  /** A request whose body is decoded and, when `validate` holds, checked for
      its required fields before it is trusted. */
  function Receive<T>(reply: Reply<T>, validate: bool): (r: Result<T, Error>)
    ensures r.Success? <==>
      && Send(reply).Success?
      && reply.payload.Decoded?
      && (validate ==> reply.payload.complete)
    ensures r.Success? ==> r.value == reply.payload.value
    ensures Send(reply).Failure? ==> r == Failure(Send(reply).error)
    ensures Send(reply).Success? && reply.payload.Garbled? ==> r == Failure(ParseFailed)
    ensures (Send(reply).Success? && reply.payload.Decoded? && validate && !reply.payload.complete)
      ==> r == Failure(MissingFields)
  {
    var _ :- Send(reply);
    match reply.payload
    case Garbled => Failure(ParseFailed)
    case Decoded(value, complete) =>
      if validate && !complete then Failure(MissingFields) else Success(value)
  }
}
