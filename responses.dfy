/**
 * What a resource method does with a request: answer with a status and an
 * optional entity, or let a failure escape to the exception mapper.
 */
module Responses {
  import opened Wrappers
  import opened Failures
  import ExceptionMapper

  datatype Outcome<+T> = Answer(status: int, entity: Option<T>) | Raised(failure: Failure)

  /** The status the client sees; None when the exception mapper itself throws. */
  function ClientStatus<T>(o: Outcome<T>): (r: Option<int>)
    ensures o.Answer? ==> r == Some(o.status)
    ensures o.Raised? && !o.failure.Completion? ==> r == Some(ExceptionMapper.Status(o.failure))
  {
    match o
    case Answer(status, _) => Some(status)
    case Raised(f) =>
      match ExceptionMapper.ToResponse(f, "")
      case None => None
      case Some(response) => Some(response.status)
  }

  /** A service result that escapes unless the call succeeded. */
  function Propagate<T>(r: Result<T>, status: int): (o: Outcome<T>)
    ensures r.Ok? <==> o.Answer?
    ensures r.Ok? ==> o == Answer(status, Some(r.value))
    ensures r.Err? ==> o == Raised(r.error)
  {
    match r
    case Ok(v) => Answer(status, Some(v))
    case Err(e) => Raised(e)
  }
}
