/**
 * Values that cross the boundary of a request handler: optional columns,
 * request-body fields as JSON delivers them, and how a handler ends.
 */
module Outcomes {

  /** A nullable column or value. */
  datatype Option<+T> = None | Some(value: T)

  /**
   * A field read from a JSON request body: the key is missing (JavaScript
   * `undefined`), it is present with the value `null`, or it carries a value.
   */
  datatype Field<+T> = Absent | Null | Given(value: T)

  /**
   * How a handler fails: an `ApiError` it throws with an HTTP status, or a
   * JavaScript `TypeError` raised by the runtime (a method called on `null`,
   * a property read on `undefined`) and handed to the error middleware.
   */
  datatype Failure = ApiError(status: int) | TypeError

  /** What a handler answers: its payload, or the failure it passes on. */
  datatype Result<+T> = Ok(value: T) | Err(failure: Failure)

  const BadRequest: int := 400
  const NotFound: int := 404
  const Conflict: int := 409
}
