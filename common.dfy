/** Shared vocabulary: identifiers, timestamps, optional values and the three
    error kinds every operation of the database block can report. */
module Common {

  /** Row, database, property, user and workspace identifiers (uuids in the store). */
  type Id = string

  /** A point in time as handed in by the caller (`new Date()` / `now()` in the store). */
  type Timestamp = nat

  datatype Option<+T> = None | Some(value: T) {
    function GetOr(default: T): T {
      match this
      case Some(v) => v
      case None => default
    }
  }

  /** NotFound maps to 404, InvalidState to 400 (BadRequestException), Conflict to 409
      (a unique-constraint violation on insert). */
  datatype Error = NotFound | InvalidState | Conflict

  datatype Result<+T> = Ok(value: T) | Err(error: Error)
}
