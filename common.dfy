/** Values shared by every part of the model: identities, optional values and
    the error kinds a request handler answers with. */
module Common {
  /** An opaque document identity (a Mongo ObjectId). Identities are handed
      out in increasing order and never reused. */
  type Id = nat

  datatype Option<T> = None | Some(value: T) {
    function GetOr(default: T): T {
      if Some? then value else default
    }
  }

  /** Why a request was answered with status 400. */
  datatype Reason =
    | StartInPast          // start of registration lies before now
    | EndNotAfterStart     // end of registration is not after its start
    | RaceNotAfterEnd      // the race does not start after registration ends
    | AlreadyRegistered    // an active registration exists for the pair
    | AlreadyCancelled     // the registration is cancelled already
    | ValidationFailed              // the document failed schema validation

  /** The answer of a request handler: a value (2xx), or 404, 403 or 400. */
  datatype Outcome<T> = Ok(value: T) | NotFound | Forbidden | BadRequest(reason: Reason)

  /** A document together with its identity, as a query returns it. */
  datatype Stored<T> = Stored(id: Id, doc: T)

  /** Mongoose's `required` on a String path rejects a missing value and "". */
  predicate Present(s: string) {
    |s| > 0
  }
}
