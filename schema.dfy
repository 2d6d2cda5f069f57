/** The `documents` table and the values the server handlers pass around. */
module Schema {

  /** Opaque identifiers; Convex ids are strings, only equality matters here. */
  type DocId = nat
  type UserId = nat

  /** Milliseconds since the epoch, as `Date.now()` returns them. */
  type Timestamp = int

  /** One row of the `documents` table together with its `_id`. */
  datatype Doc = Doc(
    id: DocId,
    title: string,
    isPublic: bool,
    createdBy: UserId,
    lastModified: Timestamp)

  /** A snapshot of the table: each row stored under its own id. */
  type Table = map<DocId, Doc>

  predicate WellFormed(t: Table) {
    forall id :: id in t ==> t[id].id == id
  }

  /** The three errors the handlers throw. */
  datatype Error = NotAuthenticated | NotFound | AccessDenied

  datatype Option<T> = None | Some(value: T)

  /** A handler either returns a value or throws one of the errors above. */
  datatype Result<T> = Ok(value: T) | Err(error: Error)

  /** Outcome of a check that returns nothing or throws. */
  datatype Outcome = Pass | Fail(error: Error)

  /** The one access rule of the server: a document is readable (and, for the
      sync engine, writable) by everybody when public and by its creator always. */
  predicate CanAccess(d: Doc, user: UserId) {
    d.isPublic || d.createdBy == user
  }
}
