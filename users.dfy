/**
 * The record shapes of the user service: one row of the `users` table and
 * the two request bodies, plus the Option and Result wrappers the handlers
 * use for nullable columns and for their failures.
 */
module Users {

  /** A nullable column or an optional request field. */
  datatype Option<+T> = None | Some(value: T)

  /** The two ways a handler can fail: no row with the id (the 404 branches),
    * or a write that breaks the unique constraint on `email`. */
  datatype Error = NotFound | Conflict

  datatype Result<+T> = Ok(value: T) | Err(error: Error)

  /** A UTC timestamp, abstracted to an integer. */
  type Time = int

  /** The salt drawn by the hashing library for one call. */
  type Salt = string

  /** One row of `users`. The primary key and `created_at` are always set;
    * every other column is nullable, so an update may store null in it. */
  datatype User = User(
    id: int,
    name: Option<string>,
    email: Option<string>,
    password: Option<string>,
    roleId: Option<int>,
    createdAt: Time,
    deletedAt: Option<Time>)

  /** A record is active exactly when it has not been soft-deleted. */
  predicate Active(u: User) {
    u.deletedAt.None?
  }

  /** The body of a create request: every field is required. It is also the
    * shape of the create response. */
  datatype UserCreate = UserCreate(name: string, email: string, password: string, roleId: int)

  /** The body of an update request: every field may be null. */
  datatype UserUpdate = UserUpdate(
    name: Option<string>,
    email: Option<string>,
    password: Option<string>,
    roleId: Option<int>)
}
