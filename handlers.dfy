/**
 * The five request handlers of the user service as functions from the
 * `users` table before the request to the handler's answer and the table
 * after it. The query, commit and refresh calls of the database session
 * become map lookups and map updates; the unique constraint on `email` is
 * checked where the database would reject the commit.
 */
module Handlers {
  import opened Users

  /** The whole `users` table: rows keyed by primary key, and the next value
    * the auto-increment counter hands out. */
  datatype Table = Table(rows: map<int, User>, nextId: int)

  /** What one handler returns, together with the table it leaves behind. */
  datatype Step<+T> = Step(result: Result<T>, after: Table)

  /** A freshly created table: no rows, auto-increment starting at 1. */
  const Empty: Table := Table(map[], 1)

  /** The table's integrity: each row sits under its own primary key, every
    * key is below the counter, and no two rows share a non-null email
    * (SQL lets any number of rows hold a null under a unique constraint). */
  ghost predicate Valid(t: Table) {
    && (forall id :: id in t.rows ==> t.rows[id].id == id && id < t.nextId)
    && (forall a, b :: a in t.rows && b in t.rows && a != b && t.rows[a].email.Some? ==>
          t.rows[a].email != t.rows[b].email)
  }

  /** Some row of `rows`, active or soft-deleted, holds email `e`. */
  predicate EmailTaken(rows: map<int, User>, e: string) {
    exists id :: id in rows && rows[id].email == Some(e)
  }

  /** The row `create_user` inserts: the request's fields with the password
    * replaced by its hash, `created_at` defaulted to now, not deleted. */
  function NewRow(id: int, req: UserCreate, hashed: string, now: Time): User {
    User(id, Some(req.name), Some(req.email), Some(hashed), Some(req.roleId), now, None)
  }

  /** The effect of the `setattr` loop of `update_user` on one record: every
    * field of the request is written, a null one included. */
  function Overwrite(rec: User, u: UserUpdate): User {
    rec.(name := u.name, email := u.email, password := u.password, roleId := u.roleId)
  }

  /** `readAll`: every record that is not soft-deleted. The query yields a
    * list in every case, so the "not found" branch after it is never taken. */
  function ReadAll(t: Table): (r: Result<set<User>>)
    ensures r.Ok?
    ensures forall id :: id in t.rows ==> (t.rows[id] in r.value <==> Active(t.rows[id]))
    ensures forall u :: u in r.value ==> Active(u) && exists id :: id in t.rows && t.rows[id] == u
    ensures Valid(t) ==> forall u :: u in r.value ==> u.id in t.rows && t.rows[u.id] == u
  {
    Ok(set id | id in t.rows && Active(t.rows[id]) :: t.rows[id])
  }

  /** `read_user`: the record with the id, soft-deleted or not. */
  function ReadUser(t: Table, id: int): (r: Result<User>)
    ensures r.Ok? <==> id in t.rows
    ensures r.Ok? ==> r.value == t.rows[id]
    ensures r.Err? ==> r.error == NotFound
    ensures Valid(t) ==> (r.Ok? <==> exists k :: k in t.rows && t.rows[k].id == id)
  {
    if id in t.rows then Ok(t.rows[id]) else Err(NotFound)
  }

  /** `create_user`: inserts one row under the next auto-increment id, unless
    * the email is already held by any row, deleted or not. The answer echoes
    * the stored name, email, hashed password and role. */
  function CreateUser(t: Table, req: UserCreate, hashpw: (string, Salt) -> string, salt: Salt, now: Time)
    : (r: Step<UserCreate>)
    ensures r.result.Err? <==> EmailTaken(t.rows, req.email)
    ensures r.result.Err? ==> r.result.error == Conflict && r.after == t
    ensures r.result.Ok? ==>
      && r.result.value == UserCreate(req.name, req.email, hashpw(req.password, salt), req.roleId)
      && r.after.nextId == t.nextId + 1
      && r.after.rows.Keys == t.rows.Keys + {t.nextId}
      && r.after.rows[t.nextId].id == t.nextId
      && r.after.rows[t.nextId].name == Some(req.name)
      && r.after.rows[t.nextId].email == Some(req.email)
      && r.after.rows[t.nextId].password == Some(hashpw(req.password, salt))
      && r.after.rows[t.nextId].roleId == Some(req.roleId)
      && r.after.rows[t.nextId].createdAt == now
      && r.after.rows[t.nextId].deletedAt == None
      && (forall id :: id in t.rows && id != t.nextId ==> r.after.rows[id] == t.rows[id])
    ensures Valid(t) ==> t.nextId !in t.rows && Valid(r.after)
  {
    if EmailTaken(t.rows, req.email) then
      Step(Err(Conflict), t)
    else
      var hashed := hashpw(req.password, salt);
      var row := NewRow(t.nextId, req, hashed, now);
      Step(Ok(UserCreate(row.name.value, row.email.value, row.password.value, row.roleId.value)),
           Table(t.rows[t.nextId := row], t.nextId + 1))
  }

  /** `update_user`: overwrites name, email, password and role of the record
    * with the id by the request's values, nulls included and the password
    * stored as given (unhashed); nothing checks whether the record is
    * soft-deleted. Fails when no record has the id, or when the new email is
    * held by another row (the commit breaks the unique constraint and is
    * rolled back). */
  function UpdateUser(t: Table, id: int, u: UserUpdate): (r: Step<User>)
    ensures id !in t.rows ==> r == Step(Err(NotFound), t)
    ensures r.result == Err(NotFound) <==> id !in t.rows
    ensures id in t.rows && (u.email.None? || !EmailTaken(t.rows - {id}, u.email.value)) ==> r.result.Ok?
    ensures r.result.Err? ==> r.after == t
    ensures id in t.rows ==>
      (r.result == Err(Conflict) <==> u.email.Some? && EmailTaken(t.rows - {id}, u.email.value))
    ensures r.result.Ok? ==>
      && id in t.rows
      && r.after == Table(t.rows[id := r.result.value], t.nextId)
      && r.result.value.name == u.name
      && r.result.value.email == u.email
      && r.result.value.password == u.password
      && r.result.value.roleId == u.roleId
      && r.result.value.id == t.rows[id].id
      && r.result.value.createdAt == t.rows[id].createdAt
      && r.result.value.deletedAt == t.rows[id].deletedAt
    ensures Valid(t) ==> Valid(r.after)
  {
    if id !in t.rows then
      Step(Err(NotFound), t)
    else
      var rec := Overwrite(t.rows[id], u);
      if rec.email.Some? && EmailTaken(t.rows - {id}, rec.email.value) then
        Step(Err(Conflict), t)
      else
        ReplaceKeepsValid(t, id, rec);
        Step(Ok(rec), Table(t.rows[id := rec], t.nextId))
  }

  /** `delete_user`: stamps `deleted_at` of the record with the id with now,
    * whether or not it was deleted before, and answers the record re-read. */
  function DeleteUser(t: Table, id: int, now: Time): (r: Step<User>)
    ensures r.result.Err? <==> id !in t.rows
    ensures r.result.Err? ==> r.result.error == NotFound && r.after == t
    ensures r.result.Ok? ==>
      && r.result.value == t.rows[id].(deletedAt := Some(now))
      && r.after == Table(t.rows[id := r.result.value], t.nextId)
      && !Active(r.result.value)
    ensures Valid(t) ==> Valid(r.after)
  {
    if id !in t.rows then
      Step(Err(NotFound), t)
    else
      var rec := t.rows[id].(deletedAt := Some(now));
      Step(ReadUser(Table(t.rows[id := rec], t.nextId), id), Table(t.rows[id := rec], t.nextId))
  }

  /** Replacing a row by a record with the same id keeps the table valid as
    * long as its email, when set, is held by no other row. */
  lemma ReplaceKeepsValid(t: Table, id: int, rec: User)
    requires id in t.rows && rec.id == t.rows[id].id
    requires rec.email.Some? ==> !EmailTaken(t.rows - {id}, rec.email.value)
    ensures Valid(t) ==> Valid(Table(t.rows[id := rec], t.nextId))
  {
    var after := t.rows[id := rec];
    if Valid(t) {
      forall a, b | a in after && b in after && a != b && after[a].email.Some?
        ensures after[a].email != after[b].email
      {
        if a == id {
          assert b in t.rows - {id};
        } else if b == id {
          assert a in t.rows - {id};
        }
      }
    }
  }
}
