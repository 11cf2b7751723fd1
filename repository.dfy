/**
 * The user service as it runs: one object holding the `users` table, whose
 * three mutating handlers change the table in place. Each method is proved
 * against the matching function of module Handlers, and its contract also
 * spells out which record and which fields change and that nothing else does.
 */
module Repository {
  import opened Users
  import opened Handlers

  /** One item of `user.dict().items()`: a column name with its new value. */
  datatype Attr =
    | NameAttr(name: Option<string>)
    | EmailAttr(email: Option<string>)
    | PasswordAttr(password: Option<string>)
    | RoleIdAttr(roleId: Option<int>)

  /** The items of an update request in declaration order, nulls included. */
  function Items(u: UserUpdate): seq<Attr> {
    [NameAttr(u.name), EmailAttr(u.email), PasswordAttr(u.password), RoleIdAttr(u.roleId)]
  }

  /** `setattr(rec, key, value)` for one item. */
  function SetAttr(rec: User, a: Attr): User {
    match a
    case NameAttr(v) => rec.(name := v)
    case EmailAttr(v) => rec.(email := v)
    case PasswordAttr(v) => rec.(password := v)
    case RoleIdAttr(v) => rec.(roleId := v)
  }

  /** The loop of `update_user` that copies every item of the request onto
    * the loaded record: afterwards the four request fields hold exactly the
    * supplied values, null ones too, and id, creation and deletion time are
    * those of the record. */
  method ApplyUpdate(rec: User, u: UserUpdate) returns (r: User)
    ensures r == Overwrite(rec, u)
    ensures r.name == u.name && r.email == u.email && r.password == u.password && r.roleId == u.roleId
    ensures r.id == rec.id && r.createdAt == rec.createdAt && r.deletedAt == rec.deletedAt
  {
    var items := Items(u);
    r := rec;
    var i := 0;
    while i < |items|
      invariant 0 <= i <= |items|
      invariant r.id == rec.id && r.createdAt == rec.createdAt && r.deletedAt == rec.deletedAt
      invariant r.name == if i > 0 then u.name else rec.name
      invariant r.email == if i > 1 then u.email else rec.email
      invariant r.password == if i > 2 then u.password else rec.password
      invariant r.roleId == if i > 3 then u.roleId else rec.roleId
    {
      r := SetAttr(r, items[i]);
      i := i + 1;
    }
  }

  /** The `users` table behind the service, with its auto-increment counter
    * and the password-hashing function it is configured with. */
  class UserRepository {
    var rows: map<int, User>
    var nextId: int
    const hashpw: (string, Salt) -> string

    /** The table as a value, for stating what the handlers do to it. */
    function State(): Table
      reads this
    {
      Table(rows, nextId)
    }

    ghost predicate Valid()
      reads this
    {
      Handlers.Valid(State())
    }

    /** An empty table whose auto-increment starts at 1. */
    constructor (hashpw: (string, Salt) -> string)
      ensures Valid()
      ensures State() == Empty && this.hashpw == hashpw
    {
      rows := map[];
      nextId := 1;
      this.hashpw := hashpw;
    }

    /** `readAll`: the records not soft-deleted; reading changes nothing. */
    function ReadAll(): (r: Result<set<User>>)
      reads this
      ensures r.Ok? && forall id :: id in rows ==> (rows[id] in r.value <==> Active(rows[id]))
      ensures forall u :: u in r.value ==> Active(u) && exists id :: id in rows && rows[id] == u
    {
      Handlers.ReadAll(State())
    }

    /** `read_user`: the record under the id, soft-deleted or not. */
    function ReadUser(id: int): (r: Result<User>)
      reads this
      ensures r.Ok? <==> id in rows
      ensures r.Ok? ==> r.value == rows[id]
      ensures r.Err? ==> r.error == NotFound
    {
      Handlers.ReadUser(State(), id)
    }

    /** `create_user`: hashes the password with a fresh salt and inserts one
      * row under the next id, unless some row already holds the email. */
    method CreateUser(req: UserCreate, salt: Salt, now: Time) returns (r: Result<UserCreate>)
      requires Valid()
      modifies this
      ensures Valid()
      ensures Step(r, State()) == Handlers.CreateUser(old(State()), req, hashpw, salt, now)
      ensures r.Err? ==> r.error == Conflict && EmailTaken(old(rows), req.email)
      ensures r.Err? ==> rows == old(rows) && nextId == old(nextId)
      ensures r.Ok? ==>
        && !EmailTaken(old(rows), req.email)
        && old(nextId) !in old(rows)
        && rows == old(rows)[old(nextId) := NewRow(old(nextId), req, hashpw(req.password, salt), now)]
        && nextId == old(nextId) + 1
        && r.value == UserCreate(req.name, req.email, hashpw(req.password, salt), req.roleId)
    {
      var hashed := hashpw(req.password, salt);
      var row := NewRow(nextId, req, hashed, now);
      if EmailTaken(rows, req.email) {
        r := Err(Conflict);
        return;
      }
      rows := rows[nextId := row];
      nextId := nextId + 1;
      r := Ok(UserCreate(row.name.value, row.email.value, row.password.value, row.roleId.value));
    }

    /** `update_user`: loads the record, runs the `setattr` loop over the
      * request and commits; the commit fails on a duplicate email. */
    method UpdateUser(id: int, u: UserUpdate) returns (r: Result<User>)
      requires Valid()
      modifies this
      ensures Valid()
      ensures Step(r, State()) == Handlers.UpdateUser(old(State()), id, u)
      ensures nextId == old(nextId)
      ensures r.Err? ==> rows == old(rows)
      ensures r == Err(NotFound) <==> id !in old(rows)
      ensures id in old(rows) && (u.email.None? || !EmailTaken(old(rows) - {id}, u.email.value)) ==> r.Ok?
      ensures r.Ok? ==>
        && id in old(rows)
        && r.value == old(rows)[id].(name := u.name, email := u.email, password := u.password, roleId := u.roleId)
        && rows == old(rows)[id := r.value]
    {
      if id !in rows {
        r := Err(NotFound);
        return;
      }
      var rec := ApplyUpdate(rows[id], u);
      if rec.email.Some? && EmailTaken(rows - {id}, rec.email.value) {
        r := Err(Conflict);
        return;
      }
      ReplaceKeepsValid(State(), id, rec);
      rows := rows[id := rec];
      r := Ok(rec);
    }

    /** `delete_user`: sets `deleted_at` of the record to now and answers the
      * record as re-read after the commit. */
    method DeleteUser(id: int, now: Time) returns (r: Result<User>)
      requires Valid()
      modifies this
      ensures Valid()
      ensures Step(r, State()) == Handlers.DeleteUser(old(State()), id, now)
      ensures nextId == old(nextId)
      ensures id !in old(rows) ==> r == Err(NotFound) && rows == old(rows)
      ensures id in old(rows) ==>
        && r == Ok(old(rows)[id].(deletedAt := Some(now)))
        && rows == old(rows)[id := r.value]
    {
      if id !in rows {
        r := Err(NotFound);
        return;
      }
      rows := rows[id := rows[id].(deletedAt := Some(now))];
      r := ReadUser(id);
    }
  }
}
