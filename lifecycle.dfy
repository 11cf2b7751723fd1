/**
 * What the five handlers do together: a record's lifecycle runs one way,
 * from active to soft-deleted, over any sequence of requests; a record stays
 * listed until it is deleted; no request removes a row; and the round trips
 * between creating, reading, updating and deleting a user.
 */
module Lifecycle {
  import opened Users
  import opened Handlers

  /** One request to the service, with the salt and clock reading it uses. */
  datatype Request =
    | ListActive
    | Create(req: UserCreate, salt: Salt, now: Time)
    | Find(id: int)
    | Update(id: int, u: UserUpdate)
    | Delete(id: int, now: Time)

  /** The table after serving one request. */
  function Serve(t: Table, q: Request, hashpw: (string, Salt) -> string): Table {
    match q
    case ListActive => t
    case Create(req, salt, now) => CreateUser(t, req, hashpw, salt, now).after
    case Find(_) => t
    case Update(id, u) => UpdateUser(t, id, u).after
    case Delete(id, now) => DeleteUser(t, id, now).after
  }

  /** The table after serving the requests one after another. */
  function ServeAll(t: Table, qs: seq<Request>, hashpw: (string, Salt) -> string): Table
    decreases |qs|
  {
    if qs == [] then t else ServeAll(Serve(t, qs[0], hashpw), qs[1..], hashpw)
  }

  /** The request soft-deletes the record with the id. */
  predicate Deletes(q: Request, id: int) {
    q.Delete? && q.id == id
  }

  /** One request keeps the table's integrity, keeps every row (there is no
    * hard delete) with its id and creation time, and never brings a
    * soft-deleted record back. */
  lemma ServeKeeps(t: Table, q: Request, hashpw: (string, Salt) -> string, id: int)
    requires Valid(t) && id in t.rows
    ensures var t' := Serve(t, q, hashpw);
      && Valid(t')
      && id in t'.rows
      && t'.rows[id].id == t.rows[id].id
      && t'.rows[id].createdAt == t.rows[id].createdAt
      && (!Active(t.rows[id]) ==> !Active(t'.rows[id]))
      && (Active(t.rows[id]) && !Deletes(q, id) ==> Active(t'.rows[id]))
  {
  }

  /** Over any sequence of requests every row survives with its id and
    * creation time, and a soft-deleted record stays soft-deleted. */
  lemma {:induction false} DeletedStaysDeleted(t: Table, qs: seq<Request>, hashpw: (string, Salt) -> string, id: int)
    requires Valid(t) && id in t.rows
    ensures var t' := ServeAll(t, qs, hashpw);
      && Valid(t')
      && id in t'.rows
      && t'.rows[id].id == t.rows[id].id
      && t'.rows[id].createdAt == t.rows[id].createdAt
      && (!Active(t.rows[id]) ==> !Active(t'.rows[id]))
    decreases |qs|
  {
    if qs != [] {
      ServeKeeps(t, qs[0], hashpw, id);
      DeletedStaysDeleted(Serve(t, qs[0], hashpw), qs[1..], hashpw, id);
    }
  }

  /** An active record is listed by `readAll` after any sequence of requests
    * none of which deletes it, whatever updates it went through. */
  lemma {:induction false} ListedUntilDeleted(t: Table, qs: seq<Request>, hashpw: (string, Salt) -> string, id: int)
    requires Valid(t) && id in t.rows && Active(t.rows[id])
    requires forall i :: 0 <= i < |qs| ==> !Deletes(qs[i], id)
    ensures var t' := ServeAll(t, qs, hashpw);
      id in t'.rows && t'.rows[id] in ReadAll(t').value
    decreases |qs|
  {
    if qs != [] {
      ServeKeeps(t, qs[0], hashpw, id);
      assert forall i :: 0 <= i < |qs[1..]| ==> !Deletes(qs[1..][i], id) by {
        forall i | 0 <= i < |qs[1..]| ensures !Deletes(qs[1..][i], id) {
          assert qs[1..][i] == qs[i + 1];
        }
      }
      ListedUntilDeleted(Serve(t, qs[0], hashpw), qs[1..], hashpw, id);
    }
  }

  /** Creating a user and reading it back by the id it was given yields the
    * request's name, email and role, the hash of its password, the creation
    * time, and no deletion time; the new record is listed as active. */
  lemma CreateThenRead(t: Table, req: UserCreate, hashpw: (string, Salt) -> string, salt: Salt, now: Time)
    requires Valid(t) && !EmailTaken(t.rows, req.email)
    ensures var s := CreateUser(t, req, hashpw, salt, now);
      && s.result.Ok?
      && ReadUser(s.after, t.nextId) == Ok(User(t.nextId, Some(req.name), Some(req.email),
                                                Some(hashpw(req.password, salt)), Some(req.roleId), now, None))
      && s.after.rows[t.nextId] in ReadAll(s.after).value
  {
  }

  /** Creating a user whose email some row holds fails, even when that row
    * is soft-deleted, and leaves the table as it was. */
  lemma CreateConflictsWithDeleted(t: Table, req: UserCreate, hashpw: (string, Salt) -> string, salt: Salt,
                                   now: Time, id: int)
    requires id in t.rows && !Active(t.rows[id]) && t.rows[id].email == Some(req.email)
    ensures CreateUser(t, req, hashpw, salt, now) == Step(Err(Conflict), t)
  {
  }

  /** After a soft delete the record is no longer listed, but reading it by
    * id still yields it, unchanged except for its deletion time. */
  lemma DeleteThenRead(t: Table, id: int, now: Time)
    requires Valid(t) && id in t.rows
    ensures var t' := DeleteUser(t, id, now).after;
      && (forall u :: u in ReadAll(t').value ==> u.id != id)
      && ReadUser(t', id) == Ok(t.rows[id].(deletedAt := Some(now)))
  {
    var t' := DeleteUser(t, id, now).after;
    forall u | u in ReadAll(t').value ensures u.id != id {
      assert u.id in t'.rows && t'.rows[u.id] == u;
    }
  }

  /** Deleting a record a second time does what one delete at the later time
    * would have done: only the timestamp is refreshed. */
  lemma DeleteAgain(t: Table, id: int, first: Time, second: Time)
    ensures DeleteUser(DeleteUser(t, id, first).after, id, second) == DeleteUser(t, id, second)
  {
    if id in t.rows {
      assert t.rows[id := t.rows[id].(deletedAt := Some(first))][id := t.rows[id].(deletedAt := Some(second))]
          == t.rows[id := t.rows[id].(deletedAt := Some(second))];
    }
  }

  /** Updating a soft-deleted record succeeds unless the new email is taken,
    * and the record stays soft-deleted with the same timestamp and out of
    * the active list. */
  lemma UpdateDeleted(t: Table, id: int, u: UserUpdate)
    requires Valid(t) && id in t.rows && !Active(t.rows[id])
    requires u.email.None? || !EmailTaken(t.rows - {id}, u.email.value)
    ensures var s := UpdateUser(t, id, u);
      && s.result.Ok?
      && s.result.value.deletedAt == t.rows[id].deletedAt
      && s.result.value !in ReadAll(s.after).value
  {
  }

  /** The scenario: create Ann, read her back, soft-delete her, and find her
    * gone from the list but still readable with the deletion time set. */
  lemma AnnScenario(t: Table, hashpw: (string, Salt) -> string, salt: Salt, t1: Time, t2: Time)
    requires Valid(t) && !EmailTaken(t.rows, "ann@x.com")
    ensures var n := t.nextId;
      var created := CreateUser(t, UserCreate("Ann", "ann@x.com", "pw", 2), hashpw, salt, t1);
      var deleted := DeleteUser(created.after, n, t2);
      && created.result.Ok?
      && ReadUser(created.after, n).Ok?
      && ReadUser(created.after, n).value.id == n
      && ReadUser(created.after, n).value.roleId == Some(2)
      && ReadUser(created.after, n).value.deletedAt == None
      && deleted.result.Ok?
      && (forall u :: u in ReadAll(deleted.after).value ==> u.id != n)
      && ReadUser(deleted.after, n).Ok?
      && ReadUser(deleted.after, n).value.deletedAt == Some(t2)
  {
    var req := UserCreate("Ann", "ann@x.com", "pw", 2);
    CreateThenRead(t, req, hashpw, salt, t1);
    DeleteThenRead(CreateUser(t, req, hashpw, salt, t1).after, t.nextId, t2);
  }
}
