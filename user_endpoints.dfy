/** The user-administration endpoints (app/api/v1/endpoints/users.py): self-service profile
    update, and the superuser's read, update and delete of any user. Authentication and the
    superuser check are the guards of `Deps`, applied before these run. */
module UserEndpoints {
  import opened Wrappers
  import opened Http
  import Crud
  import Users

  /** `update_user_me`: only the profile fields the request set are applied; the two flags can
      never be changed this way; a request that sets no profile field is 400 with no write. */
  method UpdateUserMe(users: Crud.Table<Users.UserData>, current: Users.User, userIn: Users.UserUpdate)
    returns (r: Result<Users.User>)
    requires Users.Valid(users) && current in users.rows
    modifies users
    ensures Users.Valid(users)
    ensures Users.DumpProfile(userIn) == [] <==> userIn.email.None? && userIn.firstName.None? && userIn.lastName.None?
    ensures Users.DumpProfile(userIn) == [] ==>
      r == Fail(BadRequest) && users.rows == old(users.rows) && users.nextId == old(users.nextId)
    ensures Users.DumpProfile(userIn) != [] ==>
      && r == Ok(Crud.Row(current.id, Users.UserData(
           current.rec.yandexId,
           userIn.email.GetOr(current.rec.email),
           userIn.firstName.GetOr(current.rec.firstName),
           userIn.lastName.GetOr(current.rec.lastName),
           current.rec.isActive,
           current.rec.isSuperuser)))
      && users.rows == Crud.Replace(old(users.rows), r.value)
      && users.nextId == old(users.nextId)
  {
    var updateData := Users.DumpProfile(userIn);
    if updateData == [] {
      return Fail(BadRequest);
    }
    Users.ApplyDumpProfile(current.rec, userIn);
    var user := Users.Update(users, current, updateData);
    r := Ok(user);
  }

  /** `read_users`: a page of all users in store order. */
  function ReadUsers(users: Crud.Table<Users.UserData>, skip: nat, limit: nat): (r: seq<Users.User>)
    reads users
    ensures |r| <= limit
    ensures forall k :: 0 <= k < |r| ==> r[k] in users.rows
    ensures forall k :: 0 <= k < |r| ==> skip + k < |users.rows| && r[k] == users.rows[skip + k]
    ensures skip >= |users.rows| ==> r == []
    ensures skip < |users.rows| ==> |r| == if skip + limit <= |users.rows| then limit else |users.rows| - skip
  {
    users.GetMulti(skip, limit)
  }

  /** `read_user_by_id`: the user with that key, or 404. */
  function ReadUserById(users: Crud.Table<Users.UserData>, userId: int): (r: Result<Users.User>)
    reads users
    ensures r.Fail? ==> r.status == NotFound
    ensures r.Fail? <==> forall i :: 0 <= i < |users.rows| ==> users.rows[i].id != userId
    ensures r.Ok? ==> r.value in users.rows && r.value.id == userId
  {
    match users.Get(userId)
    case None => Fail(NotFound)
    case Some(u) => Ok(u)
  }

  /** `update_user`: 404 with no write for a missing user; otherwise every field the request
      set is applied, the flags included, and the unset ones are kept. */
  method UpdateUser(users: Crud.Table<Users.UserData>, userId: int, userIn: Users.UserUpdate)
    returns (r: Result<Users.User>)
    requires Users.Valid(users)
    modifies users
    ensures Users.Valid(users) && users.nextId == old(users.nextId)
    ensures old(users.Get(userId)).None? ==> r == Fail(NotFound) && users.rows == old(users.rows)
    ensures old(users.Get(userId)).Some? ==>
      var u := old(users.Get(userId)).value;
      && r == Ok(Crud.Row(userId, Users.UserData(
           u.rec.yandexId,
           userIn.email.GetOr(u.rec.email),
           userIn.firstName.GetOr(u.rec.firstName),
           userIn.lastName.GetOr(u.rec.lastName),
           userIn.isActive.GetOr(u.rec.isActive),
           userIn.isSuperuser.GetOr(u.rec.isSuperuser))))
      && users.rows == Crud.Replace(old(users.rows), r.value)
  {
    var found := users.Get(userId);
    if found.None? {
      return Fail(NotFound);
    }
    Users.ApplyDump(found.value.rec, userIn);
    var user := Users.Update(users, found.value, Users.Dump(userIn));
    r := Ok(user);
  }

  /** `delete_user`: 404 for a missing user and 403 for a superuser, both with nothing
      deleted; otherwise exactly that user is removed and returned. Only the user table is
      modelled: the upload directory is left alone. */
  method DeleteUser(users: Crud.Table<Users.UserData>, userId: int) returns (r: Result<Users.User>)
    requires Users.Valid(users)
    modifies users
    ensures Users.Valid(users) && users.nextId == old(users.nextId)
    ensures old(users.Get(userId)).None? ==> r == Fail(NotFound)
    ensures old(users.Get(userId)).Some? && old(users.Get(userId)).value.rec.isSuperuser ==> r == Fail(Forbidden)
    ensures r.Fail? ==> users.rows == old(users.rows)
    ensures r.Ok? <==> old(users.Get(userId)).Some? && !old(users.Get(userId)).value.rec.isSuperuser
    ensures r.Ok? ==> r == Ok(old(users.Get(userId)).value) && users.rows == Crud.Without(old(users.rows), userId)
    ensures r.Ok? ==>
      exists i :: 0 <= i < |old(users.rows)| && old(users.rows)[i] == r.value && users.rows == old(users.rows)[..i] + old(users.rows)[i + 1..]
  {
    var target := users.Get(userId);
    if target.None? {
      return Fail(NotFound);
    }
    if target.value.rec.isSuperuser {
      return Fail(Forbidden);
    }
    var deleted := users.Remove(userId);
    r := Ok(deleted.value);
  }
}
