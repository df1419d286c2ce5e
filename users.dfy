/**
 * The user routes of the API, as functions of the caller `token_required`
 * resolved (where the route is guarded) and the `user` table. The writes
 * return the table as committed; `Service.Store` performs them in place.
 */
module Users {
  import opened Wrappers
  import opened Query
  import opened Table
  import opened Models
  import opened Foreign

  /** `get_all_users` (GET /user): every user, to an admin only. */
  function GetAllUsers(caller: Option<User>, users: seq<User>): (r: Response)
    ensures caller.None? ==> r == ServerError
    ensures caller.Some? && !caller.value.admin ==> r == NoRights
    ensures r.AllUsers? <==> caller.Some? && caller.value.admin
    ensures r.AllUsers? ==> r.users == users
  {
    if caller.None? then ServerError
    else if !caller.value.admin then NoRights
    else AllUsers(users)
  }

  /** `get_one_user` (GET /user/<public_id>): the user with that public id, to an admin only. */
  function GetOneUser(caller: Option<User>, users: seq<User>, publicId: string): (r: Response)
    ensures caller.None? ==> r == ServerError
    ensures caller.Some? && !caller.value.admin ==> r == NoRights
    ensures r == UserNotFound <==>
      caller.Some? && caller.value.admin && forall u :: u in users ==> u.publicId != publicId
    ensures r.UserData? <==>
      caller.Some? && caller.value.admin && exists u :: u in users && u.publicId == publicId
    ensures r.UserData? ==> exists i :: IsFirst(users, HasPublicId(publicId), i) && r.user == users[i]
  {
    if caller.None? then ServerError
    else if !caller.value.admin then NoRights
    else match First(users, HasPublicId(publicId))
      case None => UserNotFound
      case Some(i) => UserData(users[i])
  }

  /**
   * `create_user` (POST /user, not guarded). Reads `password` and `username`
   * from the body (a missing one raises), hashes the password with a fresh
   * salt and appends a non-admin user under the fresh public id. A public id
   * already in use fails the commit on the unique constraint.
   */
  function CreateUser(users: seq<User>, data: Json, publicId: string, salt: string, hasher: PasswordHasher): (o: Outcome<User>)
    ensures o.response.UserCreated? <==>
      "password" in data && "username" in data && forall u :: u in users ==> u.publicId != publicId
    ensures !o.response.UserCreated? ==> o == Outcome(ServerError, users)
    ensures o.response.UserCreated? ==>
      var u := o.response.user;
      && o.rows == users + [u]
      && u.publicId == publicId && u.username == data["username"] && !u.admin
      && u.password == hasher.hash(data["password"], salt)
      && forall v :: v in users ==> v.id < u.id
  {
    if "password" !in data || "username" !in data then Outcome(ServerError, users)
    else if First(users, HasPublicId(publicId)).Some? then Outcome(ServerError, users)
    else
      var u := User(NextKey(users, UserKey), publicId, data["username"], hasher.hash(data["password"], salt), false);
      Outcome(UserCreated(u), users + [u])
  }

  /** `set_admin_user` (PUT /user/<public_id>, not guarded): grants admin rights to the user with that public id. */
  function SetAdminUser(users: seq<User>, publicId: string): (o: Outcome<User>)
    ensures o.response == UserNotFound <==> forall u :: u in users ==> u.publicId != publicId
    ensures o.response == UserNotFound || o.response.AdminRightsSet?
    ensures o.response == UserNotFound ==> o.rows == users
    ensures o.response.AdminRightsSet? ==>
      exists i :: IsFirst(users, HasPublicId(publicId), i) &&
        o.response.user == users[i].(admin := true) &&
        o.rows == Update(users, UserKey, o.response.user)
  {
    match First(users, HasPublicId(publicId))
    case None => Outcome(UserNotFound, users)
    case Some(i) =>
      var u := users[i].(admin := true);
      Outcome(AdminRightsSet(u), Update(users, UserKey, u))
  }

  /** `delete_user` (DELETE /user/<public_id>): an admin deletes the user with that public id. */
  function DeleteUser(caller: Option<User>, users: seq<User>, publicId: string): (o: Outcome<User>)
    ensures caller.None? ==> o == Outcome(ServerError, users)
    ensures caller.Some? && !caller.value.admin ==> o == Outcome(NoRights, users)
    ensures o.response == UserNotFound <==>
      caller.Some? && caller.value.admin && forall u :: u in users ==> u.publicId != publicId
    ensures !o.response.UserDeleted? ==> o.rows == users
    ensures o.response.UserDeleted? ==>
      exists i :: IsFirst(users, HasPublicId(publicId), i) && o.response.user == users[i] &&
        forall u :: u in o.rows <==> u in users && u.id != users[i].id
    ensures caller.Some? && caller.value.admin && (exists u :: u in users && u.publicId == publicId) ==>
      o.response.UserDeleted?
  {
    if caller.None? then Outcome(ServerError, users)
    else if !caller.value.admin then Outcome(NoRights, users)
    else match First(users, HasPublicId(publicId))
      case None => Outcome(UserNotFound, users)
      case Some(i) => Outcome(UserDeleted(users[i]), Delete(users, UserKey, users[i].id))
  }

  /**
   * In a keyed table, an admin's delete removes exactly the first user with
   * the public id and keeps every other user, in order.
   */
  lemma DeleteUserRemovesOnlyTarget(caller: User, users: seq<User>, publicId: string, i: int)
    requires Keyed(users, UserKey) && caller.admin
    requires IsFirst(users, HasPublicId(publicId), i)
    ensures DeleteUser(Some(caller), users, publicId) == Outcome(UserDeleted(users[i]), users[..i] + users[i + 1..])
  {
    var k := First(users, HasPublicId(publicId)).value;
    IsFirstUnique(users, HasPublicId(publicId), i, k);
    DeleteAt(users, UserKey, i);
  }

  /** In a keyed table, granting admin rights changes the `admin` flag of the matched user and nothing else. */
  lemma SetAdminChangesOnlyTarget(users: seq<User>, publicId: string, i: int)
    requires Keyed(users, UserKey)
    requires IsFirst(users, HasPublicId(publicId), i)
    ensures SetAdminUser(users, publicId) ==
      Outcome(AdminRightsSet(users[i].(admin := true)), users[i := users[i].(admin := true)])
  {
    var k := First(users, HasPublicId(publicId)).value;
    IsFirstUnique(users, HasPublicId(publicId), i, k);
    UpdateAt(users, UserKey, i, users[i].(admin := true));
  }

  /** In a keyed table, granting admin rights twice answers and commits the same as granting them once. */
  lemma SetAdminIdempotent(users: seq<User>, publicId: string)
    requires Keyed(users, UserKey)
    ensures var once := SetAdminUser(users, publicId);
      SetAdminUser(once.rows, publicId) == once
  {
    match First(users, HasPublicId(publicId))
    case None =>
    case Some(i) =>
      var u := users[i].(admin := true);
      SetAdminChangesOnlyTarget(users, publicId, i);
      var rows := users[i := u];
      IsFirstReplace(users, HasPublicId(publicId), i, u);
      KeyedReplace(users, UserKey, i, u);
      SetAdminChangesOnlyTarget(rows, publicId, i);
      assert rows[i].(admin := true) == u;
      assert rows[i := u] == rows;
  }
}
