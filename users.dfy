/** The user routes (`/users`): list, get, create, update and delete over the
    user store. None of them checks the caller's identity. */
module Users {
  import opened Common
  import opened Dependencies
  import opened Tables
  import opened Crud

  const UserNotFound: string := "User not found"
  const UsernameExists: string := "Username already exists"
  const UpdateFailed: string := "Update failed"
  const UserDeleted: string := "User deleted successfully"

  /** The list route forwards skip and limit (0 and 100 when omitted) and no filters. */
  function GetAllUsers(skip: Option<int>, limit: Option<int>): (q: ListQuery)
    ensures q.source == UsersTable && q.filters == map[]
    ensures skip.Some? ==> q.page.skip == skip.value
    ensures limit.Some? ==> q.page.limit == limit.value
    ensures skip.None? ==> q.page.skip == 0
    ensures limit.None? ==> q.page.limit == 100
  {
    ListQuery(UsersTable, Page(if skip.Some? then skip.value else 0, if limit.Some? then limit.value else 100), map[])
  }

  /** The route's own defaults agree with the shared pagination dependency. */
  lemma UserPagingIsPaginationParams(skip: Option<int>, limit: Option<int>)
    ensures GetAllUsers(skip, limit).page == PaginationParams(skip, limit)
  {
  }

  /** Get: 404 "User not found" exactly when no user has that id, else the user itself. */
  function GetUser(db: UserStore, id: int): (r: Response<User>)
    reads db
    ensures r.HttpError? <==> id !in db.table
    ensures r.HttpError? ==> r == HttpError(404, UserNotFound)
    ensures r.Ok? ==> r.value == db.table[id]
  {
    var user := db.Get(id);
    if user.None? then HttpError(404, UserNotFound) else Ok(user.value)
  }

  /** Create: 400 with the table untouched when the username is taken;
      otherwise the user is stored under a fresh id, so usernames stay unique. */
  method CreateUser(db: UserStore, userIn: UserIn) returns (r: Response<User>)
    requires db.Valid()
    modifies db
    ensures db.Valid()
    ensures r.HttpError? <==> old(KeyTaken(db.table, Username, userIn.username))
    ensures r.HttpError? ==> r == HttpError(400, UsernameExists) && db.table == old(db.table)
    ensures r.Ok? ==> r.value.id !in old(db.table) && r.value == StoredUser(r.value.id, userIn)
    ensures r.Ok? ==> db.table == old(db.table)[r.value.id := r.value]
    ensures old(UsernameUnique(db.table)) ==> UsernameUnique(db.table)
  {
    var existing := db.GetByUsername(userIn.username);
    if existing.Some? {
      return HttpError(400, UsernameExists);
    }
    ghost var before := db.table;
    var user := db.Create(userIn);
    if UsernameUnique(before) {
      InsertKeepsUniqueIff(before, Username, user.id, user);
    }
    r := Ok(user);
  }

  /** Update: 404 for an absent id, 400 "Update failed" when the store applies
      nothing, both with the table untouched; otherwise the merged user. There
      is no username check: a supplied name already held by another user is
      written anyway and duplicates it. */
  method UpdateUser(db: UserStore, id: int, patch: UserPatch) returns (r: Response<User>)
    requires db.Valid()
    modifies db
    ensures db.Valid()
    ensures r.HttpError? ==> db.table == old(db.table)
    ensures r.HttpError? <==> id !in old(db.table) || r == HttpError(400, UpdateFailed)
    ensures id !in old(db.table) ==> r == HttpError(404, UserNotFound)
    ensures r.HttpError? ==> r == HttpError(404, UserNotFound) || r == HttpError(400, UpdateFailed)
    ensures r.Ok? ==> id in old(db.table) && UserUpdatedFrom(old(db.table)[id], patch, r.value)
    ensures r.Ok? ==> db.table == old(db.table)[id := r.value]
    ensures r.Ok? && old(UsernameUnique(db.table)) && patch.username.Some? && old(KeyTaken(db.table - {id}, Username, patch.username.value))
      ==> !UsernameUnique(db.table)
  {
    var user := db.Get(id);
    if user.None? {
      return HttpError(404, UserNotFound);
    }
    ghost var before := db.table;
    var updated := db.Update(id, patch);
    if updated.None? {
      return HttpError(400, UpdateFailed);
    }
    if UsernameUnique(before) && patch.username.Some? && KeyTaken(before - {id}, Username, patch.username.value) {
      var other :| other in before - {id} && before[other].username == patch.username.value;
      UsernameUpdateCanDuplicate(before, id, other, patch, updated.value);
    }
    r := Ok(updated.value);
  }

  /** Delete: 404 "User not found" exactly when no user was removed, else a success message. */
  method DeleteUser(db: UserStore, id: int) returns (r: Response<string>)
    requires db.Valid()
    modifies db
    ensures db.Valid()
    ensures r.HttpError? <==> id !in old(db.table)
    ensures r.HttpError? ==> r == HttpError(404, UserNotFound)
    ensures r.Ok? ==> r.value == UserDeleted
    ensures db.table == old(db.table) - {id}
  {
    var success := db.Delete(id);
    if !success {
      return HttpError(404, UserNotFound);
    }
    r := Ok(UserDeleted);
  }
}
