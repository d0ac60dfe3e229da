/** Reading and patching the caller's own user record
    (internal/services/usersService.go, Me and Update). The users table is a
    map from id to row; its Save is a full-row write that can fail. */
module UsersService {
  import opened Common
  import opened UserEntities

  type UserTable = map<nat, User>

  /** Every row sits under its own id. */
  predicate Inv(users: UserTable) {
    forall id :: id in users ==> users[id].id == id
  }

  datatype UserOutcome = UserOutcome(result: Result<User>, after: UserTable)

  /** The user with that id, or not-found. */
  function Me(users: UserTable, userId: nat): (r: Result<User>)
    requires Inv(users)
    ensures r.Ok? <==> userId in users
    ensures r.Ok? ==> r.value == users[userId] && r.value.id == userId
    ensures r.Err? ==> r.error == NotFound
  {
    if userId in users then Ok(users[userId]) else Err(NotFound)
  }

  /** The patch: each present field overwrites, each absent one keeps. */
  function Patch(u: User, req: UpdateUserRequest): (v: User)
    ensures v.id == u.id && v.password == u.password
    ensures v.email == (if req.email.Some? then req.email.value else u.email)
    ensures v.username == (if req.username.Some? then req.username.value else u.username)
  {
    var withEmail := if req.email.Some? then u.(email := req.email.value) else u;
    if req.username.Some? then withEmail.(username := req.username.value) else withEmail
  }

  /** Loads the user, patches it and saves the whole row. A missing user is an
      error with no write; a failed Save is an error that changes nothing. */
  function Update(users: UserTable, userId: nat, req: UpdateUserRequest, saveOk: bool): (o: UserOutcome)
    requires Inv(users)
    ensures Inv(o.after)
    ensures userId !in users ==> o.result == Err(NotFound) && o.after == users
    ensures !saveOk ==> o.result.Err? && o.after == users
    ensures userId in users && !saveOk ==> o.result == Err(StoreFailure)
    ensures o.result.Ok? <==> userId in users && saveOk
    ensures o.result.Ok? ==>
      && o.result.value.id == userId
      && o.result.value.password == users[userId].password
      && o.result.value.email == (if req.email.Some? then req.email.value else users[userId].email)
      && o.result.value.username == (if req.username.Some? then req.username.value else users[userId].username)
      && o.after == users[userId := o.result.value]
  {
    match Me(users, userId)
    case Err(e) => UserOutcome(Err(NotFound), users)
    case Ok(user) =>
      var patched := Patch(user, req);
      if !saveOk then UserOutcome(Err(StoreFailure), users)
      else UserOutcome(Ok(patched), users[userId := patched])
  }

  /** After a successful update, reading the user back returns the patched row. */
  lemma MeAfterUpdate(users: UserTable, userId: nat, req: UpdateUserRequest)
    requires Inv(users)
    requires Update(users, userId, req, true).result.Ok?
    ensures var o := Update(users, userId, req, true);
      Me(o.after, userId) == o.result
  {
  }

  /** Sending the same patch twice has the effect of sending it once. */
  lemma UpdateIdempotent(users: UserTable, userId: nat, req: UpdateUserRequest)
    requires Inv(users)
    ensures var first := Update(users, userId, req, true);
      var second := Update(first.after, userId, req, true);
      second.after == first.after && second.result == first.result
  {
  }

  /** An empty patch writes the row back unchanged. */
  lemma EmptyPatchChangesNothing(users: UserTable, userId: nat)
    requires Inv(users)
    ensures Update(users, userId, UpdateUserRequest(None, None), true).after == users
  {
  }
}
