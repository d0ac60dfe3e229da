/** Users, the patch request that updates them and their public projection
    (internal/entities/users.go). */
module UserEntities {
  import opened Common

  datatype User = User(id: nat, email: string, username: string, password: string)

  /** The public view of a user: there is no password field. */
  datatype UserResponse = UserResponse(id: nat, email: string, username: string)

  /** A patch: an absent field leaves the stored value alone. */
  datatype UpdateUserRequest = UpdateUserRequest(email: Option<string>, username: Option<string>)

  function ToResponse(u: User): (r: UserResponse)
    ensures r.id == u.id && r.email == u.email && r.username == u.username
  {
    UserResponse(u.id, u.email, u.username)
  }

  /** The password never reaches the response: users that differ only in their
      password project to the same response, and the response determines the rest. */
  lemma ResponseHidesPassword(u: User, v: User)
    ensures ToResponse(u) == ToResponse(v) <==> u.(password := v.password) == v
  {
  }

  /** Projects a list of users by appending one response per user, in order. */
  method UsersToResponse(users: seq<User>) returns (responses: seq<UserResponse>)
    ensures |responses| == |users|
    ensures forall i :: 0 <= i < |users| ==> responses[i] == ToResponse(users[i])
  {
    responses := [];
    var k := 0;
    while k < |users|
      invariant 0 <= k <= |users|
      invariant |responses| == k
      invariant forall i :: 0 <= i < k ==> responses[i] == ToResponse(users[i])
    {
      responses := responses + [ToResponse(users[k])];
      k := k + 1;
    }
  }
}
