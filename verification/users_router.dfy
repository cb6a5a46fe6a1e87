/** The handlers of the `/users` routes as transitions of the store. */
module UsersRouter {
  import opened Results
  import opened Seqs
  import opened Sorting
  import opened UserModel
  import opened Database

  /** The sort key of the user listing. */
  function UsernameOf(p: UserPublic): string { p.username }

  /** The response shape of every stored row, in storage order. */
  function PublishUsers(users: seq<User>): (r: seq<UserPublic>)
    ensures |r| == |users|
    ensures forall i :: 0 <= i < |users| ==> UserFromPublic(r[i]) == users[i]
  {
    seq(|users|, i requires 0 <= i < |users| => PublishUser(users[i]))
  }

  /**
   * GET /users/: every stored user; with `sort`, ordered by username (strictly,
   * since usernames are keys), otherwise in the order the table returns them.
   */
  function GetAllUsers(s: Store, sort: bool): (r: seq<UserPublic>)
    ensures multiset(r) == multiset(PublishUsers(s.users))
    ensures |r| == |s.users|
    ensures sort ==> SortedBy(r, UsernameOf)
    ensures sort && Valid(s) ==> StrictlySortedBy(r, UsernameOf)
    ensures !sort ==> forall i :: 0 <= i < |s.users| ==> UserFromPublic(r[i]) == s.users[i]
  {
    var listed := PublishUsers(s.users);
    assert Valid(s) ==> DistinctBy(listed, UsernameOf) by {
      if Valid(s) {
        forall i, j | 0 <= i < j < |listed| ensures UsernameOf(listed[i]) != UsernameOf(listed[j]) {
          assert UsernameKey(s.users[i]) != UsernameKey(s.users[j]);
        }
      }
    }
    if sort then
      assert Valid(s) ==> StrictlySortedBy(SortBy(listed, UsernameOf), UsernameOf) by {
        if Valid(s) { SortByDistinctIsStrict(listed, UsernameOf); }
      }
      SortBy(listed, UsernameOf)
    else listed
  }

  /** GET /users/{username}: the stored user with that username, or 404. */
  function GetUserByUsername(s: Store, username: string): (r: Result<UserPublic, Error>)
    ensures r.Success? <==> username in Usernames(s.users)
    ensures r.Failure? ==> r.error == UserNotFound
    ensures r.Success? ==> r.value.username == username && UserFromPublic(r.value) in s.users
  {
    match FindUser(s.users, username)
    case None => Failure(UserNotFound)
    case Some(user) => Success(PublishUser(user))
  }

  /**
   * POST /users/: stores the payload as a new user. The route does not look
   * for an existing username; the primary key of the `user` table refuses a
   * duplicate and the commit fails, leaving the store as it was.
   */
  function AddUser(s: Store, user: UserCreate): (o: Outcome<()>)
    ensures o.result.Failure? <==> user.username in Usernames(s.users)
    ensures o.result.Failure? ==> o == Outcome(s, Failure(UsernameTaken))
    ensures o.result.Success? ==> o.store == s.(users := s.users + [UserFromCreate(user)])
    ensures Valid(s) ==> Valid(o.store)
  {
    var validated := UserFromCreate(user);
    if FindUser(s.users, validated.username).Some? then Outcome(s, Failure(UsernameTaken))
    else
      var t := s.(users := s.users + [validated]);
      assert Valid(s) ==> Valid(t) by {
        if Valid(s) {
          assert forall u :: u in s.users ==> u in t.users;
          forall i, j | 0 <= i < j < |t.users| ensures UsernameKey(t.users[i]) != UsernameKey(t.users[j]) {
            if j == |s.users| {
              assert t.users[i] in s.users;
            } else {
              assert t.users[i] == s.users[i] && t.users[j] == s.users[j];
            }
          }
        }
      }
      Outcome(t, Success(()))
  }

  /** The loop of DELETE /users/: deletes the users with the listed usernames one at a time. */
  function DeleteUsersEach(s: Store, names: seq<string>): (t: Store)
    ensures t.events == s.events
    ensures forall u :: u in t.users <==> u in s.users && u.username !in names
    ensures forall r :: r in t.registrations <==> r in s.registrations && r.username !in names
    ensures Valid(s) ==> Valid(t)
    decreases |names|
  {
    if |names| == 0 then s
    else
      assert forall x :: x in names <==> x == names[0] || x in names[1..];
      DeleteUsersEach(RemoveUser(s, names[0]), names[1..])
  }

  /**
   * DELETE /users/: empties the user table; every registration that
   * referenced a stored user goes with it, and the events stay.
   */
  function DeleteAllUsers(s: Store): (o: Outcome<()>)
    ensures o.result.Success?
    ensures o.store.users == []
    ensures o.store.events == s.events
    ensures forall r :: r in o.store.registrations <==> r in s.registrations && r.username !in Usernames(s.users)
    ensures Valid(s) ==> o.store.registrations == {} && Valid(o.store)
  {
    var names := UsernameList(s.users);
    var t := DeleteUsersEach(s, names);
    assert forall u :: u !in t.users;
    NoMemberMeansEmpty(t.users);
    Outcome(t, Success(()))
  }

  /** DELETE /users/{username}: the user and its registrations go, or 404 with nothing changed. */
  function DeleteUserByUsername(s: Store, username: string): (o: Outcome<()>)
    ensures username !in Usernames(s.users) ==> o == Outcome(s, Failure(UserNotFound))
    ensures username in Usernames(s.users) ==> o.result.Success?
    ensures o.store.events == s.events
    ensures o.result.Success? ==> forall u :: u in o.store.users <==> u in s.users && u.username != username
    ensures o.result.Success? ==> o.store.users == Filter(s.users, OtherUsers(username))
    ensures o.result.Success? ==> forall r :: r in o.store.registrations <==> r in s.registrations && r.username != username
    ensures Valid(s) ==> Valid(o.store)
  {
    match FindUser(s.users, username)
    case None => Outcome(s, Failure(UserNotFound))
    case Some(user) => Outcome(RemoveUser(s, user.username), Success(()))
  }
}
