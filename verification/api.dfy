/** The application's route table: any sequence of requests keeps the schema constraints. */
module Api {
  import opened EventModel
  import opened UserModel
  import opened RegistrationModel
  import opened Database
  import opened EventsRouter
  import opened UsersRouter

  /** One request to one of the twelve routes. */
  datatype Request =
    | ListEvents(sortEvents: bool)                      // GET /events/
    | ReadEvent(eventId: int)                           // GET /events/{id}
    | CreateEvent(eventData: EventCreate)               // POST /events/
    | Register(registerId: int, registerUser: string)   // POST /events/{id}/register
    | DeleteEvents                                      // DELETE /events/
    | DeleteOneEvent(deleteId: int)                     // DELETE /events/{id}
    | ReplaceEvent(updateId: int, newEvent: EventCreate) // PUT /events/{id}
    | ListUsers(sortUsers: bool)                        // GET /users/
    | ReadUser(readName: string)                        // GET /users/{username}
    | CreateUser(user: UserCreate)                      // POST /users/
    | DeleteUsers                                       // DELETE /users/
    | DeleteOneUser(deleteName: string)                 // DELETE /users/{username}

  /** The store after serving one request; reads leave it as it was. */
  function Serve(s: Store, req: Request): (t: Store)
    ensures Valid(s) ==> Valid(t)
    ensures req.ListEvents? || req.ReadEvent? || req.ListUsers? || req.ReadUser? ==> t == s
  {
    match req
    case ListEvents(_) => s
    case ReadEvent(_) => s
    case CreateEvent(eventData) => AddEvent(s, eventData).store
    case Register(id, username) => RegisterEventForUser(s, id, username).store
    case DeleteEvents => DeleteAllEvents(s).store
    case DeleteOneEvent(id) => DeleteEvent(s, id).store
    case ReplaceEvent(id, newEvent) => UpdateEvent(s, id, newEvent).store
    case ListUsers(_) => s
    case ReadUser(_) => s
    case CreateUser(user) => AddUser(s, user).store
    case DeleteUsers => DeleteAllUsers(s).store
    case DeleteOneUser(username) => DeleteUserByUsername(s, username).store
  }

  /** The store after serving `reqs` in order, one transaction each. */
  function Run(s: Store, reqs: seq<Request>): (t: Store)
    ensures Valid(s) ==> Valid(t)
    decreases |reqs|
  {
    if |reqs| == 0 then s else Run(Serve(s, reqs[0]), reqs[1..])
  }

  /**
   * Whatever requests a fresh database has served, every registration
   * references an existing user and an existing event, and both primary keys hold.
   */
  lemma ServedStoreIsValid(reqs: seq<Request>)
    ensures Valid(Run(EmptyStore, reqs))
  {
  }

  /** No sequence of requests leaves a registration whose user or event is gone. */
  lemma NoDanglingRegistration(reqs: seq<Request>, r: Registration)
    requires r in Run(EmptyStore, reqs).registrations
    ensures r.username in Usernames(Run(EmptyStore, reqs).users)
    ensures r.eventId in EventIds(Run(EmptyStore, reqs).events)
  {
  }
}
