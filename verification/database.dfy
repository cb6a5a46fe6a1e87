/**
 * The relational store as one immutable value: the `user` and `event` tables
 * in storage order, and the `registration` join table as a set of key pairs.
 * Schema constraints (primary keys, foreign keys) are the `Valid` invariant;
 * `ON DELETE CASCADE` is part of the row-removal functions.
 */
module Database {
  import opened Results
  import opened Seqs
  import opened EventModel
  import opened UserModel
  import opened RegistrationModel

  /** The outcomes a handler raises instead of answering. */
  datatype Error =
    | EventNotFound        // 404 "event not found"
    | UserNotFound         // 404 "user not found"
    | AlreadyRegistered    // 409 the pair is already in the join table
    | UsernameTaken        // the `user` primary key rejects the insert

  /**
   * The database state. A set is the natural model of the join table: its
   * composite primary key `(username, event_id)` makes each pair occur at most once.
   */
  datatype Store = Store(users: seq<User>, events: seq<Event>, registrations: set<Registration>)

  /** The state after a request together with its answer or error. */
  datatype Outcome<+T> = Outcome(store: Store, result: Result<T, Error>)

  /** A freshly created database. */
  const EmptyStore: Store := Store([], [], {})

  function UsernameKey(u: User): string { u.username }

  function EventKey(e: Event): int { e.id }

  /** The primary keys present in the `user` table. */
  function Usernames(users: seq<User>): set<string> {
    set u | u in users :: u.username
  }

  /** The primary keys present in the `event` table. */
  function EventIds(events: seq<Event>): set<int> {
    set e | e in events :: e.id
  }

  /** The primary keys of the `event` table, in storage order. */
  function EventIdList(events: seq<Event>): (ids: seq<int>)
    ensures forall x :: x in ids <==> x in EventIds(events)
  {
    if |events| == 0 then []
    else
      assert forall e :: e in events ==> e == events[0] || e in events[1..];
      [events[0].id] + EventIdList(events[1..])
  }

  /** The primary keys of the `user` table, in storage order. */
  function UsernameList(users: seq<User>): (names: seq<string>)
    ensures forall x :: x in names <==> x in Usernames(users)
  {
    if |users| == 0 then []
    else
      assert forall u :: u in users ==> u == users[0] || u in users[1..];
      [users[0].username] + UsernameList(users[1..])
  }

  /** Both foreign keys of every registration name an existing row. */
  ghost predicate ReferencesResolve(s: Store) {
    forall r :: r in s.registrations ==> r.username in Usernames(s.users) && r.eventId in EventIds(s.events)
  }

  /** The schema constraints: both primary keys, and referential integrity of the join table. */
  ghost predicate Valid(s: Store) {
    && DistinctBy(s.users, UsernameKey)
    && DistinctBy(s.events, EventKey)
    && ReferencesResolve(s)
  }

  /** The registrations a user owns (the `User.registrations` relationship). */
  function RegistrationsOfUser(s: Store, username: string): set<Registration> {
    set r | r in s.registrations && r.username == username
  }

  /** The registrations that reference one event. */
  function RegistrationsOfEvent(s: Store, id: int): set<Registration> {
    set r | r in s.registrations && r.eventId == id
  }

  /** `session.get(Event, id)`: the row with primary key `id`, if any. */
  function FindEvent(events: seq<Event>, id: int): (r: Option<Event>)
    ensures r.Some? ==> r.value in events && r.value.id == id
    ensures r.None? <==> id !in EventIds(events)
  {
    if |events| == 0 then None
    else if events[0].id == id then Some(events[0])
    else
      assert forall e :: e in events ==> e == events[0] || e in events[1..];
      FindEvent(events[1..], id)
  }

  /** `session.get(User, username)`: the row with primary key `username`, if any. */
  function FindUser(users: seq<User>, username: string): (r: Option<User>)
    ensures r.Some? ==> r.value in users && r.value.username == username
    ensures r.None? <==> username !in Usernames(users)
  {
    if |users| == 0 then None
    else if users[0].username == username then Some(users[0])
    else
      assert forall u :: u in users ==> u == users[0] || u in users[1..];
      FindUser(users[1..], username)
  }

  /** In a valid store the row found by its key is the only row with that key. */
  lemma KeyedEventIsUnique(s: Store, e: Event)
    requires Valid(s)
    requires e in s.events
    ensures forall e' :: e' in s.events && e'.id == e.id ==> e' == e
  {
  }

  /** In a valid store the row found by its key is the only row with that key. */
  lemma KeyedUserIsUnique(s: Store, u: User)
    requires Valid(s)
    requires u in s.users
    ensures forall u' :: u' in s.users && u'.username == u.username ==> u' == u
  {
  }

  /** Selects the rows of the `event` table whose key is not `id`. */
  function OtherEvents(id: int): Event -> bool {
    (e: Event) => e.id != id
  }

  /** Selects the rows of the `user` table whose key is not `username`. */
  function OtherUsers(username: string): User -> bool {
    (u: User) => u.username != username
  }

  /**
   * `session.delete(event)` followed by the database's `ON DELETE CASCADE`:
   * the row goes, and so does every registration that references it.
   */
  function RemoveEvent(s: Store, id: int): (t: Store)
    ensures t.users == s.users
    ensures forall e :: e in t.events <==> e in s.events && e.id != id
    ensures t.events == Filter(s.events, OtherEvents(id))
    ensures forall r :: r in t.registrations <==> r in s.registrations && r.eventId != id
    ensures id !in EventIds(t.events)
    ensures Valid(s) ==> Valid(t)
  {
    var keep := OtherEvents(id);
    var t := Store(s.users, Filter(s.events, keep), s.registrations - RegistrationsOfEvent(s, id));
    assert Valid(s) ==> Valid(t) by {
      if Valid(s) {
        FilterKeepsDistinct(s.events, keep, EventKey);
        forall r | r in t.registrations ensures r.eventId in EventIds(t.events) {
          var e :| e in s.events && e.id == r.eventId;
          assert e in t.events;
        }
      }
    }
    t
  }

  /**
   * `session.delete(user)` followed by the cascade "all, delete-orphan" of
   * `User.registrations`: the row goes, and so does every registration it owns.
   */
  function RemoveUser(s: Store, username: string): (t: Store)
    ensures t.events == s.events
    ensures forall u :: u in t.users <==> u in s.users && u.username != username
    ensures t.users == Filter(s.users, OtherUsers(username))
    ensures forall r :: r in t.registrations <==> r in s.registrations && r.username != username
    ensures username !in Usernames(t.users)
    ensures Valid(s) ==> Valid(t)
  {
    var keep := OtherUsers(username);
    var t := Store(Filter(s.users, keep), s.events, s.registrations - RegistrationsOfUser(s, username));
    assert Valid(s) ==> Valid(t) by {
      if Valid(s) {
        FilterKeepsDistinct(s.users, keep, UsernameKey);
        forall r | r in t.registrations ensures r.username in Usernames(t.users) {
          var u :| u in s.users && u.username == r.username;
          assert u in t.users;
        }
      }
    }
    t
  }

  /**
   * The id the store gives a new event: one more than the largest id in the
   * table and never below 1, so 1 in an empty table (the default rowid rule
   * of SQLite).
   */
  function NextEventId(events: seq<Event>): (id: int)
    ensures id >= 1
    ensures forall e :: e in events ==> e.id < id
    ensures id !in EventIds(events)
  {
    if |events| == 0 then 1
    else
      var rest := NextEventId(events[1..]);
      assert forall e :: e in events ==> e == events[0] || e in events[1..];
      if events[0].id >= rest then events[0].id + 1 else rest
  }

  /** A freshly created database satisfies every schema constraint. */
  lemma EmptyStoreIsValid()
    ensures Valid(EmptyStore)
  {
  }
}
