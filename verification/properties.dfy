/** Properties that relate several requests to the store. */
module Properties {
  import opened Results
  import opened Seqs
  import opened Sorting
  import opened EventModel
  import opened UserModel
  import opened RegistrationModel
  import opened Database
  import opened EventsRouter
  import opened UsersRouter

  /** In a valid store, GET /events/{id} answers with exactly the stored row that has that id. */
  lemma GetEventByIdReturnsStored(s: Store, e: Event)
    requires Valid(s)
    requires e in s.events
    ensures GetEventById(s, e.id) == Success(PublishEvent(e))
  {
  }

  /** In a valid store, GET /users/{username} answers with exactly the stored row of that user. */
  lemma GetUserByUsernameReturnsStored(s: Store, u: User)
    requires Valid(s)
    requires u in s.users
    ensures GetUserByUsername(s, u.username) == Success(PublishUser(u))
  {
  }

  /** Reading back a created event by its new id gives the created event. */
  lemma AddEventThenGet(s: Store, eventData: EventCreate)
    ensures var o := AddEvent(s, eventData);
            GetEventById(o.store, o.result.value.id) == Success(o.result.value)
  {
  }

  /** Reading back a created user by its username gives the payload. */
  lemma AddUserThenGet(s: Store, user: UserCreate)
    requires Valid(s)
    requires user.username !in Usernames(s.users)
    ensures GetUserByUsername(AddUser(s, user).store, user.username)
            == Success(PublishUser(UserFromCreate(user)))
  {
  }

  /** After a full replace, reading the event back gives the payload under the same id. */
  lemma UpdateThenGet(s: Store, id: int, newEvent: EventCreate)
    requires Valid(s)
    requires id in EventIds(s.events)
    ensures GetEventById(UpdateEvent(s, id, newEvent).store, id)
            == Success(PublishEvent(EventFromCreate(id, newEvent)))
  {
  }

  /** A full replace of one event does not change what any other id reads as. */
  lemma UpdateLeavesOtherEvents(s: Store, id: int, other: int, newEvent: EventCreate)
    requires Valid(s)
    requires other != id
    ensures GetEventById(UpdateEvent(s, id, newEvent).store, other) == GetEventById(s, other)
  {
  }

  /** Registering the same pair twice: the first request succeeds, the second conflicts and changes nothing. */
  lemma RegisterTwiceConflicts(s: Store, id: int, username: string)
    requires RegisterEventForUser(s, id, username).result.Success?
    ensures var t := RegisterEventForUser(s, id, username).store;
            RegisterEventForUser(t, id, username) == Outcome(t, Failure(AlreadyRegistered))
  {
  }

  /** After an event is deleted it cannot be read, registered for, or found in any registration. */
  lemma DeleteEventThenGone(s: Store, id: int, username: string)
    ensures var t := DeleteEvent(s, id).store;
            && GetEventById(t, id) == Failure(EventNotFound)
            && RegisterEventForUser(t, id, username) == Outcome(t, Failure(EventNotFound))
  {
  }

  /** In a valid store, deleting an event leaves no registration that references it. */
  lemma DeleteEventCascades(s: Store, id: int)
    requires Valid(s)
    ensures RegistrationsOfEvent(DeleteEvent(s, id).store, id) == {}
  {
  }

  /** After a user is deleted it cannot be read, and it holds no registration. */
  lemma DeleteUserThenGone(s: Store, username: string)
    requires Valid(s)
    ensures var t := DeleteUserByUsername(s, username).store;
            && GetUserByUsername(t, username) == Failure(UserNotFound)
            && RegistrationsOfUser(t, username) == {}
  {
  }

  /** Creating an event and deleting it again restores the store exactly. */
  lemma AddEventThenDeleteRestores(s: Store, eventData: EventCreate)
    requires Valid(s)
    ensures var o := AddEvent(s, eventData);
            DeleteEvent(o.store, o.result.value.id) == Outcome(s, Success(()))
  {
  }

  /** Creating a user with a fresh username and deleting it again restores the store exactly. */
  lemma AddUserThenDeleteRestores(s: Store, user: UserCreate)
    requires Valid(s)
    requires user.username !in Usernames(s.users)
    ensures DeleteUserByUsername(AddUser(s, user).store, user.username) == Outcome(s, Success(()))
  {
    var u := UserFromCreate(user);
    var t := s.(users := s.users + [u]);
    assert AddUser(s, user).store == t;
    assert u.username in Usernames(t.users);
    var keep := OtherUsers(u.username);
    FilterSnoc(s.users, u, keep);
    assert Filter(s.users, keep) == s.users;
    assert RegistrationsOfUser(t, u.username) == {};
    assert RemoveUser(t, u.username) == s;
  }

  /** Both listings of events, sorted or not, show exactly the stored ids. */
  lemma GetAllEventsShowsStore(s: Store, sort: bool)
    ensures (set p | p in GetAllEvents(s, sort) :: p.id) == EventIds(s.events)
  {
    var r := GetAllEvents(s, sort);
    var listed := PublishEvents(s.events);
    forall id ensures id in (set p | p in r :: p.id) <==> id in EventIds(s.events) {
      if id in EventIds(s.events) {
        var e :| e in s.events && e.id == id;
        var i :| 0 <= i < |s.events| && s.events[i] == e;
        assert listed[i] in multiset(r);
      }
      if id in (set p | p in r :: p.id) {
        var p :| p in r && p.id == id;
        assert p in multiset(listed);
        var i :| 0 <= i < |listed| && listed[i] == p;
        assert EventFromPublic(p) == s.events[i];
      }
    }
  }

  /** Both listings of users, sorted or not, show exactly the stored usernames. */
  lemma GetAllUsersShowsStore(s: Store, sort: bool)
    ensures (set p | p in GetAllUsers(s, sort) :: p.username) == Usernames(s.users)
  {
    var r := GetAllUsers(s, sort);
    var listed := PublishUsers(s.users);
    forall name ensures name in (set p | p in r :: p.username) <==> name in Usernames(s.users) {
      if name in Usernames(s.users) {
        var u :| u in s.users && u.username == name;
        var i :| 0 <= i < |s.users| && s.users[i] == u;
        assert listed[i] in multiset(r);
      }
      if name in (set p | p in r :: p.username) {
        var p :| p in r && p.username == name;
        assert p in multiset(listed);
        var i :| 0 <= i < |listed| && listed[i] == p;
        assert UserFromPublic(p) == s.users[i];
      }
    }
  }

  /** Sorting three listed events titled "Zeta", "Alpha", "Mid" gives "Alpha", "Mid", "Zeta". */
  lemma SortThreeTitles(z: EventPublic, a: EventPublic, m: EventPublic)
    requires z.title == "Zeta" && a.title == "Alpha" && m.title == "Mid"
    ensures SortBy([z, a, m], TitleOf) == [a, m, z]
  {
    assert [z, a, m][..2] == [z, a];
    SortTwoTitles(z, a);
    InsertMidTitle(m, a, z);
  }

  lemma InsertMidTitle(m: EventPublic, a: EventPublic, z: EventPublic)
    requires z.title == "Zeta" && a.title == "Alpha" && m.title == "Mid"
    ensures SortedBy([a, z], TitleOf)
    ensures Insert(m, [a, z], TitleOf) == [a, m, z]
  {
    assert StrLe("Alpha", "Zeta");
    assert StrLe("Alpha", "Mid");
    assert !StrLe("Zeta", "Mid");
    assert Insert(m, [z], TitleOf) == [m, z];
    assert [a, z][1..] == [z];
  }

  lemma SortTwoTitles(z: EventPublic, a: EventPublic)
    requires z.title == "Zeta" && a.title == "Alpha"
    ensures SortBy([z, a], TitleOf) == [a, z]
  {
  }

  /** Events created as "Zeta", "Alpha", "Mid" are listed, when sorted, as "Alpha", "Mid", "Zeta". */
  lemma SortedListingExample(d: Date)
    ensures var s1 := AddEvent(EmptyStore, EventBase("Zeta", "", d, "")).store;
            var s2 := AddEvent(s1, EventBase("Alpha", "", d, "")).store;
            var s3 := AddEvent(s2, EventBase("Mid", "", d, "")).store;
            var listed := GetAllEvents(s3, true);
            |listed| == 3 && listed[0].title == "Alpha" && listed[1].title == "Mid" && listed[2].title == "Zeta"
  {
    var s1 := AddEvent(EmptyStore, EventBase("Zeta", "", d, "")).store;
    var s2 := AddEvent(s1, EventBase("Alpha", "", d, "")).store;
    var s3 := AddEvent(s2, EventBase("Mid", "", d, "")).store;
    assert |s3.events| == 3;
    var stored := PublishEvents(s3.events);
    assert stored == [stored[0], stored[1], stored[2]];
    assert stored[0].title == "Zeta" && stored[1].title == "Alpha" && stored[2].title == "Mid";
    SortThreeTitles(stored[0], stored[1], stored[2]);
  }
}
