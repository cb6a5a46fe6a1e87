/** The handlers of the `/events` routes as transitions of the store. */
module EventsRouter {
  import opened Results
  import opened Seqs
  import opened Sorting
  import opened EventModel
  import opened RegistrationModel
  import opened Database

  /** The sort key of the event listing. */
  function TitleOf(p: EventPublic): string { p.title }

  /** The response shape of every stored row, in storage order. */
  function PublishEvents(events: seq<Event>): (r: seq<EventPublic>)
    ensures |r| == |events|
    ensures forall i :: 0 <= i < |events| ==> EventFromPublic(r[i]) == events[i]
  {
    seq(|events|, i requires 0 <= i < |events| => PublishEvent(events[i]))
  }

  /**
   * GET /events/: every stored event; with `sort`, ordered by title, otherwise
   * in the order the table returns them.
   */
  function GetAllEvents(s: Store, sort: bool): (r: seq<EventPublic>)
    ensures multiset(r) == multiset(PublishEvents(s.events))
    ensures sort ==> SortedBy(r, TitleOf)
    ensures |r| == |s.events|
    ensures !sort ==> forall i :: 0 <= i < |s.events| ==> EventFromPublic(r[i]) == s.events[i]
  {
    var listed := PublishEvents(s.events);
    if sort then SortBy(listed, TitleOf) else listed
  }

  /** GET /events/{id}: the stored event with that id, or 404. */
  function GetEventById(s: Store, id: int): (r: Result<EventPublic, Error>)
    ensures r.Success? <==> id in EventIds(s.events)
    ensures r.Failure? ==> r.error == EventNotFound
    ensures r.Success? ==> r.value.id == id && EventFromPublic(r.value) in s.events
  {
    match FindEvent(s.events, id)
    case None => Failure(EventNotFound)
    case Some(event) => Success(PublishEvent(event))
  }

  /**
   * POST /events/: stores the payload under an id no stored event has and
   * answers with the stored row; nothing else changes.
   */
  function AddEvent(s: Store, eventData: EventCreate): (o: Outcome<EventPublic>)
    ensures o.result.Success?
    ensures o.result.value.id !in EventIds(s.events)
    ensures EventFromPublic(o.result.value) == EventFromCreate(o.result.value.id, eventData)
    ensures o.store == s.(events := s.events + [EventFromPublic(o.result.value)])
    ensures Valid(s) ==> Valid(o.store)
  {
    var newEvent := EventFromCreate(NextEventId(s.events), eventData);
    var t := s.(events := s.events + [newEvent]);
    assert Valid(s) ==> Valid(t) by {
      if Valid(s) {
        assert forall e :: e in s.events ==> e in t.events;
        forall i, j | 0 <= i < j < |t.events| ensures EventKey(t.events[i]) != EventKey(t.events[j]) {
          if j == |s.events| {
            assert t.events[i] in s.events;
          } else {
            assert t.events[i] == s.events[i] && t.events[j] == s.events[j];
          }
        }
      }
    }
    Outcome(t, Success(PublishEvent(newEvent)))
  }

  /**
   * POST /events/{id}/register: checks, in this order, that the event exists,
   * that the user exists and that the pair is not yet registered; only then
   * inserts the pair. Every failure leaves the store as it was.
   */
  function RegisterEventForUser(s: Store, id: int, username: string): (o: Outcome<()>)
    ensures id !in EventIds(s.events) ==> o == Outcome(s, Failure(EventNotFound))
    ensures id in EventIds(s.events) && username !in Usernames(s.users) ==>
              o == Outcome(s, Failure(UserNotFound))
    ensures id in EventIds(s.events) && username in Usernames(s.users) && Registration(username, id) in s.registrations ==>
              o == Outcome(s, Failure(AlreadyRegistered))
    ensures o.result.Success? <==>
              id in EventIds(s.events) && username in Usernames(s.users) && Registration(username, id) !in s.registrations
    ensures o.result.Success? ==>
              o.store == s.(registrations := s.registrations + {Registration(username, id)})
    ensures Valid(s) ==> Valid(o.store)
  {
    match FindEvent(s.events, id)
    case None => Outcome(s, Failure(EventNotFound))
    case Some(event) =>
      match FindUser(s.users, username)
      case None => Outcome(s, Failure(UserNotFound))
      case Some(user) =>
        var pair := Registration(user.username, event.id);
        if pair in s.registrations then Outcome(s, Failure(AlreadyRegistered))
        else Outcome(s.(registrations := s.registrations + {pair}), Success(()))
  }

  /** The loop of DELETE /events/: deletes the events with the listed ids one at a time. */
  function DeleteEventsEach(s: Store, ids: seq<int>): (t: Store)
    ensures t.users == s.users
    ensures forall e :: e in t.events <==> e in s.events && e.id !in ids
    ensures forall r :: r in t.registrations <==> r in s.registrations && r.eventId !in ids
    ensures Valid(s) ==> Valid(t)
    decreases |ids|
  {
    if |ids| == 0 then s
    else
      assert forall x :: x in ids <==> x == ids[0] || x in ids[1..];
      DeleteEventsEach(RemoveEvent(s, ids[0]), ids[1..])
  }

  /**
   * DELETE /events/: empties the event table; every registration that
   * referenced a stored event goes with it, and the users stay.
   */
  function DeleteAllEvents(s: Store): (o: Outcome<()>)
    ensures o.result.Success?
    ensures o.store.events == []
    ensures o.store.users == s.users
    ensures forall r :: r in o.store.registrations <==> r in s.registrations && r.eventId !in EventIds(s.events)
    ensures Valid(s) ==> o.store.registrations == {} && Valid(o.store)
  {
    var ids := EventIdList(s.events);
    var t := DeleteEventsEach(s, ids);
    assert forall e :: e !in t.events;
    NoMemberMeansEmpty(t.events);
    Outcome(t, Success(()))
  }

  /** DELETE /events/{id}: the event and its registrations go, or 404 with nothing changed. */
  function DeleteEvent(s: Store, id: int): (o: Outcome<()>)
    ensures id !in EventIds(s.events) ==> o == Outcome(s, Failure(EventNotFound))
    ensures id in EventIds(s.events) ==> o.result.Success?
    ensures o.store.users == s.users
    ensures o.result.Success? ==> forall e :: e in o.store.events <==> e in s.events && e.id != id
    ensures o.result.Success? ==> o.store.events == Filter(s.events, OtherEvents(id))
    ensures o.result.Success? ==> forall r :: r in o.store.registrations <==> r in s.registrations && r.eventId != id
    ensures Valid(s) ==> Valid(o.store)
  {
    match FindEvent(s.events, id)
    case None => Outcome(s, Failure(EventNotFound))
    case Some(event) => Outcome(RemoveEvent(s, event.id), Success(()))
  }

  /**
   * PUT /events/{id}: replaces the four mutable fields of that event with the
   * payload, keeping its id and position; or 404 with nothing changed.
   */
  function UpdateEvent(s: Store, id: int, newEvent: EventCreate): (o: Outcome<()>)
    ensures id !in EventIds(s.events) ==> o == Outcome(s, Failure(EventNotFound))
    ensures id in EventIds(s.events) ==> o.result.Success?
    ensures o.store.users == s.users && o.store.registrations == s.registrations
    ensures |o.store.events| == |s.events|
    ensures forall i :: 0 <= i < |s.events| ==> o.store.events[i].id == s.events[i].id
    ensures forall i :: 0 <= i < |s.events| && s.events[i].id == id ==> BaseOf(o.store.events[i]) == newEvent
    ensures forall i :: 0 <= i < |s.events| && s.events[i].id != id ==> o.store.events[i] == s.events[i]
    ensures Valid(s) ==> Valid(o.store)
  {
    match FindEvent(s.events, id)
    case None => Outcome(s, Failure(EventNotFound))
    case Some(event) =>
      var events := seq(|s.events|, i requires 0 <= i < |s.events| =>
                          if s.events[i].id == event.id then EventFromCreate(event.id, newEvent) else s.events[i]);
      var t := s.(events := events);
      assert Valid(s) ==> Valid(t) by {
        if Valid(s) {
          forall r | r in t.registrations ensures r.eventId in EventIds(t.events) {
            var e :| e in s.events && e.id == r.eventId;
            var i :| 0 <= i < |s.events| && s.events[i] == e;
            assert t.events[i].id == r.eventId;
          }
          forall i, j | 0 <= i < j < |t.events| ensures EventKey(t.events[i]) != EventKey(t.events[j]) {
            assert EventKey(s.events[i]) != EventKey(s.events[j]);
          }
        }
      }
      Outcome(t, Success(()))
  }
}
