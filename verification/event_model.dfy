/** The `event` table and its request/response shapes. */
module EventModel {

  /** A `datetime`, kept opaque: events only store, copy and compare dates. */
  datatype Date = Date(iso: string)

  /** The four mutable fields every event shape shares. */
  datatype EventBase = EventBase(title: string, description: string, date: Date, location: string)

  /** The body of a create or full-replace request: the base fields and no id. */
  type EventCreate = EventBase

  /** A row of the `event` table; `id` is its primary key, assigned by the store. */
  datatype Event = Event(id: int, title: string, description: string, date: Date, location: string)

  /** The response shape: the base fields plus the id. */
  datatype EventPublic = EventPublic(title: string, description: string, date: Date, location: string, id: int)

  /** The mutable part of a stored event. */
  function BaseOf(e: Event): EventBase {
    EventBase(e.title, e.description, e.date, e.location)
  }

  /** The row a create payload becomes once the store has given it `id`. */
  function EventFromCreate(id: int, c: EventCreate): (e: Event)
    ensures e.id == id && BaseOf(e) == c
    ensures forall other: Event :: other.id == id && BaseOf(other) == c ==> other == e
  {
    Event(id, c.title, c.description, c.date, c.location)
  }

  /** The stored row a response describes. */
  function EventFromPublic(p: EventPublic): Event {
    Event(p.id, p.title, p.description, p.date, p.location)
  }

  /** The response for a stored row: nothing is lost and nothing is added. */
  function PublishEvent(e: Event): (p: EventPublic)
    ensures EventFromPublic(p) == e
    ensures p.id == e.id && p.title == e.title
  {
    EventPublic(e.title, e.description, e.date, e.location, e.id)
  }

  /** Every response shape is the projection of exactly one row. */
  lemma PublishEventOnto(p: EventPublic)
    ensures PublishEvent(EventFromPublic(p)) == p
  {
  }
}
