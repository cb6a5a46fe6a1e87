# Event-registration store, modelled in Dafny

The service keeps three tables: `user`, keyed by `username`; `event`, keyed by a
store-assigned integer `id`; and `registration`, the join table keyed by the pair
`(username, event_id)`. Each half of that pair is a foreign key with `ON DELETE CASCADE`.
The `/events` and `/users` route handlers are short decision procedures over those
tables. This project models the database as one immutable value and each handler as
a pure transition. It proves that each transition keeps the schema constraints, and
it states what each handler promises.

Layout (one module per file):

- `results.dfy` (`Results`): `Option` and `Result`.
- `seqs.dfy` (`Seqs`): `DistinctBy`, the primary-key constraint of a table. `Filter`, the
  rows a delete keeps. Facts about permutations and filtering.
- `sorting.dfy` (`Sorting`): Python's string order `StrLe`. A stable insertion sort
  `SortBy`, the model of `sorted(..., key=...)`, with sortedness, permutation and
  stability proved.
- `event_model.dfy`, `user_model.dfy` and `registration_model.dfy`: the table rows and
  their create and public shapes, with the projections between them.
- `database.dfy` (`Database`): the `Store` (two tables in storage order and the join
  table as a set), the handler outcome `Outcome(store, result)` and the error type. It
  also holds the `Valid` invariant (both primary keys, plus referential integrity of
  every registration), key lookup, single-row deletes with their cascade, and id
  allocation.
- `events_router.dfy` and `users_router.dfy`: one function per route handler.
- `properties.dfy` (`Properties`): facts that relate several requests. These cover
  round trips, delete-after-create and register-twice.
- `api.dfy` (`Api`): the route table as a `Request` datatype. It proves that any
  sequence of requests served from an empty database keeps `Valid`. So, under the
  foreign keys the schema declares, no registration is ever left dangling.

The join table is a set of `(username, event_id)` pairs, so the composite primary
key of `registration` (at most one row per pair) holds by construction and needs no
separate invariant.

A failing handler returns its error together with the store it was given, and the
contracts state this. Read handlers return only their answer, so they cannot change
the store.

## Model

| member | source | states |
|---|---|---|
| EventModel.EventFromCreate | app/models/event.py:14-24 | a stored event has the id the store gave it and exactly the four fields of the create payload; no other row has both |
| EventModel.PublishEvent | app/models/event.py:26-31 | the public shape carries the stored row's id and base fields, and the row can be recovered from it unchanged |
| EventModel.PublishEventOnto | app/models/event.py:26-31 | every public shape is the projection of exactly one row, so the projection adds nothing |
| UserModel.UserFromCreate | app/routers/users.py:47 | validating a create payload into a row keeps its username, name and email, and the payload can be recovered from the row |
| UserModel.PublishUser | app/models/user.py:25-29 | the public shape keeps username, name and email, and the row can be recovered from it unchanged |
| UserModel.UserShapesAgree | app/models/user.py:4-35 | create, row and public shapes carry the same three fields: create, then store, then publish, then read back gives the original payload |
| RegistrationModel.RegistrationFromCreate | app/models/registration.py:52-56 | a registration created from a payload is exactly its `(username, event_id)` pair |
| RegistrationModel.PublishRegistration | app/models/registration.py:45-50 | the public shape of a registration is its key pair and nothing more |
| Database.FindEvent | app/routers/events.py:37 | a lookup of an event by id finds a stored row with that id, and finds nothing exactly when no stored event has that id |
| Database.FindUser | app/routers/users.py:32-33 | a lookup of a user by username finds a stored row with that username, and finds nothing exactly when no stored user has it |
| Database.KeyedEventIsUnique | app/models/event.py:18 | in a valid store, `id` identifies at most one event row |
| Database.KeyedUserIsUnique | app/models/user.py:16 | in a valid store, `username` identifies at most one user row |
| Database.RemoveEvent | app/models/registration.py:31-40 | deleting an event row also deletes every registration with that event id, as the declared cascade requires; the other events stay in their storage order; users stay; the invariant is kept |
| Database.RemoveUser | app/models/user.py:17-23 | deleting a user row also deletes every registration it owns; the other users stay in their storage order; events stay; the invariant is kept |
| Database.NextEventId | app/models/event.py:18 | the id given to a new event is positive and larger than every stored id, so it is fresh |
| Database.EventIdList | app/routers/events.py:86-87 | the listing the delete-all loop walks names exactly the stored event ids |
| Database.UsernameList | app/routers/users.py:61-62 | the listing the delete-all loop walks names exactly the stored usernames |
| Database.EmptyStoreIsValid | app/models/registration.py:17-40 | a fresh database satisfies both primary keys and referential integrity |
| Sorting.SortBy | app/routers/events.py:25 | `sorted` returns a permutation of its input that is non-decreasing by the key under Python's string order |
| Sorting.SortByIsStable | app/routers/events.py:25 | `sorted` is stable: for every key value, the rows with that key come out in their input order |
| Sorting.SortByDistinctIsStrict | app/routers/users.py:21 | sorting rows with distinct keys gives a strictly increasing order |
| EventsRouter.GetAllEvents | app/routers/events.py:22-26 | the listing is a permutation of the stored events. With `sort`, titles are non-decreasing. Without it, storage order is kept |
| EventsRouter.GetEventById | app/routers/events.py:37-40 | succeeds exactly when the id is stored, with a stored row carrying that id; otherwise EventNotFound |
| EventsRouter.AddEvent | app/routers/events.py:48-52 | appends one event whose id was not stored before and whose fields equal the payload; users and registrations unchanged; invariant kept |
| EventsRouter.RegisterEventForUser | app/routers/events.py:64-76 | checks in order: missing event gives EventNotFound (whatever the user), then missing user gives UserNotFound, then an existing pair gives AlreadyRegistered, each with the store unchanged; otherwise adds exactly the pair; invariant kept |
| EventsRouter.DeleteEventsEach | app/routers/events.py:86-89 | deleting the listed events one at a time removes exactly those events and the registrations that reference them; users stay; invariant kept |
| EventsRouter.DeleteAllEvents | app/routers/events.py:86-92 | the event table ends empty; a registration remains only if its event was never stored, so in a valid store none remain; users unchanged |
| EventsRouter.DeleteEvent | app/routers/events.py:102-107 | missing id gives EventNotFound with no change; otherwise removes that event and its registrations only, and the other events keep their storage order; users unchanged; invariant kept |
| EventsRouter.UpdateEvent | app/routers/events.py:119-128 | missing id gives EventNotFound with no change. Otherwise the four fields of that event become the payload. Every id and position is kept, other events are untouched, users and registrations are unchanged, and the invariant is kept |
| UsersRouter.GetAllUsers | app/routers/users.py:18-22 | the listing is a permutation of the stored users. With `sort` it is ordered by username, strictly in a valid store. Without it, storage order is kept |
| UsersRouter.GetUserByUsername | app/routers/users.py:32-36 | succeeds exactly when the username is stored, with a stored row carrying it; otherwise UserNotFound |
| UsersRouter.AddUser | app/routers/users.py:47-50 | a fresh username appends exactly the payload's row. A taken username fails with UsernameTaken and no change, because the primary key refuses it. Invariant kept |
| UsersRouter.DeleteUsersEach | app/routers/users.py:61-64 | deleting the listed users one at a time removes exactly those users and their registrations; events stay; invariant kept |
| UsersRouter.DeleteAllUsers | app/routers/users.py:61-67 | the user table ends empty; a registration remains only if its user was never stored, so in a valid store none remain; events unchanged |
| UsersRouter.DeleteUserByUsername | app/routers/users.py:77-83 | missing username gives UserNotFound with no change; otherwise removes that user and its registrations only, and the other users keep their storage order; events unchanged; invariant kept |
| Properties.GetEventByIdReturnsStored | app/routers/events.py:37-40 | in a valid store, reading an event by its id returns exactly that stored row |
| Properties.GetUserByUsernameReturnsStored | app/routers/users.py:32-36 | in a valid store, reading a user by username returns exactly that stored row |
| Properties.AddEventThenGet | app/routers/events.py:48-52 | reading a created event by its new id returns what the create answered |
| Properties.AddUserThenGet | app/routers/users.py:47-50 | reading a created user by username returns the payload |
| Properties.UpdateThenGet | app/routers/events.py:119-127 | after a full replace, reading the id returns the payload under the same id |
| Properties.UpdateLeavesOtherEvents | app/routers/events.py:119-127 | a full replace changes no other id's read result |
| Properties.RegisterTwiceConflicts | app/routers/events.py:70-75 | registering the same pair twice: the first call succeeds, the second gives AlreadyRegistered and changes nothing |
| Properties.DeleteEventThenGone | app/routers/events.py:102-106 | after deleting an event, reading it gives EventNotFound and registering for it gives EventNotFound |
| Properties.DeleteEventCascades | app/models/registration.py:31-40 | in a valid store, no registration references a deleted event |
| Properties.DeleteUserThenGone | app/routers/users.py:77-82 | in a valid store, after deleting a user, reading it gives UserNotFound and it holds no registration |
| Properties.AddEventThenDeleteRestores | app/routers/events.py:48-52 | creating an event and deleting it again gives back exactly the original store |
| Properties.AddUserThenDeleteRestores | app/routers/users.py:47-50 | creating a user with a fresh username and deleting it again gives back exactly the original store |
| Properties.GetAllEventsShowsStore | app/routers/events.py:22-26 | sorted or not, the event listing shows exactly the stored ids |
| Properties.GetAllUsersShowsStore | app/routers/users.py:18-22 | sorted or not, the user listing shows exactly the stored usernames |
| Properties.SortedListingExample | app/routers/events.py:22-25 | events created as "Zeta", "Alpha", "Mid" are listed, when sorted, as "Alpha", "Mid", "Zeta" |
| Api.Serve | app/models/registration.py:21-40 | serving any one request keeps both primary keys and referential integrity; read routes leave the store unchanged |
| Api.Run | app/models/registration.py:21-40 | serving any sequence of requests keeps both primary keys and referential integrity |
| Api.ServedStoreIsValid | app/models/registration.py:17-40 | every store reachable from a fresh database satisfies the schema constraints |
| Api.NoDanglingRegistration | app/models/registration.py:21-40 | in every reachable store, each registration's user and event exist, as the declared foreign keys require |

## Left out

- HTTP and routing: status codes, detail strings, `Request`, `Path` and the
  confirmation strings are not modelled. Outcomes are the `Error` datatype, and a
  handler that answers only with a confirmation string returns `()`.
- Session lifecycle: `SessionDep`, `commit`, `refresh` and SQL generation are not
  modelled. Each handler is one atomic transition, and a failing handler leaves the
  store as it was.
- Database.RemoveEvent: states the `ON DELETE CASCADE` that the schema declares
  (app/models/registration.py:31-40). The visible code does not show that this is
  enforced. `Api.NoDanglingRegistration` rests on the same declaration for the
  event side. app/data/db.py is not shown, so nothing visible turns on
  foreign-key enforcement, and SQLite enforces it only after
  `PRAGMA foreign_keys=ON`. The comments at app/routers/events.py:84-85 and
  app/routers/users.py:59-60 report that a bulk delete did not cascade.
  `Registration.event` names `back_populates="registrations"`, but `Event`
  declares no such attribute, and SQLAlchemy reports that as an error when it
  configures the mapper. So the visible code establishes neither enforcement nor
  a working `Event` mapping. Without enforcement, deleting an event leaves its
  registrations behind. An event created later that reuses the id inherits them,
  and registering for it then gives 409 where the model answers with success.
- Database.RemoveUser: likewise states the declared cascade. The user side is
  also backed by the ORM cascade of `User.registrations`
  (app/models/user.py:17-23), which runs only if the mapper configures.
- The per-row versus bulk delete workaround: the delete-all loops are modelled as
  deleting each listed row in turn, and their net effect is proved. The statement
  kinds a store would issue are not modelled.
- Concurrency: the check-then-insert race of registration is not modelled. Every
  transition is atomic.
- `datetime`: a date is an opaque value (`Date`) that is only stored, copied and
  compared for equality.
- app/models/username.py is not part of this model. The register body is reduced to
  its username string.
- app/data/db.py is not part of this model. The database engine is unknown.
  `NextEventId` assumes SQLite's default rowid rule: one more than the largest stored
  id, and never below 1, so 1 when the table is empty.
- Event ids are unbounded integers, not the bounded `INTEGER` column of
  app/models/event.py:18. A path id outside the column's range, which the
  database driver rejects with a server error, is answered `EventNotFound` by the
  model. Exhausting the id column is not modelled either: `NextEventId` never
  runs out.
- Database.NextEventId: promises freshness only against the ids stored now, not
  against every id ever issued. Under the assumed rule, the id of a deleted largest
  event can be reused. Never reusing an id would need `AUTOINCREMENT`, which the
  visible code does not show.
- EventsRouter.GetAllEvents: "storage order" for the unsorted listing is modelled as
  the table sequence. A `SELECT` without `ORDER BY` promises no order, so this is the
  model's choice of one.
- UsersRouter.GetAllUsers: same storage-order choice as above.
- UsersRouter.AddUser: the route does no duplicate check, and a duplicate username
  fails at commit with a database integrity error. The model returns `UsernameTaken`
  with the store unchanged. It does not model the server-error response.
- Pydantic validation of request bodies (the 422 path) is not modelled. Payloads
  arrive well-typed.
