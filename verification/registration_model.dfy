/** The `registration` join table and its request/response shapes. */
module RegistrationModel {

  /**
   * A row of the `registration` table. The pair `(username, eventId)` is the
   * composite primary key; each half is a foreign key with `ON DELETE CASCADE`
   * (the constraints themselves are stated by the store's `Valid` invariant).
   */
  datatype Registration = Registration(username: string, eventId: int)

  /** The body of a create request. */
  datatype RegistrationCreate = RegistrationCreate(username: string, eventId: int)

  /** The response shape. */
  datatype RegistrationPublic = RegistrationPublic(username: string, eventId: int)

  function CreateOfRegistration(r: Registration): RegistrationCreate {
    RegistrationCreate(r.username, r.eventId)
  }

  function RegistrationFromPublic(p: RegistrationPublic): Registration {
    Registration(p.username, p.eventId)
  }

  /** The row a create payload becomes: the key pair, nothing added. */
  function RegistrationFromCreate(c: RegistrationCreate): (r: Registration)
    ensures CreateOfRegistration(r) == c
    ensures r.username == c.username && r.eventId == c.eventId
  {
    Registration(c.username, c.eventId)
  }

  /** The response for a row: the key pair, nothing added. */
  function PublishRegistration(r: Registration): (p: RegistrationPublic)
    ensures RegistrationFromPublic(p) == r
  {
    RegistrationPublic(r.username, r.eventId)
  }
}
