/** The `user` table and its request/response shapes. */
module UserModel {

  /** A row of the `user` table; `username` is its primary key. */
  datatype User = User(username: string, name: string, email: string)

  /** The body of a create request. */
  datatype UserCreate = UserCreate(username: string, name: string, email: string)

  /** The response shape. */
  datatype UserPublic = UserPublic(username: string, name: string, email: string)

  /** The create payload a row was made from. */
  function CreateOfUser(u: User): UserCreate {
    UserCreate(u.username, u.name, u.email)
  }

  /** The row a response describes. */
  function UserFromPublic(p: UserPublic): User {
    User(p.username, p.name, p.email)
  }

  /** `User.model_validate(user)`: the row keeps every field of the payload. */
  function UserFromCreate(c: UserCreate): (u: User)
    ensures CreateOfUser(u) == c
    ensures u.username == c.username
  {
    User(c.username, c.name, c.email)
  }

  /** `UserPublic.model_validate(user)`: the response keeps every field of the row. */
  function PublishUser(u: User): (p: UserPublic)
    ensures UserFromPublic(p) == u
    ensures p.username == u.username
  {
    UserPublic(u.username, u.name, u.email)
  }

  /** The create and public shapes carry the same three fields and nothing more. */
  lemma UserShapesAgree(c: UserCreate)
    ensures CreateOfUser(UserFromPublic(PublishUser(UserFromCreate(c)))) == c
  {
  }
}
