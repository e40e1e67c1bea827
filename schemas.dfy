/**
 * The request and response shapes of the sweet shop API (Pydantic models in
 * the server), plus the two table rows the handlers read and write.
 * Prices are compared but never computed with, so they are `real`.
 */
module Schemas {
  import opened Wrappers

  /** Registration request. `role` may be omitted by the client and then defaults to `DefaultRole`. */
  datatype UserCreate = UserCreate(username: string, email: string, password: string, role: string)

  const DefaultRole := "user"
  const AdminRole := "admin"

  /** A registration request whose body carries no `role` field. */
  function UserCreateWithoutRole(username: string, email: string, password: string): (u: UserCreate)
    ensures u.role == DefaultRole
    ensures u.username == username && u.email == email && u.password == password
  {
    UserCreate(username, email, password, DefaultRole)
  }

  /** What registration returns: identifier, user name and e-mail, and nothing about the password. */
  datatype UserResponse = UserResponse(id: int, username: string, email: string)

  /** A row of the user table. It stores a hash of the password, never the password. */
  datatype User = User(id: int, username: string, email: string, hashedPassword: string, role: string)

  /** The public view of a stored user. */
  function ToUserResponse(u: User): (r: UserResponse)
    ensures r.id == u.id && r.username == u.username && r.email == u.email
  {
    UserResponse(u.id, u.username, u.email)
  }

  /** The response does not depend on the stored hash or role: neither can leak through it. */
  lemma ResponseHidesSecrets(u: User, otherHash: string, otherRole: string)
    ensures ToUserResponse(u) == ToUserResponse(u.(hashedPassword := otherHash, role := otherRole))
  {
  }

  /** The fields of a sweet. There is no sign constraint on price or quantity. */
  datatype SweetBase = SweetBase(name: string, category: string, price: real, quantity: int)

  /** Creation request: exactly the base fields. */
  type SweetCreate = SweetBase

  /** Partial update: every field is optional; an absent field means "leave as is". */
  datatype SweetUpdate = SweetUpdate(category: Option<string>, price: Option<real>, quantity: Option<int>)

  /** The update with every field left at its default: a well-formed, empty patch. */
  const NoChanges := SweetUpdate(None, None, None)

  /** A stored sweet as returned to clients: the base fields plus the table's integer id. */
  datatype SweetResponse = SweetResponse(id: int, name: string, category: string, price: real, quantity: int) {

    /** The base fields of this sweet. */
    function Base(): SweetBase {
      SweetBase(name, category, price, quantity)
    }
  }

  /** The response for base fields `b` stored under `id`. */
  function WithId(id: int, b: SweetBase): (r: SweetResponse)
    ensures r.id == id && r.Base() == b
  {
    SweetResponse(id, b.name, b.category, b.price, b.quantity)
  }

  /** A response is determined by its id and its base fields. */
  lemma WithIdOfBase(s: SweetResponse)
    ensures WithId(s.id, s.Base()) == s
  {
  }
}
