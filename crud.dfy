/**
 * The user table and the admin guard (`app/crud.py`). Password hashing is a
 * foreign call (bcrypt) and is passed in as the function `hash`.
 */
module Crud {
  import opened Wrappers
  import opened Schemas
  import opened Http

  const AdminsOnly := HttpError(403, "Admins only")

  /** The dependency that lets only administrators through; anyone else gets 403. */
  function GetCurrentAdmin(current: User): (r: Result<User, HttpError>)
    ensures r.Err? <==> current.role != AdminRole
    ensures r.Err? ==> r.error == AdminsOnly
    ensures r.Ok? ==> r.value == current
  {
    if current.role != AdminRole then Err(AdminsOnly) else Ok(current)
  }

  /** The row `create_user` builds: the request's name and e-mail, the hash of its password, the given role. */
  function NewUser(id: int, u: UserCreate, role: string, hash: string -> string): (r: User)
    ensures r.id == id && r.username == u.username && r.email == u.email && r.role == role
    ensures r.hashedPassword == hash(u.password)
  {
    User(id, u.username, u.email, hash(u.password), role)
  }

  /** The user table: rows in id order and the next id the database will assign. */
  class UserTable {
    var users: seq<User>
    var nextId: int

    ghost predicate Valid()
      reads this
    {
      && 1 <= nextId
      && (forall i, j :: 0 <= i < j < |users| ==> users[i].id < users[j].id)
      && (forall k :: 0 <= k < |users| ==> 0 < users[k].id < nextId)
    }

    constructor ()
      ensures Valid() && users == [] && nextId == 1
    {
      users, nextId := [], 1;
    }

    /** Inserts one user with a fresh id; `role` defaults to "user". */
    method CreateUser(u: UserCreate, hash: string -> string, role: string := DefaultRole) returns (created: User)
      requires Valid()
      modifies this
      ensures Valid()
      ensures created == NewUser(old(nextId), u, role, hash)
      ensures users == old(users) + [created] && nextId == old(nextId) + 1
      ensures forall k :: 0 <= k < |old(users)| ==> old(users)[k].id != created.id
    {
      created := NewUser(nextId, u, role, hash);
      users := users + [created];
      nextId := nextId + 1;
    }
  }
}
