/**
 * Registration and login (`app/routers/auth.py`). bcrypt verification and
 * JWT creation are foreign calls and are passed in as the functions `verify`
 * and `createToken`; `hash` is the hashing function registration stores with.
 */
module Auth {
  import opened Wrappers
  import opened Schemas
  import opened Http
  import opened Text
  import opened Crud

  const EmailTaken := HttpError(400, "Email already registered")
  const InvalidCredentials := HttpError(401, "Invalid credentials")
  const BearerType := "bearer"

  /** The body of a successful login: the access token, its type and the stored role. */
  datatype Token = Token(accessToken: string, tokenType: string, role: string)

  /** Some user has this e-mail address. */
  predicate HasEmail(users: seq<User>, email: string) {
    exists k :: 0 <= k < |users| && users[k].email == email
  }

  /** No e-mail address occurs twice. */
  ghost predicate EmailsUnique(users: seq<User>) {
    forall i, j :: 0 <= i < |users| && 0 <= j < |users| && i != j ==> users[i].email != users[j].email
  }

  /** Position `k` holds the first user with this name (`filter(User.username == name).first()`). */
  ghost predicate IsFirstNamed(users: seq<User>, k: int, name: string) {
    && 0 <= k < |users|
    && users[k].username == name
    && forall j :: 0 <= j < k ==> users[j].username != name
  }

  /** The position of the first user with this name, if any. */
  function FirstByUsername(users: seq<User>, name: string): (r: Option<nat>)
    ensures r.Some? ==> IsFirstNamed(users, r.value, name)
    ensures r.None? <==> forall k :: 0 <= k < |users| ==> users[k].username != name
  {
    if users == [] then None
    else if users[0].username == name then Some(0)
    else match FirstByUsername(users[1..], name)
      case None =>
        assert forall k :: 1 <= k < |users| ==> users[k] == users[1..][k - 1];
        None
      case Some(i) =>
        assert forall j :: 1 <= j < i + 1 ==> users[j] == users[1..][j - 1];
        Some(i + 1)
  }

  /** There is one first user per name. */
  lemma FirstNamedUnique(users: seq<User>, k: int, k': int, name: string)
    requires IsFirstNamed(users, k, name) && IsFirstNamed(users, k', name)
    ensures k == k'
  {
  }

  /**
   * POST /api/auth/login: both credentials are stripped of surrounding
   * whitespace; the first user with that name must exist and its stored hash
   * must verify, otherwise 401. Success returns a bearer token and the role.
   */
  function Login(users: seq<User>, username: string, password: string,
                 verify: (string, string) -> bool, createToken: string -> string): (r: Result<Token, HttpError>)
    ensures r.Err? ==> r.error == InvalidCredentials
    ensures r.Ok? <==> exists k :: IsFirstNamed(users, k, Trim(username)) && verify(Trim(password), users[k].hashedPassword)
    ensures r.Ok? ==> exists k :: IsFirstNamed(users, k, Trim(username)) &&
                                 r.value == Token(createToken(users[k].username), BearerType, users[k].role)
  {
    var name, secret := Trim(username), Trim(password);
    match FirstByUsername(users, name)
    case None =>
      assert forall k :: !IsFirstNamed(users, k, name);
      Err(InvalidCredentials)
    case Some(k) =>
      assert IsFirstNamed(users, k, name);
      if !verify(secret, users[k].hashedPassword) then
        assert forall k' | IsFirstNamed(users, k', name) :: !verify(secret, users[k'].hashedPassword) by {
          forall k' | IsFirstNamed(users, k', name) ensures k' == k {
            FirstNamedUnique(users, k, k', name);
          }
        }
        Err(InvalidCredentials)
      else Ok(Token(createToken(users[k].username), BearerType, users[k].role))
  }

  /**
   * POST /api/auth/register: rejects an e-mail address that is already
   * registered; otherwise stores the user with the role given in the request.
   */
  method RegisterUser(table: UserTable, u: UserCreate, hash: string -> string) returns (r: Result<UserResponse, HttpError>)
    requires table.Valid()
    modifies table
    ensures table.Valid()
    ensures HasEmail(old(table.users), u.email) ==> r == Err(EmailTaken) && unchanged(table)
    ensures !HasEmail(old(table.users), u.email) ==>
      && table.users == old(table.users) + [NewUser(old(table.nextId), u, u.role, hash)]
      && r == Ok(UserResponse(old(table.nextId), u.username, u.email))
    ensures EmailsUnique(old(table.users)) ==> EmailsUnique(table.users)
  {
    if HasEmail(table.users, u.email) {
      return Err(EmailTaken);
    }
    var created := table.CreateUser(u, hash, u.role);
    r := Ok(ToUserResponse(created));
  }

  /** `verify` accepts a password against a hash exactly when the hash was made from that password. */
  ghost predicate FaithfulVerify(hash: string -> string, verify: (string, string) -> bool) {
    forall p, q :: verify(p, hash(q)) <==> p == q
  }

  /** Login succeeds with the first user of the stripped name when that user accepts the stripped password. */
  lemma LoginAt(users: seq<User>, k: int, username: string, password: string,
                verify: (string, string) -> bool, createToken: string -> string)
    requires IsFirstNamed(users, k, Trim(username)) && verify(Trim(password), users[k].hashedPassword)
    ensures Login(users, username, password, verify, createToken)
            == Ok(Token(createToken(users[k].username), BearerType, users[k].role))
  {
    var k' := FirstByUsername(users, Trim(username)).value;
    FirstNamedUnique(users, k, k', Trim(username));
  }

  /**
   * A user registered with credentials that have no surrounding whitespace
   * can log in with them and receives the role chosen at registration, so a
   * client may register itself as "admin".
   */
  lemma RegisterThenLogin(users: seq<User>, id: int, u: UserCreate, hash: string -> string,
                          verify: (string, string) -> bool, createToken: string -> string)
    requires FaithfulVerify(hash, verify)
    requires forall k :: 0 <= k < |users| ==> users[k].username != u.username
    requires Trim(u.username) == u.username && Trim(u.password) == u.password
    ensures Login(users + [NewUser(id, u, u.role, hash)], u.username, u.password, verify, createToken)
            == Ok(Token(createToken(u.username), BearerType, u.role))
  {
    var after := users + [NewUser(id, u, u.role, hash)];
    assert IsFirstNamed(after, |users|, Trim(u.username));
    assert verify(Trim(u.password), after[|users|].hashedPassword);
    LoginAt(after, |users|, u.username, u.password, verify, createToken);
  }

  /** Appending a user never changes which earlier user is first under a name that already existed. */
  lemma FirstNamedAfterAppend(users: seq<User>, added: User, name: string, k: nat)
    requires IsFirstNamed(users, k, name)
    ensures IsFirstNamed(users + [added], k, name)
  {
    assert forall j :: 0 <= j <= k ==> (users + [added])[j] == users[j];
  }

  /**
   * Registration checks only the e-mail, so a second user may take an
   * existing name; login looks up the first user of the stripped name, so
   * the newcomer changes no login outcome: every attempt under that name is
   * still checked against the earlier user's hash and returns their role.
   */
  lemma LaterNamesakeIgnored(users: seq<User>, added: User, username: string, password: string,
                             verify: (string, string) -> bool, createToken: string -> string)
    requires exists k :: 0 <= k < |users| && users[k].username == Trim(username)
    ensures Login(users + [added], username, password, verify, createToken) == Login(users, username, password, verify, createToken)
  {
    var name := Trim(username);
    var k := FirstByUsername(users, name).value;
    FirstNamedAfterAppend(users, added, name, k);
    var k' := FirstByUsername(users + [added], name).value;
    FirstNamedUnique(users + [added], k, k', name);
    assert (users + [added])[k] == users[k];
  }

  /** Login fails when no first user of the stripped name accepts the stripped password. */
  lemma LoginRejects(users: seq<User>, username: string, password: string,
                     verify: (string, string) -> bool, createToken: string -> string)
    requires forall k :: IsFirstNamed(users, k, Trim(username)) ==> !verify(Trim(password), users[k].hashedPassword)
    ensures Login(users, username, password, verify, createToken).Err?
  {
  }

  /** When no earlier user has the name, only the appended user can be the first of that name. */
  lemma OnlyAppendedNamed(users: seq<User>, added: User, name: string, k: int)
    requires forall j :: 0 <= j < |users| ==> users[j].username != name
    requires IsFirstNamed(users + [added], k, name)
    ensures k == |users| && added.username == name
  {
    assert forall j :: 0 <= j < |users| ==> (users + [added])[j] == users[j];
  }

  /**
   * The appended user, registered with untrimmed credentials, is never both
   * found under a stripped name and accepted with a stripped password.
   */
  lemma AppendedUntrimmedRejects(users: seq<User>, added: User, u: UserCreate, hash: string -> string,
                                 verify: (string, string) -> bool, name: string, secret: string)
    requires FaithfulVerify(hash, verify)
    requires added.username == u.username && added.hashedPassword == hash(u.password)
    requires forall j :: 0 <= j < |users| ==> users[j].username != name
    requires Trim(name) == name && Trim(secret) == secret
    requires Trim(u.username) != u.username || Trim(u.password) != u.password
    ensures forall k :: IsFirstNamed(users + [added], k, name) ==> !verify(secret, (users + [added])[k].hashedPassword)
  {
    forall k | IsFirstNamed(users + [added], k, name)
      ensures !verify(secret, (users + [added])[k].hashedPassword)
    {
      OnlyAppendedNamed(users, added, name, k);
      assert (users + [added])[k] == added;
      assert Trim(u.username) == u.username;
      assert secret != u.password;
    }
  }

  /**
   * Registration stores the name and password exactly as sent, but login
   * strips what it receives: a user registered with whitespace around the
   * name or the password can never log in as that user, whatever is typed.
   */
  lemma UntrimmedRegistrationLocksOut(users: seq<User>, id: int, u: UserCreate, hash: string -> string,
                                      verify: (string, string) -> bool, createToken: string -> string,
                                      typedName: string, typedPassword: string)
    requires FaithfulVerify(hash, verify)
    requires forall k :: 0 <= k < |users| ==> users[k].username != Trim(typedName)
    requires Trim(u.username) != u.username || Trim(u.password) != u.password
    ensures Login(users + [NewUser(id, u, u.role, hash)], typedName, typedPassword, verify, createToken).Err?
  {
    var after := users + [NewUser(id, u, u.role, hash)];
    assert forall k :: IsFirstNamed(after, k, Trim(typedName)) ==> !verify(Trim(typedPassword), after[k].hashedPassword) by {
      TrimIdempotent(typedName);
      TrimIdempotent(typedPassword);
      AppendedUntrimmedRejects(users, NewUser(id, u, u.role, hash), u, hash, verify, Trim(typedName), Trim(typedPassword));
    }
    LoginRejects(after, typedName, typedPassword, verify, createToken);
  }

  /** The smallest instance: "alice" registered with password "secret1 " (a trailing space). */
  lemma TrailingSpaceExample(hash: string -> string, verify: (string, string) -> bool,
                             createToken: string -> string, typedPassword: string)
    requires FaithfulVerify(hash, verify)
    ensures Login([NewUser(1, UserCreate("alice", "alice@example.com", "secret1 ", DefaultRole), DefaultRole, hash)],
                  "alice", typedPassword, verify, createToken).Err?
  {
    var u := UserCreate("alice", "alice@example.com", "secret1 ", DefaultRole);
    assert IsSpace(u.password[|u.password| - 1]);
    assert Trim(u.password) != u.password;
    assert Trim("alice") == "alice" by { TrimOfTrimmed("alice"); }
    UntrimmedRegistrationLocksOut([], 1, u, hash, verify, createToken, "alice", typedPassword);
  }

  /** The registration request with name and password stripped, as login will see them. */
  function Normalized(u: UserCreate): (n: UserCreate)
    ensures n.email == u.email && n.role == u.role
    ensures n.username == Trim(u.username) && n.password == Trim(u.password)
  {
    u.(username := Trim(u.username), password := Trim(u.password))
  }

  /** Registration that strips the name and password the same way login does. */
  method RegisterUserTrimmed(table: UserTable, u: UserCreate, hash: string -> string) returns (r: Result<UserResponse, HttpError>)
    requires table.Valid()
    modifies table
    ensures table.Valid()
    ensures HasEmail(old(table.users), u.email) ==> r == Err(EmailTaken) && unchanged(table)
    ensures !HasEmail(old(table.users), u.email) ==>
      && table.users == old(table.users) + [NewUser(old(table.nextId), Normalized(u), u.role, hash)]
      && r == Ok(UserResponse(old(table.nextId), Trim(u.username), u.email))
    ensures EmailsUnique(old(table.users)) ==> EmailsUnique(table.users)
  {
    r := RegisterUser(table, Normalized(u), hash);
  }

  /**
   * With stripping on both sides, a registered user can log in by typing the
   * same credentials again, surrounding whitespace or not.
   */
  lemma TrimmedRegistrationRoundTrip(users: seq<User>, id: int, u: UserCreate, hash: string -> string,
                                     verify: (string, string) -> bool, createToken: string -> string,
                                     typedName: string, typedPassword: string)
    requires FaithfulVerify(hash, verify)
    requires forall k :: 0 <= k < |users| ==> users[k].username != Trim(u.username)
    requires Trim(typedName) == Trim(u.username) && Trim(typedPassword) == Trim(u.password)
    ensures Login(users + [NewUser(id, Normalized(u), u.role, hash)], typedName, typedPassword, verify, createToken)
            == Ok(Token(createToken(Trim(u.username)), BearerType, u.role))
  {
    var after := users + [NewUser(id, Normalized(u), u.role, hash)];
    assert IsFirstNamed(after, |users|, Trim(typedName));
    assert verify(Trim(typedPassword), hash(Trim(u.password)));
    LoginAt(after, |users|, typedName, typedPassword, verify, createToken);
  }
}
