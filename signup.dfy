/**
 * The sign-up page (`pages/Signup.jsx`): the three input checks that enable
 * its button, and the submit handler that registers the user with the
 * default role and reports the outcome.
 */
module Signup {
  import opened Wrappers
  import opened Schemas
  import opened Text
  import opened Client

  const SuccessMessage := "Account created successfully! Redirecting to login..."
  const FailedMessage := "Registration failed. Please try again."
  const ConnectMessage := "Unable to connect to server. Please try again."

  /** At least three UTF-16 code units once surrounding whitespace is stripped. */
  predicate UsernameValid(username: string) {
    Utf16Length(Trim(username)) >= 3
  }

  /** Contains both an '@' and a '.', in either order. */
  predicate EmailValid(email: string) {
    '@' in email && '.' in email
  }

  /** At least six UTF-16 code units, whitespace included. */
  predicate PasswordValid(password: string) {
    Utf16Length(password) >= 6
  }

  /** All three checks hold. */
  predicate FormValid(username: string, email: string, password: string) {
    UsernameValid(username) && EmailValid(email) && PasswordValid(password)
  }

  /** The submit button is disabled while the form is invalid or a request is in flight. */
  function SubmitDisabled(username: string, email: string, password: string, loading: bool): bool {
    !FormValid(username, email, password) || loading
  }

  /**
   * The button is enabled for a password of six spaces, which the login page
   * strips to nothing: the page lets through a password no login can match.
   */
  lemma BlankPasswordEnablesSubmit(username: string, email: string)
    requires UsernameValid(username) && EmailValid(email)
    ensures !SubmitDisabled(username, email, "      ", false)
    ensures Trim("      ") == ""
  {
    BlankPasswordPasses();
  }

  /** The e-mail check ignores the order of '@' and '.': "a.b@c" passes as "a@b.c" does. */
  lemma EmailOrderFree(a: string, b: string, c: string)
    ensures EmailValid(a + "@" + b + "." + c)
    ensures EmailValid(a + "." + b + "@" + c)
  {
    var x, y := a + "@" + b + "." + c, a + "." + b + "@" + c;
    assert x[|a|] == '@' && x[|a| + 1 + |b|] == '.';
    assert y[|a|] == '.' && y[|a| + 1 + |b|] == '@';
  }

  /** The user name is checked trimmed but sent as typed: a valid name with a leading space still passes. */
  lemma PaddedNamePasses(username: string)
    requires UsernameValid(username)
    ensures UsernameValid(" " + username) && " " + username != username
  {
    TrimLeadingSpace(username);
    assert |" " + username| != |username|;
  }

  /** Six spaces pass the password check, though the login page (which trims) refuses them. */
  lemma BlankPasswordPasses()
    ensures PasswordValid("      ")
    ensures Trim("      ") == ""
  {
    TrimEmptyIff("      ");
  }

  /**
   * The length checks count UTF-16 code units: three characters above U+FFFF
   * make a valid password, and a character above U+FFFF plus one letter a
   * valid name.
   */
  lemma AstralCharactersCountTwice()
    ensures PasswordValid("\U{1F600}\U{1F600}\U{1F600}") && |"\U{1F600}\U{1F600}\U{1F600}"| == 3
    ensures UsernameValid("\U{1F600}a") && |"\U{1F600}a"| == 2
  {
    TrimOfTrimmed("\U{1F600}a");
  }

  /** The page's state: its two messages, the in-flight flag and a pending delayed navigation. */
  class SignupPage {
    var error: string
    var success: string
    var loading: bool
    var pending: Option<string>

    constructor()
      ensures error == "" && success == "" && !loading && pending == None
    {
      error, success, loading, pending := "", "", false, None;
    }

    /**
     * `handleSubmit`: both messages are cleared and the request is sent
     * without a role, so the server applies the default. On success the
     * success message is shown and navigation to the login page is scheduled;
     * on an error status the error is the server's detail or the fallback; a
     * thrown error shows the connection message. `loading` is off afterwards.
     */
    method HandleSubmit(username: string, email: string, password: string, reply: Reply<UserResponse>)
      returns (request: UserCreate)
      modifies this
      ensures request == UserCreateWithoutRole(username, email, password) && request.role == DefaultRole
      ensures !loading
      ensures reply.Success? ==> success == SuccessMessage && error == "" && pending == Some("/login")
      ensures reply.Failure? ==> error == DetailOr(reply.detail, FailedMessage) && success == "" && pending == old(pending)
      ensures reply.NetworkError? ==> error == ConnectMessage && success == "" && pending == old(pending)
    {
      loading, error, success := true, "", "";
      request := UserCreateWithoutRole(username, email, password);
      match reply {
        case Success(_) =>
          success := SuccessMessage;
          pending := Some("/login");
        case Failure(detail) =>
          error := DetailOr(detail, FailedMessage);
        case NetworkError =>
          error := ConnectMessage;
      }
      loading := false;
    }
  }
}
