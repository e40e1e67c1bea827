/**
 * The login page (`pages/Login.jsx`): the check that enables its button, and
 * the submit handler that stores the token and role of a successful login in
 * the session store.
 */
module Login {
  import opened Wrappers
  import opened Text
  import opened Client
  import opened Session
  import Auth
  import App

  const FailedMessage := "Invalid username or password"
  const ConnectMessage := "Unable to connect to server. Please try again."

  /** Both inputs are non-empty once surrounding whitespace is stripped. */
  predicate FormValid(username: string, password: string) {
    Trim(username) != "" && Trim(password) != ""
  }

  /** The greeting shown after a successful login, with the name as typed. */
  function Welcome(username: string): (m: string)
    ensures |m| == |username| + 15
    ensures m[..14] == "Welcome back, " && m[14..|m| - 1] == username && m[|m| - 1] == '!'
  {
    "Welcome back, " + username + "!"
  }

  /** The login request is only possible with something other than whitespace in both inputs. */
  lemma WhitespaceOnlyDisables(username: string, password: string)
    requires forall i :: 0 <= i < |password| ==> IsSpace(password[i])
    ensures !FormValid(username, password)
  {
    TrimEmptyIff(password);
  }

  /** The page's state: its two messages, the in-flight flag and a pending delayed navigation. */
  class LoginPage {
    var error: string
    var success: string
    var loading: bool
    var pending: Option<string>

    constructor()
      ensures error == "" && success == "" && !loading && pending == None
    {
      error, success, loading, pending := "", "", false, None;
    }

    /**
     * `handleLogin`: both messages are cleared. On success exactly the token
     * and the role of the reply are written to the store, the greeting is shown
     * and navigation to the dashboard is scheduled. Otherwise the store is not
     * touched: an error status shows the server's detail or the fallback, a
     * thrown error the connection message. `loading` is off afterwards.
     */
    method HandleLogin(store: Store, username: string, reply: Reply<Auth.Token>)
      modifies this, store
      ensures !loading
      ensures reply.Success? ==>
        && store.items == old(store.items)[TokenKey := reply.body.accessToken][RoleKey := reply.body.role]
        && success == Welcome(username) && error == "" && pending == Some("/dashboard")
      ensures !reply.Success? ==> store.items == old(store.items) && success == "" && pending == old(pending)
      ensures reply.Failure? ==> error == DetailOr(reply.detail, FailedMessage)
      ensures reply.NetworkError? ==> error == ConnectMessage
    {
      loading, error, success := true, "", "";
      match reply {
        case Success(data) =>
          store.SetItem(TokenKey, data.accessToken);
          store.SetItem(RoleKey, data.role);
          success := Welcome(username);
          pending := Some("/dashboard");
        case Failure(detail) =>
          error := DetailOr(detail, FailedMessage);
        case NetworkError =>
          error := ConnectMessage;
      }
      loading := false;
    }
  }

  /**
   * After a successful login the stored token and role decide the routes: a
   * non-empty token opens the dashboard, and the admin page opens exactly when
   * the server returned the role "admin".
   */
  lemma LoggedInRoutes(items: map<string, string>, t: Auth.Token)
    requires t.accessToken != ""
    ensures var stored := items[TokenKey := t.accessToken][RoleKey := t.role];
      && App.Landing("/dashboard", Some(stored[TokenKey]), Some(stored[RoleKey]), 2) == Some(App.CustomerDashboardScreen)
      && (App.Landing("/admin", Some(stored[TokenKey]), Some(stored[RoleKey]), 2) == Some(App.AdminDashboardScreen)
          <==> t.role == App.AdminRole)
  {
    var stored := items[TokenKey := t.accessToken][RoleKey := t.role];
    assert stored[TokenKey] == t.accessToken && stored[RoleKey] == t.role;
    App.RoutePathsNormal();
    App.DashboardNeedsOnlyToken("/dashboard", Some(t.accessToken), Some(t.role));
    App.AdminPageIff("/admin", Some(t.accessToken), Some(t.role));
  }

  /** After logging out every guarded route ends on the login page. */
  lemma LoggedOutRoutes(path: string)
    requires path in ["/dashboard", "/admin", "/"]
    ensures App.Landing(path, None, None, 2) == Some(App.LoginScreen)
  {
    App.RoutePathsNormal();
  }
}
