/**
 * The client's route table and its guard (`App.jsx`). A guarded route reads
 * the token and the role from the session store: without a token it sends the
 * visitor to the login page; with a token but another role than the route asks
 * for, to the customer dashboard.
 */
module App {
  import opened Wrappers
  import opened Client
  import opened Text

  /** The pages a route can render. */
  datatype Screen = LoginScreen | SignupScreen | CustomerDashboardScreen | AdminDashboardScreen

  /** What the router does for a path: render a page, redirect (replacing the history entry or not), or match nothing. */
  datatype View = Show(screen: Screen) | Redirect(to: string, replace: bool) | NoMatch

  /** The role the admin route requires. */
  const AdminRole := "admin"

  /**
   * `PrivateRoute`: the token check comes first and ignores the required role;
   * a required role is checked only when it is given (non-empty).
   */
  function PrivateRoute(token: Option<string>, userRole: Option<string>, role: Option<string>, child: Screen): (v: View)
    ensures !Truthy(token) ==> v == Redirect("/login", true)
    ensures Truthy(token) && Truthy(role) && userRole != role ==> v == Redirect("/dashboard", true)
    ensures v == Show(child) <==> Truthy(token) && (!Truthy(role) || userRole == role)
  {
    if !Truthy(token) then Redirect("/login", true)
    else if Truthy(role) && userRole != role then Redirect("/dashboard", true)
    else Show(child)
  }

  /** `path` without its trailing slashes. */
  function DropTrailingSlashes(path: string): (r: string)
    ensures |r| <= |path|
    ensures r == [] || r[|r| - 1] != '/'
  {
    if path != [] && path[|path| - 1] == '/' then DropTrailingSlashes(path[..|path| - 1]) else path
  }

  /** What is dropped is exactly the run of slashes at the end. */
  lemma {:induction false} DropTrailingSlashesSlice(path: string)
    ensures DropTrailingSlashes(path) == path[..|DropTrailingSlashes(path)|]
    ensures forall i :: |DropTrailingSlashes(path)| <= i < |path| ==> path[i] == '/'
    decreases |path|
  {
    if path != [] && path[|path| - 1] == '/' {
      var q := path[..|path| - 1];
      DropTrailingSlashesSlice(q);
      assert q[..|DropTrailingSlashes(q)|] == path[..|DropTrailingSlashes(q)|];
    }
  }

  /**
   * A location as the router compares it with the route paths: ASCII letters
   * in lower case and trailing slashes dropped. By default the router matches
   * without regard to case and ignores trailing slashes, so "/Admin" and
   * "/admin/" both select the route "/admin", and "/" becomes empty.
   */
  function NormalPath(path: string): string {
    DropTrailingSlashes(Lower(path))
  }

  /**
   * The route table on normalized paths: two public pages, the two guarded
   * dashboards, and `/` (empty once its slash is dropped) sending to the login page.
   */
  function RouteOf(p: string, token: Option<string>, userRole: Option<string>): View {
    if p == "/login" then Show(LoginScreen)
    else if p == "/signup" then Show(SignupScreen)
    else if p == "/dashboard" then PrivateRoute(token, userRole, None, CustomerDashboardScreen)
    else if p == "/admin" then PrivateRoute(token, userRole, Some(AdminRole), AdminDashboardScreen)
    else if p == "" then Redirect("/login", false)
    else NoMatch
  }

  /** What the router does for a location: the route its normalized path selects. */
  function Route(path: string, token: Option<string>, userRole: Option<string>): View {
    RouteOf(NormalPath(path), token, userRole)
  }

  /** A lower-case path without a trailing slash is its own normal form. */
  lemma NormalOfNormal(p: string)
    requires forall i :: 0 <= i < |p| ==> !('A' <= p[i] <= 'Z')
    requires p == [] || p[|p| - 1] != '/'
    ensures NormalPath(p) == p
  {
    LowerNoCapitals(p);
  }

  /** Each route path, and so each redirect target, selects its own route. */
  lemma RoutePathsNormal()
    ensures NormalPath("/login") == "/login" && NormalPath("/signup") == "/signup"
    ensures NormalPath("/dashboard") == "/dashboard" && NormalPath("/admin") == "/admin"
    ensures NormalPath("/") == ""
  {
    NormalOfNormal("/login");
    NormalOfNormal("/signup");
    NormalOfNormal("/dashboard");
    NormalOfNormal("/admin");
    LowerNoCapitals("/");
  }

  /** Upper-case letters and a trailing slash still select the admin route; a longer name does not. */
  lemma AdminPathSpellings()
    ensures NormalPath("/Admin") == "/admin" && NormalPath("/ADMIN") == "/admin"
    ensures NormalPath("/admin/") == "/admin" && NormalPath("/admins") != "/admin"
  {
    assert Lower("/Admin") == "/admin";
    assert Lower("/ADMIN") == "/admin";
    LowerNoCapitals("/admin/");
    assert "/admin/"[..6] == "/admin";
    LowerNoCapitals("/admins");
  }

  /** The guard of the admin route applies to every spelling that selects it. */
  lemma AdminSpellingGuarded(token: Option<string>, userRole: Option<string>)
    ensures Landing("/ADMIN", token, userRole, 2) == Some(AdminDashboardScreen) <==> Truthy(token) && userRole == Some(AdminRole)
  {
    AdminPathSpellings();
    AdminPageIff("/ADMIN", token, userRole);
  }

  /** The page finally shown after following at most `hops` redirects, if one is reached. */
  function Landing(path: string, token: Option<string>, userRole: Option<string>, hops: nat): (r: Option<Screen>)
    ensures Route(path, token, userRole).Show? ==> r == Some(Route(path, token, userRole).screen)
    ensures Route(path, token, userRole).NoMatch? ==> r == None
    decreases hops
  {
    match Route(path, token, userRole)
    case Show(s) => Some(s)
    case NoMatch => None
    case Redirect(to, _) => if hops == 0 then None else Landing(to, token, userRole, hops - 1)
  }

  /** A redirect costs one hop and lands where its target lands; with no hop left nothing is reached. */
  lemma LandingFollowsRedirect(path: string, token: Option<string>, userRole: Option<string>, hops: nat)
    requires Route(path, token, userRole).Redirect?
    ensures hops == 0 ==> Landing(path, token, userRole, hops) == None
    ensures hops > 0 ==> Landing(path, token, userRole, hops) == Landing(Route(path, token, userRole).to, token, userRole, hops - 1)
  {
  }

  /** Redirects go to the login page or the customer dashboard, never to the admin page. */
  lemma RedirectTarget(path: string, token: Option<string>, userRole: Option<string>)
    requires Route(path, token, userRole).Redirect?
    ensures Route(path, token, userRole).to in ["/login", "/dashboard"]
    ensures NormalPath(Route(path, token, userRole).to) != "/admin"
  {
    RoutePathsNormal();
  }

  /** The path selects one of the five routes. */
  predicate Known(path: string) {
    NormalPath(path) in ["/login", "/signup", "/dashboard", "/admin", ""]
  }

  /** Every known path shows a page after at most two redirects, whatever is in the session store. */
  lemma KnownPathsSettle(path: string, token: Option<string>, userRole: Option<string>)
    requires Known(path)
    ensures Landing(path, token, userRole, 2).Some?
    ensures !Truthy(token) && NormalPath(path) != "/signup" ==> Landing(path, token, userRole, 2) == Some(LoginScreen)
  {
    RoutePathsNormal();
    var p := NormalPath(path);
    if p == "/admin" {
      AdminPageIff(path, token, userRole);
    } else if p == "/dashboard" {
      DashboardNeedsOnlyToken(path, token, userRole);
    } else if p == "" {
      assert Route(path, token, userRole) == Redirect("/login", false);
      assert Landing("/login", token, userRole, 1) == Some(LoginScreen);
    }
  }

  /** The admin dashboard is shown for `/admin` exactly when a token is stored and the stored role is "admin". */
  lemma AdminPageIff(path: string, token: Option<string>, userRole: Option<string>)
    requires NormalPath(path) == "/admin"
    ensures Landing(path, token, userRole, 2) == Some(AdminDashboardScreen) <==> Truthy(token) && userRole == Some(AdminRole)
    ensures Truthy(token) && userRole != Some(AdminRole) ==> Landing(path, token, userRole, 2) == Some(CustomerDashboardScreen)
  {
    RoutePathsNormal();
  }

  /** Only a path selecting `/admin` leads to the admin dashboard, however many redirects are followed. */
  lemma {:induction false} AdminOnlyViaAdminPath(path: string, token: Option<string>, userRole: Option<string>, hops: nat)
    requires Landing(path, token, userRole, hops) == Some(AdminDashboardScreen)
    ensures NormalPath(path) == "/admin" && Truthy(token) && userRole == Some(AdminRole)
    decreases hops
  {
    match Route(path, token, userRole)
    case Show(s) =>
      AdminRouteOnly(path, token, userRole);
    case NoMatch =>
    case Redirect(to, _) =>
      RedirectTarget(path, token, userRole);
      LandingFollowsRedirect(path, token, userRole, hops);
      AdminOnlyViaAdminPath(to, token, userRole, hops - 1);
  }

  /** The only entry of the route table that renders the admin dashboard is `/admin`, behind its guard. */
  lemma AdminRouteOnly(path: string, token: Option<string>, userRole: Option<string>)
    requires Route(path, token, userRole) == Show(AdminDashboardScreen)
    ensures NormalPath(path) == "/admin" && Truthy(token) && userRole == Some(AdminRole)
  {
  }

  /** Any stored token opens the customer dashboard, whatever the role. */
  lemma DashboardNeedsOnlyToken(path: string, token: Option<string>, userRole: Option<string>)
    requires NormalPath(path) == "/dashboard"
    ensures Landing(path, token, userRole, 2) == Some(CustomerDashboardScreen) <==> Truthy(token)
  {
    RoutePathsNormal();
  }
}
