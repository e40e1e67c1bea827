/**
 * The browser's `localStorage` as the client uses it: a string map holding
 * the access token and the role after login.
 */
module Session {
  import opened Wrappers

  const TokenKey := "token"
  const RoleKey := "role"

  /** A key-value store of strings. */
  class Store {
    var items: map<string, string>

    constructor()
      ensures items == map[]
    {
      items := map[];
    }

    /** `getItem`: the stored value, or `null` when the key is absent. */
    function GetItem(key: string): (r: Option<string>)
      reads this
      ensures r.Some? <==> key in items
      ensures r.Some? ==> r.value == items[key]
    {
      if key in items then Some(items[key]) else None
    }

    /** `setItem`: stores `value` under `key`, replacing any earlier value. */
    method SetItem(key: string, value: string)
      modifies this
      ensures items == old(items)[key := value]
    {
      items := items[key := value];
    }

    /** `removeItem`: drops `key`; other keys keep their values. */
    method RemoveItem(key: string)
      modifies this
      ensures items == old(items) - {key}
    {
      items := items - {key};
    }

    /**
     * Logging out (both dashboards' `handleLogout`) forgets the token and the
     * role and nothing else, then navigates to the login page.
     */
    method Logout() returns (next: string)
      modifies this
      ensures items == old(items) - {TokenKey, RoleKey}
      ensures next == "/login"
      ensures GetItem(TokenKey) == None && GetItem(RoleKey) == None
    {
      RemoveItem(TokenKey);
      RemoveItem(RoleKey);
      next := "/login";
    }
  }
}
