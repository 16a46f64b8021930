/**
 * The session utility: `handleLogout` removes the five authentication keys
 * from storage, and `isAuthenticated` asks whether a non-empty `token` is
 * stored.
 */
module Auth {
  import opened Storage

  /** The keys `handleLogout` removes. */
  const AuthKeys: set<string> := {"userToken", "token", "userEmail", "userPassword", "userName"}

  /** `isAuthenticated()`: `!!localStorage.getItem('token')`. */
  function IsAuthenticated(m: Store): (b: bool)
    ensures b <==> "token" in m && |m["token"]| > 0
  {
    match GetItem(m, "token")
    case None => false
    case Some(t) => t != ""
  }

  /** Storage after `handleLogout`. */
  function LoggedOut(m: Store): (r: Store)
    ensures "userToken" !in r && "token" !in r && "userEmail" !in r
    ensures "userPassword" !in r && "userName" !in r
    ensures forall k :: k !in AuthKeys ==> (k in r <==> k in m)
    ensures forall k :: k in r ==> k in m && r[k] == m[k]
  {
    m - AuthKeys
  }

  /** `handleLogout()`: five `removeItem` calls, one per authentication key. */
  method HandleLogout(ls: LocalStorage)
    modifies ls
    ensures ls.items == LoggedOut(old(ls.items))
  {
    ls.RemoveItem("userToken");
    ls.RemoveItem("token");
    ls.RemoveItem("userEmail");
    ls.RemoveItem("userPassword");
    ls.RemoveItem("userName");
    assert ls.items == old(ls.items) - AuthKeys;
  }

  /** After logging out nobody is authenticated. */
  lemma LogoutDeauthenticates(m: Store)
    ensures !IsAuthenticated(LoggedOut(m))
  {
  }

  /** Logging out twice is logging out once. */
  lemma LogoutIdempotent(m: Store)
    ensures LoggedOut(LoggedOut(m)) == LoggedOut(m)
  {
  }
}
