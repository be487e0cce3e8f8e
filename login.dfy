/**
 * The login page's redirect: the `redirect` query parameter is kept only
 * when it is a path on this site, and a signed-in user is sent there.
 */
module Login {
  import opened Types

  /** `s` is a site-relative path: it starts with `/` but not with `//`. */
  predicate SitePath(s: string) {
    "/" <= s && !("//" <= s)
  }

  /**
   * `redirectPath`: the raw parameter when it is present, non-empty and a
   * site-relative path; `/` otherwise.
   */
  function RedirectPath(raw: Option<string>): (path: string)
    ensures SitePath(path)
    ensures raw.Some? && SitePath(raw.value) ==> path == raw.value
    ensures raw.None? || !SitePath(raw.value) ==> path == "/"
  {
    if raw.Some? && raw.value != "" && "/" <= raw.value && !("//" <= raw.value) then raw.value else "/"
  }

  /** Sanitising a path that was already sanitised changes nothing. */
  lemma RedirectPathIdempotent(raw: Option<string>)
    ensures RedirectPath(Some(RedirectPath(raw))) == RedirectPath(raw)
  {
  }

  /**
   * Where the page navigates once `user` is known: nowhere without a user;
   * otherwise to the sanitised path, with the login page itself replaced
   * by `/`.
   */
  function NavigationTarget(user: bool, raw: Option<string>): (target: Option<string>)
    ensures target.Some? <==> user
    ensures target.Some? ==> SitePath(target.value) && target.value != "/login"
    ensures user && RedirectPath(raw) != "/login" ==> target == Some(RedirectPath(raw))
    ensures user && raw == Some("/login") ==> target == Some("/")
  {
    if !user then None
    else
      var path := RedirectPath(raw);
      Some(if path == "/login" then "/" else path)
  }
}
