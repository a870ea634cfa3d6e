/** The simpler route guard of proxy.ts: a signed-in user on a sign-in
    page goes to the dashboard, and without a session only the sign-in
    pages and the root are reachable. Account status plays no part. */
module Proxy {
  import opened Types
  import opened JsText
  import opened Routing
  import Middleware

  /** `PUBLIC_ROUTES`: the same two routes as `AUTH_ROUTES`. */
  const PublicRoutes: seq<string> := SignInRoutes

  function Guard(session: Option<Id>, path: string): Decision
  {
    if session.Some? && StartsWithAny(path, SignInRoutes) then Redirect(Dashboard)
    else if session.None? && !StartsWithAny(path, PublicRoutes) && path != "/" then Redirect(Login)
    else PassThrough
  }

  /** A signed-in user on a sign-in page always goes to the dashboard;
      elsewhere a signed-in user passes. */
  lemma SignedInRequests(uid: Id, path: string)
    ensures Guard(Some(uid), path) == if StartsWithAny(path, SignInRoutes) then Redirect(Dashboard) else PassThrough
  {
  }

  /** Without a session a request is sent to the login page exactly when
      it is neither under /login or /register nor the root. */
  lemma AnonymousRequests(path: string)
    ensures Guard(None, path) ==
      if !StartsWith(path, Login) && !StartsWith(path, Register) && path != "/" then Redirect(Login) else PassThrough
  {
    SignInRoutesUnfold(path);
  }

  /** The e-mail confirmation page is not public here. */
  lemma ConfirmEmailNeedsSession()
    ensures Guard(None, "/confirmar-email") == Redirect(Login)
  {
    var path := "/confirmar-email";
    SignInRoutesUnfold(path);
    DifferAt(path, Login, 1);
    DifferAt(path, Register, 1);
  }

  /** Following a redirect once always leads to a page that passes. */
  lemma RedirectSettles(session: Option<Id>, path: string)
    requires Guard(session, path).Redirect?
    ensures Guard(session, Guard(session, path).path) == PassThrough
  {
    SignInRoutesUnfold(Dashboard);
    SignInRoutesUnfold(Login);
    DifferAt(Dashboard, Login, 1);
    DifferAt(Dashboard, Register, 1);
    assert StartsWith(Login, Login);
  }

  /** Without a session the proxy is at least as strict as the middleware:
      every path the proxy lets through, the middleware lets through. */
  lemma StricterThanMiddleware(users: seq<User>, path: string)
    requires Guard(None, path) == PassThrough
    ensures Middleware.Guard(None, users, path) == PassThrough
  {
    SignInRoutesUnfold(path);
    Middleware.PublicRoutesUnfold(path);
  }
}
