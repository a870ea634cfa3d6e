/** What a route guard answers for one request: let it through, or
    redirect it to another path of the same site. */
module Routing {
  import opened JsText

  datatype Decision = PassThrough | Redirect(path: string)

  const Login: string := "/login"
  const Register: string := "/register"
  const Dashboard: string := "/dashboard"

  /** The sign-in pages, `AUTH_ROUTES` of both guards. */
  const SignInRoutes: seq<string> := [Login, Register]

  /** `routes.some(r => pathname.startsWith(r))`, tried in order. */
  predicate StartsWithAny(path: string, routes: seq<string>)
  {
    routes != [] && (StartsWith(path, routes[0]) || StartsWithAny(path, routes[1..]))
  }

  /** `some` holds exactly when one of the routes is a prefix of the path. */
  lemma {:induction false} StartsWithAnyExists(path: string, routes: seq<string>)
    ensures StartsWithAny(path, routes) <==> exists i :: 0 <= i < |routes| && StartsWith(path, routes[i])
  {
    if routes != [] {
      StartsWithAnyExists(path, routes[1..]);
      if exists i :: 0 <= i < |routes| && StartsWith(path, routes[i]) {
        var i :| 0 <= i < |routes| && StartsWith(path, routes[i]);
        if i > 0 {
          assert routes[1..][i - 1] == routes[i];
        }
      }
    }
  }

  /** A route that differs from the path at some position within both is not a prefix of it. */
  lemma DifferAt(path: string, route: string, k: nat)
    requires k < |route| && k < |path| && path[k] != route[k]
    ensures !StartsWith(path, route)
  {
    if |route| <= |path| {
      assert path[..|route|][k] == path[k];
    }
  }

  /** `AUTH_ROUTES.some(...)` spelt out. */
  lemma SignInRoutesUnfold(path: string)
    ensures StartsWithAny(path, SignInRoutes) <==> StartsWith(path, Login) || StartsWith(path, Register)
  {
    var r := SignInRoutes;
    assert StartsWithAny(path, r) <==> StartsWith(path, Login) || StartsWithAny(path, r[1..]);
    assert StartsWithAny(path, r[1..]) <==> StartsWith(path, Register) || StartsWithAny(path, r[2..]) by {
      assert r[1..][0] == r[1] == Register && r[1..][1..] == r[2..];
    }
    assert r[2..] == [];
  }
}
