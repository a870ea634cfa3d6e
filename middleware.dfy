/** The route guard of middleware.ts: sign-in pages send a signed-in user
    on by account status, protected pages need a session, and pending or
    rejected accounts are held on their own pages. */
module Middleware {
  import opened Types
  import opened Store
  import opened JsText
  import opened Routing

  const AwaitingApproval: string := "/aguardando-aprovacao"
  const AccountRejected: string := "/conta-rejeitada"

  const PublicRoutes: seq<string> :=
    [Login, Register, "/confirmar-email", "/recuperar-senha", "/nova-senha", AwaitingApproval, AccountRejected]
  const AuthRoutes: seq<string> := SignInRoutes

  /** `users.select('status').eq('id', uid).maybeSingle()?.status`: None
      when there is no row, more than one row, or a null status. */
  function StatusOf(users: seq<User>, uid: Id): Option<UserStatus>
  {
    match Single(UsersWithId(users, uid))
    case Some(u) => u.status
    case None => None
  }

  /** A path that needs a session: no public prefix and not the root. */
  predicate IsProtected(path: string)
  {
    !StartsWithAny(path, PublicRoutes) && path != "/"
  }

  function Guard(session: Option<Id>, users: seq<User>, path: string): Decision
  {
    if session.Some? && StartsWithAny(path, AuthRoutes) then
      var status := StatusOf(users, session.value);
      if status == Some(Pending) then Redirect(AwaitingApproval)
      else if status == Some(Rejected) then Redirect(AccountRejected)
      else Redirect(Dashboard)
    else if session.None? && IsProtected(path) then Redirect(Login)
    else if session.Some? && IsProtected(path) then
      var status := StatusOf(users, session.value);
      if status == Some(Pending) && !StartsWith(path, AwaitingApproval) then Redirect(AwaitingApproval)
      else if status == Some(Rejected) && !StartsWith(path, AccountRejected) then Redirect(AccountRejected)
      else PassThrough
    else PassThrough
  }

  /** `PUBLIC_ROUTES.some(...)` spelt out route by route. */
  lemma PublicRoutesUnfold(path: string)
    ensures StartsWithAny(path, PublicRoutes) <==>
      StartsWith(path, Login) || StartsWith(path, Register) || StartsWith(path, "/confirmar-email") ||
      StartsWith(path, "/recuperar-senha") || StartsWith(path, "/nova-senha") ||
      StartsWith(path, AwaitingApproval) || StartsWith(path, AccountRejected)
  {
    var r := PublicRoutes;
    assert StartsWithAny(path, r[0..]) <==> StartsWith(path, Login) || StartsWithAny(path, r[1..]) by {
      assert r[0..][0] == r[0] == Login && r[0..][1..] == r[1..];
    }
    assert StartsWithAny(path, r[1..]) <==> StartsWith(path, Register) || StartsWithAny(path, r[2..]) by {
      assert r[1..][0] == r[1] == Register && r[1..][1..] == r[2..];
    }
    assert StartsWithAny(path, r[2..]) <==> StartsWith(path, "/confirmar-email") || StartsWithAny(path, r[3..]) by {
      assert r[2..][0] == r[2] == "/confirmar-email" && r[2..][1..] == r[3..];
    }
    assert StartsWithAny(path, r[3..]) <==> StartsWith(path, "/recuperar-senha") || StartsWithAny(path, r[4..]) by {
      assert r[3..][0] == r[3] == "/recuperar-senha" && r[3..][1..] == r[4..];
    }
    assert StartsWithAny(path, r[4..]) <==> StartsWith(path, "/nova-senha") || StartsWithAny(path, r[5..]) by {
      assert r[4..][0] == r[4] == "/nova-senha" && r[4..][1..] == r[5..];
    }
    assert StartsWithAny(path, r[5..]) <==> StartsWith(path, AwaitingApproval) || StartsWithAny(path, r[6..]) by {
      assert r[5..][0] == r[5] == AwaitingApproval && r[5..][1..] == r[6..];
    }
    assert StartsWithAny(path, r[6..]) <==> StartsWith(path, AccountRejected) || StartsWithAny(path, r[7..]) by {
      assert r[6..][0] == r[6] == AccountRejected && r[6..][1..] == r[7..];
    }
    assert r[0..] == r && r[7..] == [];
  }

  /** A signed-in user on a sign-in page is sent on by account status. */
  lemma SignedInLeavesAuthPages(uid: Id, users: seq<User>, path: string)
    requires StartsWithAny(path, AuthRoutes)
    ensures var status := StatusOf(users, uid);
      Guard(Some(uid), users, path) ==
        if status == Some(Pending) then Redirect(AwaitingApproval)
        else if status == Some(Rejected) then Redirect(AccountRejected)
        else Redirect(Dashboard)
  {
  }

  /** Without a session: protected paths go to the login page, the root
      and the public pages pass. */
  lemma AnonymousRequests(users: seq<User>, path: string)
    ensures Guard(None, users, path) == if IsProtected(path) then Redirect(Login) else PassThrough
  {
  }

  /** A signed-in user on a protected path: pending accounts go to the
      waiting page, rejected ones to the rejection page, and approved
      accounts or accounts without a status pass. */
  lemma SignedInOnProtectedPaths(uid: Id, users: seq<User>, path: string)
    requires IsProtected(path)
    ensures var status := StatusOf(users, uid);
      && (status == Some(Pending) ==> Guard(Some(uid), users, path) == Redirect(AwaitingApproval))
      && (status == Some(Rejected) ==> Guard(Some(uid), users, path) == Redirect(AccountRejected))
      && (status == Some(Approved) || status.None? ==> Guard(Some(uid), users, path) == PassThrough)
  {
    PublicRoutesUnfold(path);
    SignInRoutesUnfold(path);
  }

  /** Each redirect target, requested with the same session and users,
      passes: following one redirect never leads to another, so there is
      no redirect loop. */
  lemma RedirectSettles(session: Option<Id>, users: seq<User>, path: string)
    requires Guard(session, users, path).Redirect?
    ensures Guard(session, users, Guard(session, users, path).path) == PassThrough
  {
    var target := Guard(session, users, path).path;
    PublicRoutesUnfold(target);
    SignInRoutesUnfold(target);
    if target == Dashboard {
      // "/dashboard" shares only its first character with each public route
      // no longer than itself
      DifferAt(Dashboard, Login, 1);
      DifferAt(Dashboard, Register, 1);
      assert !StartsWith(Dashboard, "/nova-senha");
    } else if target != Login {
      // the waiting and rejection pages are public and are no sign-in pages
      DifferAt(target, Login, 1);
      DifferAt(target, Register, 1);
      assert StartsWith(target, target[..|target|]);
    }
  }
}
