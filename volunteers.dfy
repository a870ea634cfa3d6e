/** Role changes (lib/actions/volunteers.ts): an ADMIN_PARISH or
    SUPER_ADMIN caller sets another user's role to one of the three
    assignable roles. */
module Volunteers {
  import opened Types
  import opened Store
  import opened Auth

  const MsgCannotChangeRoles: string := "Sem permissão para alterar cargos."
  const MsgRoleUpdateFailed: string := "Erro ao atualizar cargo."

  /** The roles the action's parameter type admits: SUPER_ADMIN is not one
      of them. The restriction is a compile-time type only; the action does
      not check the role at run time, so a caller that bypasses the type can
      still send SUPER_ADMIN. */
  type AssignableRole = r: UserRole | r != SuperAdmin witness Volunteer

  /** The callers allowed to change roles. */
  predicate MayChangeRoles(role: UserRole)
  {
    role == AdminParish || role == SuperAdmin
  }

  /** `update users set role = ? where id = ?`. */
  function SetRole(users: seq<User>, userId: Id, role: AssignableRole): (r: seq<User>)
    ensures |r| == |users|
  {
    seq(|users|, i requires 0 <= i < |users| =>
      if users[i].id == userId
      then ApplyUserUpdate(users[i], UserUpdate(None, None, Some(role), None, None, None))
      else users[i])
  }

  /** updateUserRoleAction as a transition on `users`. The caller's row is
      read with `.single()`; no parish of either user is compared. */
  function UpdateUserRole(session: Option<Id>, users: seq<User>, userId: Id, role: AssignableRole,
                          storeFault: bool): (ActionResult<()>, seq<User>)
  {
    match session
    case None => (Fail(MsgUnauthorized), users)
    case Some(uid) =>
      match Profile(users, uid)
      case None => (Fail(MsgCannotChangeRoles), users)
      case Some(caller) =>
        if !MayChangeRoles(caller.role) then (Fail(MsgCannotChangeRoles), users)
        else if storeFault then (Fail(MsgRoleUpdateFailed), users)
        else (Succeed(None), SetRole(users, userId, role))
  }

  method UpdateUserRoleAction(db: Db, session: Option<Id>, userId: Id, role: AssignableRole, storeFault: bool)
    returns (r: ActionResult<()>)
    requires db.Valid()
    modifies db`users
    ensures db.Valid()
    ensures (r, db.users) == UpdateUserRole(session, old(db.users), userId, role, storeFault)
  {
    if session.None? {
      return Fail(MsgUnauthorized);
    }
    var caller := Profile(db.users, session.value);
    if caller.None? || !MayChangeRoles(caller.value.role) {
      return Fail(MsgCannotChangeRoles);
    }
    if storeFault {
      return Fail(MsgRoleUpdateFailed);
    }
    db.users := SetRole(db.users, userId, role);
    r := Succeed(None);
  }

  /** Without a session, or with a caller who is missing or neither
      ADMIN_PARISH nor SUPER_ADMIN, the call fails and no row changes. */
  lemma UpdateUserRoleGate(session: Option<Id>, users: seq<User>, userId: Id, role: AssignableRole,
                           storeFault: bool)
    ensures var (res, users') := UpdateUserRole(session, users, userId, role, storeFault);
      && (session.None? ==> res == Fail(MsgUnauthorized))
      && (session.Some? && (Profile(users, session.value).None? ||
                            !MayChangeRoles(Profile(users, session.value).value.role)) ==>
            res == Fail(MsgCannotChangeRoles))
      && (!res.success ==> users' == users)
      && (res.success ==> GetAuthenticatedUser(session, users).Some? &&
                          MayChangeRoles(GetAuthenticatedUser(session, users).value.role))
  {
  }

  /** On success the rows of the target user get the new role and nothing
      else changes: every other row is untouched, and the target's other
      columns keep their values. */
  lemma UpdateUserRoleEffect(session: Option<Id>, users: seq<User>, userId: Id, role: AssignableRole,
                             storeFault: bool)
    ensures var (res, users') := UpdateUserRole(session, users, userId, role, storeFault);
      res.success ==>
        && |users'| == |users|
        && forall i :: 0 <= i < |users| ==>
             users'[i] == if users[i].id == userId then users[i].(role := role) else users[i]
  {
  }

  /** For a role the parameter type admits, the action never makes anyone
      SUPER_ADMIN: every SUPER_ADMIN row after the call was already there
      before it, at the same position. Only the parameter type excludes
      SUPER_ADMIN; no run-time check in the action does. */
  lemma NoNewSuperAdmin(session: Option<Id>, users: seq<User>, userId: Id, role: AssignableRole,
                        storeFault: bool)
    ensures var (_, users') := UpdateUserRole(session, users, userId, role, storeFault);
      && |users'| == |users|
      && forall i :: 0 <= i < |users'| && users'[i].role == SuperAdmin ==> users'[i] == users[i]
  {
  }
}
