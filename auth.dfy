/** The authorization helpers of lib/auth.ts, as functions over the
    `users` and `ministry_coordinators` tables. The session (the identity
    provider's current user) is an explicit parameter. */
module Auth {
  import opened Types
  import opened Store

  const MsgUnauthorized: string := "Não autorizado."
  const MsgNoParish: string := "Usuário sem paróquia associada."

  /** getAuthenticatedUser: the session's id plus the parish and role read from
      the profile row; nothing without a session or without exactly one row. */
  function GetAuthenticatedUser(session: Option<Id>, users: seq<User>): (ctx: Option<AuthContext>)
    ensures session.None? ==> ctx.None?
    ensures ctx.Some? <==> session.Some? && |UsersWithId(users, session.value)| == 1
    ensures ctx.Some? ==> ctx.value.userId == session.value
    ensures ctx.Some? ==>
      var row := UsersWithId(users, session.value)[0];
      row in users && row.id == session.value &&
      ctx.value.parishId == row.parishId && ctx.value.role == row.role
  {
    match session
    case None => None
    case Some(uid) =>
      match Single(UsersWithId(users, uid))
      case None => None
      case Some(row) => Some(AuthContext(uid, row.parishId, row.role))
  }

  /** `from('users').select(...).eq('id', uid).single()`: the caller's
      profile row, read directly by the actions that do not go through
      getAuthenticatedUser. */
  function Profile(users: seq<User>, uid: Id): (row: Option<User>)
    ensures row.Some? ==> row.value in users && row.value.id == uid
    ensures row.Some? <==> GetAuthenticatedUser(Some(uid), users).Some?
    ensures row.Some? ==> GetAuthenticatedUser(Some(uid), users).value.parishId == row.value.parishId
    ensures row.Some? ==> GetAuthenticatedUser(Some(uid), users).value.role == row.value.role
  {
    Single(UsersWithId(users, uid))
  }

  /** `!userData?.parish_id`: no session, no single profile row, or no parish on it. */
  function ProfileParish(session: Option<Id>, users: seq<User>): (p: Option<Id>)
    ensures p.Some? <==> GetAuthenticatedUser(session, users).Some? && GetAuthenticatedUser(session, users).value.parishId.Some?
    ensures p.Some? ==> p == GetAuthenticatedUser(session, users).value.parishId
  {
    match session
    case None => None
    case Some(uid) => match Profile(users, uid) case None => None case Some(row) => row.parishId
  }

  /** A filter whose predicate holds at exactly one position yields that row alone. */
  lemma {:induction false} FilterSingleton<T(!new)>(s: seq<T>, p: T -> bool, i: nat)
    requires i < |s| && p(s[i])
    requires forall j :: 0 <= j < |s| && j != i ==> !p(s[j])
    ensures Filter(s, p) == [s[i]]
    decreases |s|
  {
    var pre := s[..|s| - 1];
    if i < |s| - 1 {
      FilterSingleton(pre, p, i);
    } else {
      forall x | x in pre
        ensures !p(x)
      {
        var k :| 0 <= k < |pre| && pre[k] == x;
        assert s[k] == x;
      }
      FilterNone(pre, p);
    }
  }

  /** Without a profile row there is no context, whatever the session. */
  lemma NoProfileNoContext(session: Option<Id>, users: seq<User>)
    requires session.Some? ==> forall u :: u in users ==> u.id != session.value
    ensures GetAuthenticatedUser(session, users).None?
  {
    if session.Some? && UsersWithId(users, session.value) != [] {
      assert UsersWithId(users, session.value)[0] in users;
    }
  }

  /** With one profile row, the context carries that row's parish and role. */
  lemma ProfileGivesContext(uid: Id, users: seq<User>, i: nat)
    requires i < |users| && users[i].id == uid
    requires forall j :: 0 <= j < |users| && j != i ==> users[j].id != uid
    ensures GetAuthenticatedUser(Some(uid), users) == Some(AuthContext(uid, users[i].parishId, users[i].role))
  {
    FilterSingleton(users, (u: User) => u.id == uid, i);
  }

  /** canManageMinistryScales: SUPER_ADMIN always; anyone else only with a
      coordinator row for (user, ministry), read with `.maybeSingle()`. */
  function CanManageMinistryScales(session: Option<Id>, users: seq<User>,
                                   coords: seq<MinistryCoordinator>, ministryId: Id): (b: bool)
    ensures GetAuthenticatedUser(session, users).None? ==> !b
    ensures (GetAuthenticatedUser(session, users).Some? &&
             GetAuthenticatedUser(session, users).value.role == SuperAdmin) ==> b
  {
    match GetAuthenticatedUser(session, users)
    case None => false
    case Some(ctx) =>
      ctx.role == SuperAdmin || Single(CoordinatorRows(coords, ctx.userId, ministryId)).Some?
  }

  /** The (user, ministry) pairs of the coordinator table are unique. */
  predicate UniqueGrants(coords: seq<MinistryCoordinator>)
  {
    forall i, j :: 0 <= i < j < |coords| ==>
      coords[i].userId != coords[j].userId || coords[i].ministryId != coords[j].ministryId
  }

  /** For every role but SUPER_ADMIN, and with unique grants: managing a
      ministry's schedule is exactly having a coordinator row for it. In
      particular ADMIN_PARISH alone is not enough. */
  lemma ManageIffCoordinator(session: Option<Id>, users: seq<User>,
                             coords: seq<MinistryCoordinator>, ministryId: Id)
    requires UniqueGrants(coords)
    requires GetAuthenticatedUser(session, users).Some?
    requires GetAuthenticatedUser(session, users).value.role != SuperAdmin
    ensures CanManageMinistryScales(session, users, coords, ministryId) <==>
      exists c :: c in coords && c.userId == session.value && c.ministryId == ministryId
  {
    var uid := session.value;
    var rows := CoordinatorRows(coords, uid, ministryId);
    if c :| c in coords && c.userId == uid && c.ministryId == ministryId {
      var i :| 0 <= i < |coords| && coords[i] == c;
      forall j | 0 <= j < |coords| && j != i
        ensures !(coords[j].userId == uid && coords[j].ministryId == ministryId)
      {
        if j < i { assert coords[j].userId != coords[i].userId || coords[j].ministryId != coords[i].ministryId; }
        else { assert coords[i].userId != coords[j].userId || coords[i].ministryId != coords[j].ministryId; }
      }
      FilterSingleton(coords, (x: MinistryCoordinator) => x.userId == uid && x.ministryId == ministryId, i);
    }
  }

  /** Two or more coordinator rows for the same pair make `.maybeSingle()`
      fail, so the answer is then false for anyone but SUPER_ADMIN. */
  lemma DuplicateGrantDenies(session: Option<Id>, users: seq<User>,
                             coords: seq<MinistryCoordinator>, ministryId: Id)
    requires GetAuthenticatedUser(session, users).Some?
    requires GetAuthenticatedUser(session, users).value.role != SuperAdmin
    requires |CoordinatorRows(coords, session.value, ministryId)| >= 2
    ensures !CanManageMinistryScales(session, users, coords, ministryId)
  {
  }
}
