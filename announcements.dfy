/** Ministry announcements (lib/actions/announcements.ts): only a
    coordinator of the ministry, or SUPER_ADMIN, creates or deletes them. */
module Announcements {
  import opened Types
  import opened Store
  import opened Auth
  import opened JsText

  const MsgCannotCreate: string := "Apenas o coordenador do ministério ou SUPER_ADMIN podem criar recados."
  const MsgTitleRequired: string := "O título é obrigatório."
  const MsgContentRequired: string := "O conteúdo é obrigatório."
  const MsgCreateFailed: string := "Erro ao criar recado."
  const MsgNotFound: string := "Recado não encontrado."
  const MsgCannotDelete: string := "Apenas o coordenador do ministério ou SUPER_ADMIN podem excluir recados."
  const MsgDeleteFailed: string := "Erro ao excluir recado."

  /** createAnnouncementAction as a transition on `announcements`; a
      missing form field is "". The permission check comes before the
      field checks. */
  function CreateAnnouncement(session: Option<Id>, users: seq<User>, coords: seq<MinistryCoordinator>,
                              anns: seq<Announcement>, ministryId: Id, title: string, content: string,
                              storeFault: bool, newId: Id): (ActionResult<Announcement>, seq<Announcement>)
  {
    match GetAuthenticatedUser(session, users)
    case None => (Fail(MsgUnauthorized), anns)
    case Some(ctx) =>
      if !CanManageMinistryScales(session, users, coords, ministryId) then (Fail(MsgCannotCreate), anns)
      else if IsBlank(title) then (Fail(MsgTitleRequired), anns)
      else if IsBlank(content) then (Fail(MsgContentRequired), anns)
      else if storeFault then (Fail(MsgCreateFailed), anns)
      else
        var a := Announcement(newId, ministryId, ctx.userId, Trim(title), Trim(content));
        (Succeed(Some(a)), anns + [a])
  }

  method CreateAnnouncementAction(db: Db, session: Option<Id>, ministryId: Id, title: string, content: string,
                                  storeFault: bool) returns (r: ActionResult<Announcement>)
    requires db.Valid()
    modifies db`announcements, db`nextId
    ensures db.Valid()
    ensures (r, db.announcements) == CreateAnnouncement(session, old(db.users), old(db.coordinators),
                                                        old(db.announcements), ministryId, title, content,
                                                        storeFault, old(db.nextId))
  {
    var ctx := GetAuthenticatedUser(session, db.users);
    if ctx.None? {
      return Fail(MsgUnauthorized);
    }
    if !CanManageMinistryScales(session, db.users, db.coordinators, ministryId) {
      return Fail(MsgCannotCreate);
    }
    if IsBlank(title) {
      return Fail(MsgTitleRequired);
    }
    if IsBlank(content) {
      return Fail(MsgContentRequired);
    }
    if storeFault {
      return Fail(MsgCreateFailed);
    }
    var id := db.FreshId();
    var a := Announcement(id, ministryId, ctx.value.userId, Trim(title), Trim(content));
    db.announcements := db.announcements + [a];
    r := Succeed(Some(a));
  }

  /** Failures write nothing; without a context the call is unauthorized;
      a signed-in non-manager gets the permission error whatever the
      fields hold, and a manager gets the field errors for blank fields. */
  lemma CreateAnnouncementRefusals(session: Option<Id>, users: seq<User>, coords: seq<MinistryCoordinator>,
                                   anns: seq<Announcement>, ministryId: Id, title: string, content: string,
                                   storeFault: bool, newId: Id)
    ensures var (res, anns') := CreateAnnouncement(session, users, coords, anns, ministryId, title, content,
                                                   storeFault, newId);
      var ctx := GetAuthenticatedUser(session, users);
      var manages := CanManageMinistryScales(session, users, coords, ministryId);
      && (!res.success ==> anns' == anns)
      && (ctx.None? ==> res == Fail(MsgUnauthorized))
      && (ctx.Some? && !manages ==> res == Fail(MsgCannotCreate))
      && (manages && IsBlank(title) ==> res == Fail(MsgTitleRequired))
      && (manages && !IsBlank(title) && IsBlank(content) ==> res == Fail(MsgContentRequired))
  {
  }

  /** A created announcement is appended with the fresh id, the given
      ministry, the caller as author and the trimmed, non-empty title and
      content; the caller manages that ministry. */
  lemma CreateAnnouncementEffect(session: Option<Id>, users: seq<User>, coords: seq<MinistryCoordinator>,
                                 anns: seq<Announcement>, ministryId: Id, title: string, content: string,
                                 storeFault: bool, newId: Id)
    requires CreateAnnouncement(session, users, coords, anns, ministryId, title, content, storeFault, newId).0.success
    ensures var (res, anns') := CreateAnnouncement(session, users, coords, anns, ministryId, title, content,
                                                   storeFault, newId);
      var a := res.data.value;
      && CanManageMinistryScales(session, users, coords, ministryId)
      && anns' == anns + [a]
      && a == Announcement(newId, ministryId, session.value, Trim(title), Trim(content))
      && a.title != [] && a.content != []
  {
    TrimNonBlank(title);
    TrimNonBlank(content);
  }

  /** Trimming a non-blank string leaves something. */
  lemma TrimNonBlank(s: string)
    ensures !IsBlank(s) ==> Trim(s) != []
  {
    if !IsBlank(s) {
      assert TrimOrNull(Some(s)).Some?;
    }
  }

  function AnnouncementsOutside(anns: seq<Announcement>, id: Id): (r: seq<Announcement>)
    ensures forall a :: a in r <==> a in anns && a.id != id
  {
    Filter(anns, (a: Announcement) => a.id != id)
  }

  /** deleteAnnouncementAction: the row is read with `.single()`, and the
      permission check uses that row's own ministry. */
  function DeleteAnnouncement(session: Option<Id>, users: seq<User>, coords: seq<MinistryCoordinator>,
                              anns: seq<Announcement>, id: Id, storeFault: bool): (ActionResult<()>, seq<Announcement>)
  {
    if GetAuthenticatedUser(session, users).None? then (Fail(MsgUnauthorized), anns)
    else match Single(AnnouncementsWithId(anns, id))
      case None => (Fail(MsgNotFound), anns)
      case Some(a) =>
        if !CanManageMinistryScales(session, users, coords, a.ministryId) then (Fail(MsgCannotDelete), anns)
        else if storeFault then (Fail(MsgDeleteFailed), anns)
        else (Succeed(None), AnnouncementsOutside(anns, id))
  }

  method DeleteAnnouncementAction(db: Db, session: Option<Id>, id: Id, storeFault: bool)
    returns (r: ActionResult<()>)
    requires db.Valid()
    modifies db`announcements
    ensures db.Valid()
    ensures (r, db.announcements) == DeleteAnnouncement(session, old(db.users), old(db.coordinators),
                                                        old(db.announcements), id, storeFault)
  {
    if GetAuthenticatedUser(session, db.users).None? {
      return Fail(MsgUnauthorized);
    }
    var a := Single(AnnouncementsWithId(db.announcements, id));
    if a.None? {
      return Fail(MsgNotFound);
    }
    if !CanManageMinistryScales(session, db.users, db.coordinators, a.value.ministryId) {
      return Fail(MsgCannotDelete);
    }
    if storeFault {
      return Fail(MsgDeleteFailed);
    }
    db.announcements := AnnouncementsOutside(db.announcements, id);
    r := Succeed(None);
  }

  /** A signed-in caller deleting an id no row has gets "not found"; a
      successful delete was authorised against the row's own ministry and
      removes exactly the rows with that id. */
  lemma DeleteAnnouncementEffect(session: Option<Id>, users: seq<User>, coords: seq<MinistryCoordinator>,
                                 anns: seq<Announcement>, id: Id, storeFault: bool)
    ensures var (res, anns') := DeleteAnnouncement(session, users, coords, anns, id, storeFault);
      && (!res.success ==> anns' == anns)
      && (GetAuthenticatedUser(session, users).Some? && (forall a :: a in anns ==> a.id != id) ==>
            res == Fail(MsgNotFound))
      && (res.success ==>
            && (exists a :: a in anns && a.id == id && CanManageMinistryScales(session, users, coords, a.ministryId))
            && (forall a :: a in anns' <==> a in anns && a.id != id))
  {
    var (res, anns') := DeleteAnnouncement(session, users, coords, anns, id, storeFault);
    if GetAuthenticatedUser(session, users).Some? && (forall a :: a in anns ==> a.id != id) {
      FilterNone(anns, (a: Announcement) => a.id == id);
    }
    if res.success {
      var a := Single(AnnouncementsWithId(anns, id)).value;
      assert a in AnnouncementsWithId(anns, id);
    }
  }
}
