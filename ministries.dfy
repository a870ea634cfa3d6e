/** Ministries (lib/actions/ministries.ts): creation behind a role gate,
    update of name and description, and deletion with the cascade the
    source's comment describes (services, their slots, and onward). */
module Ministries {
  import opened Types
  import opened Store
  import opened Auth
  import opened JsText
  import opened Services

  const MsgNameRequired: string := "O nome do ministério é obrigatório."
  const MsgCannotCreate: string := "Sem permissão para criar ministérios."
  const MsgCreateFailed: string := "Erro ao criar ministério."
  const MsgUpdateFailed: string := "Erro ao atualizar ministério."
  const MsgDeleteFailed: string := "Erro ao excluir ministério."

  /** The roles allowed to create a ministry. */
  predicate MayCreateMinistry(role: UserRole)
  {
    role in {AdminParish, Coordinator, SuperAdmin}
  }

  /** createMinistryAction as a transition on `ministries`; `name` is "" when the field is absent. */
  function CreateMinistry(session: Option<Id>, users: seq<User>, ministries: seq<Ministry>,
                          name: string, description: Option<string>,
                          storeFault: bool, newId: Id): (ActionResult<Ministry>, seq<Ministry>)
  {
    if IsBlank(name) then (Fail(MsgNameRequired), ministries)
    else match session
      case None => (Fail(MsgUnauthorized), ministries)
      case Some(uid) =>
        match Profile(users, uid)
        case None => (Fail(MsgNoParish), ministries)
        case Some(row) =>
          if row.parishId.None? then (Fail(MsgNoParish), ministries)
          else if !MayCreateMinistry(row.role) then (Fail(MsgCannotCreate), ministries)
          else if storeFault then (Fail(MsgCreateFailed), ministries)
          else
            var m := Ministry(newId, Trim(name), TrimOrNull(description), row.parishId.value);
            (Succeed(Some(m)), ministries + [m])
  }

  method CreateMinistryAction(db: Db, session: Option<Id>, name: string, description: Option<string>,
                              storeFault: bool) returns (r: ActionResult<Ministry>)
    requires db.Valid()
    modifies db`ministries, db`nextId
    ensures db.Valid()
    ensures (r, db.ministries) == CreateMinistry(session, old(db.users), old(db.ministries), name, description,
                                                 storeFault, old(db.nextId))
  {
    if IsBlank(name) {
      return Fail(MsgNameRequired);
    }
    if session.None? {
      return Fail(MsgUnauthorized);
    }
    var row := Profile(db.users, session.value);
    if row.None? || row.value.parishId.None? {
      return Fail(MsgNoParish);
    }
    if !MayCreateMinistry(row.value.role) {
      return Fail(MsgCannotCreate);
    }
    if storeFault {
      return Fail(MsgCreateFailed);
    }
    var id := db.FreshId();
    var m := Ministry(id, Trim(name), TrimOrNull(description), row.value.parishId.value);
    db.ministries := db.ministries + [m];
    r := Succeed(Some(m));
  }

  /** Blank names are refused, and every failure leaves the table unchanged
      and carries a message. */
  lemma CreateMinistryFailure(session: Option<Id>, users: seq<User>, ministries: seq<Ministry>,
                              name: string, description: Option<string>, storeFault: bool, newId: Id)
    ensures var (res, ms') := CreateMinistry(session, users, ministries, name, description, storeFault, newId);
      && (IsBlank(name) ==> res == Fail(MsgNameRequired))
      && (!res.success ==> ms' == ministries && res.error.Some?)
  {
    var (res, ms') := CreateMinistry(session, users, ministries, name, description, storeFault, newId);
    if !IsBlank(name) && session.Some? && Profile(users, session.value).Some? {
      var row := Profile(users, session.value).value;
      if row.parishId.Some? && MayCreateMinistry(row.role) && !storeFault {
        assert res.success;
      } else {
        assert ms' == ministries && res.error.Some?;
      }
    }
  }

  /** A created ministry is appended with the fresh id, the trimmed name,
      the trimmed description or null, and the caller's parish; the caller
      is signed in and is not a volunteer. */
  lemma CreateMinistryEffect(session: Option<Id>, users: seq<User>, ministries: seq<Ministry>,
                             name: string, description: Option<string>, storeFault: bool, newId: Id)
    requires CreateMinistry(session, users, ministries, name, description, storeFault, newId).0.success
    ensures var (res, ms') := CreateMinistry(session, users, ministries, name, description, storeFault, newId);
      var ctx := GetAuthenticatedUser(session, users);
      && ctx.Some? && ctx.value.role != Volunteer
      && res.data.Some?
      && ms' == ministries + [res.data.value]
      && res.data.value.id == newId && res.data.value.name == Trim(name) && res.data.value.name != []
      && res.data.value.description == TrimOrNull(description)
      && ctx.value.parishId == Some(res.data.value.parishId)
  {
    var row := Profile(users, session.value);
    assert row.Some?;
    var m := Ministry(newId, Trim(name), TrimOrNull(description), row.value.parishId.value);
    assert CreateMinistry(session, users, ministries, name, description, storeFault, newId) ==
           (Succeed(Some(m)), ministries + [m]);
    assert MayCreateMinistry(row.value.role);
  }

  /** A volunteer with a parish and a non-blank name gets the permission error. */
  lemma VolunteerCannotCreate(uid: Id, users: seq<User>, ministries: seq<Ministry>,
                              name: string, description: Option<string>, storeFault: bool, newId: Id)
    requires !IsBlank(name)
    requires Profile(users, uid).Some?
    requires Profile(users, uid).value.parishId.Some? && Profile(users, uid).value.role == Volunteer
    ensures CreateMinistry(Some(uid), users, ministries, name, description, storeFault, newId) ==
            (Fail(MsgCannotCreate), ministries)
  {
  }

  /** `update ministries set ... where id = ?`: every row with the id gets the update. */
  function UpdateWhere(ministries: seq<Ministry>, id: Id, d: MinistryUpdate): (r: seq<Ministry>)
    ensures |r| == |ministries|
  {
    seq(|ministries|, i requires 0 <= i < |ministries| =>
      if ministries[i].id == id then ApplyMinistryUpdate(ministries[i], d) else ministries[i])
  }

  /** The update writes the given fields to the rows with the id, keeps each
      row's id and parish, and leaves every other row as it is. */
  lemma UpdateWhereRows(ministries: seq<Ministry>, id: Id, d: MinistryUpdate)
    requires d.name.Some? && d.description.Some?
    ensures var ms' := UpdateWhere(ministries, id, d);
      forall i :: 0 <= i < |ms'| ==>
        && ms'[i].id == ministries[i].id && ms'[i].parishId == ministries[i].parishId
        && (ministries[i].id != id ==> ms'[i] == ministries[i])
        && (ministries[i].id == id ==> ms'[i].name == d.name.value && ms'[i].description == d.description.value)
  {
  }

  /** updateMinistryAction: the name check, then the update; `.single()` on
      the updated rows makes "no row with this id" an error. No permission
      is checked here. */
  function UpdateMinistry(ministries: seq<Ministry>, id: Id, name: string, description: Option<string>,
                          storeFault: bool): (ActionResult<Ministry>, seq<Ministry>)
  {
    if IsBlank(name) then (Fail(MsgNameRequired), ministries)
    else if storeFault then (Fail(MsgUpdateFailed), ministries)
    else
      var ms' := UpdateWhere(ministries, id, MinistryUpdate(Some(Trim(name)), Some(TrimOrNull(description))));
      match Single(MinistriesWithId(ms', id))
      case None => (Fail(MsgUpdateFailed), ms')
      case Some(m) => (Succeed(Some(m)), ms')
  }

  method UpdateMinistryAction(db: Db, id: Id, name: string, description: Option<string>, storeFault: bool)
    returns (r: ActionResult<Ministry>)
    requires db.Valid()
    modifies db`ministries
    ensures db.Valid()
    ensures (r, db.ministries) == UpdateMinistry(old(db.ministries), id, name, description, storeFault)
  {
    if IsBlank(name) {
      return Fail(MsgNameRequired);
    }
    if storeFault {
      return Fail(MsgUpdateFailed);
    }
    db.ministries := UpdateWhere(db.ministries, id, MinistryUpdate(Some(Trim(name)), Some(TrimOrNull(description))));
    var m := Single(MinistriesWithId(db.ministries, id));
    if m.None? {
      return Fail(MsgUpdateFailed);
    }
    r := Succeed(Some(m.value));
  }

  /** The update touches only the rows with the given id, writes the
      trimmed name and description there, and keeps every id and parish;
      a blank name or a store error changes nothing and fails. */
  lemma UpdateMinistryEffect(ministries: seq<Ministry>, id: Id, name: string, description: Option<string>,
                             storeFault: bool)
    ensures var (res, ms') := UpdateMinistry(ministries, id, name, description, storeFault);
      && |ms'| == |ministries|
      && (IsBlank(name) || storeFault ==> ms' == ministries && !res.success)
      && (forall i :: 0 <= i < |ms'| ==>
            && ms'[i].id == ministries[i].id && ms'[i].parishId == ministries[i].parishId
            && (ministries[i].id != id ==> ms'[i] == ministries[i])
            && (ministries[i].id == id && !IsBlank(name) && !storeFault ==>
                  ms'[i].name == Trim(name) && ms'[i].description == TrimOrNull(description)))
  {
    if !IsBlank(name) && !storeFault {
      var d := MinistryUpdate(Some(Trim(name)), Some(TrimOrNull(description)));
      assert UpdateMinistry(ministries, id, name, description, storeFault).1 == UpdateWhere(ministries, id, d);
      UpdateWhereRows(ministries, id, d);
    }
  }

  /** With no row of that id nothing changes and the result is an error;
      a success returns the updated row, which carries the id and the
      trimmed name. */
  lemma UpdateMinistryOutcome(ministries: seq<Ministry>, id: Id, name: string, description: Option<string>,
                              storeFault: bool)
    ensures var (res, ms') := UpdateMinistry(ministries, id, name, description, storeFault);
      && ((forall m :: m in ministries ==> m.id != id) ==> ms' == ministries && !res.success)
      && (res.success ==> res.data.value in ms' && res.data.value.id == id && res.data.value.name == Trim(name))
  {
    var (res, ms') := UpdateMinistry(ministries, id, name, description, storeFault);
    if !IsBlank(name) && !storeFault {
      var d := MinistryUpdate(Some(Trim(name)), Some(TrimOrNull(description)));
      assert ms' == UpdateWhere(ministries, id, d);
      if forall m :: m in ministries ==> m.id != id {
        forall i | 0 <= i < |ms'|
          ensures ms'[i] == ministries[i]
        {
          assert ministries[i] in ministries;
        }
        assert ms' == ministries;
        FilterNone(ms', (m: Ministry) => m.id == id);
      }
      if res.success {
        var m := res.data.value;
        assert m in MinistriesWithId(ms', id);
        var i :| 0 <= i < |ms'| && ms'[i] == m;
      }
    }
  }

  function MinistriesOutside(ministries: seq<Ministry>, id: Id): (r: seq<Ministry>)
    ensures forall m :: m in r <==> m in ministries && m.id != id
  {
    Filter(ministries, (m: Ministry) => m.id != id)
  }

  /** deleteMinistryAction: the ministry row, its services, their slots,
      and the slots' slot-roles and registrations. */
  method DeleteMinistryAction(db: Db, id: Id, storeFault: bool) returns (r: ActionResult<()>)
    requires db.Valid()
    modifies db`ministries, db`services, db`timeSlots, db`timeSlotRoles, db`registrations
    ensures db.Valid()
    ensures old(db.RolesWithinCapacity()) ==> db.RolesWithinCapacity()
    ensures storeFault ==>
      && r == Fail(MsgDeleteFailed)
      && db.ministries == old(db.ministries) && db.services == old(db.services)
      && db.timeSlots == old(db.timeSlots) && db.timeSlotRoles == old(db.timeSlotRoles)
      && db.registrations == old(db.registrations)
    ensures !storeFault ==>
      var serviceIds := ServiceIdsOfMinistry(old(db.services), id);
      var slotIds := SlotIdsOfServices(old(db.timeSlots), serviceIds);
      && r == Succeed(None)
      && db.ministries == MinistriesOutside(old(db.ministries), id)
      && db.services == ServicesOutside(old(db.services), serviceIds)
      && db.timeSlots == SlotsOutside(old(db.timeSlots), slotIds)
      && db.timeSlotRoles == SlotRolesOutside(old(db.timeSlotRoles), slotIds)
      && db.registrations == RegistrationsOutside(old(db.registrations), slotIds)
  {
    if storeFault {
      return Fail(MsgDeleteFailed);
    }
    db.ministries := MinistriesOutside(db.ministries, id);
    DeleteServices(db, ServiceIdsOfMinistry(db.services, id));
    r := Succeed(None);
  }

  /** After the cascade no service of the deleted ministry is left. */
  lemma MinistryCascadeRemovesServices(services: seq<Service>, id: Id)
    ensures forall s :: s in ServicesOutside(services, ServiceIdsOfMinistry(services, id)) ==> s.ministryId != id
    ensures forall s :: s in services && s.ministryId != id && (forall t :: t in services && t.id == s.id ==> t.ministryId != id) ==>
      s in ServicesOutside(services, ServiceIdsOfMinistry(services, id))
  {
  }
}
