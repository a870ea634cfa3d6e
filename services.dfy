/** Service dates (lib/actions/services.ts): the detail view that joins a
    service with its slots and their registrations, and the creation and
    deletion of services. */
module Services {
  import opened Types
  import opened Store
  import opened Auth
  import opened JsText

  const MsgDateNotFound: string := "Data não encontrada."
  const MsgSlotsFetchFailed: string := "Erro ao buscar horários."
  const MsgMinistryAndDateRequired: string := "Ministério e data são obrigatórios."
  const MsgMinistryNotFound: string := "Ministério não encontrado."
  const MsgCreateServiceFailed: string := "Erro ao criar data."
  const MsgDeleteServiceFailed: string := "Erro ao excluir data."

  // ---------------------------------------------------------------
  // getServiceWithTimeSlotsAction
  // ---------------------------------------------------------------

  /** One slot of the detail: the slot, its registrations, and whether the caller holds one. */
  datatype SlotDetail = SlotDetail(slot: TimeSlot, registrations: seq<Registration>, isRegistered: bool)

  datatype ServiceDetail = ServiceDetail(service: Service, timeSlots: seq<SlotDetail>)

  function SlotsOfService(slots: seq<TimeSlot>, serviceId: Id): (r: seq<TimeSlot>)
    ensures forall s :: s in r <==> s in slots && s.serviceId == serviceId
  {
    Filter(slots, (s: TimeSlot) => s.serviceId == serviceId)
  }

  function SlotIds(slots: seq<TimeSlot>): (r: set<Id>)
    ensures forall s :: s in slots ==> s.id in r
  {
    set s | s in slots :: s.id
  }

  /** `.in('time_slot_id', slotIds)`. */
  function RegistrationsOfSlots(regs: seq<Registration>, ids: set<Id>): (r: seq<Registration>)
    ensures forall x :: x in r <==> x in regs && x.timeSlotId in ids
  {
    Filter(regs, (x: Registration) => x.timeSlotId in ids)
  }

  /** `registrations.filter(r => r.time_slot_id === slot.id)`. */
  function RegistrationsOfSlot(regs: seq<Registration>, slotId: Id): (r: seq<Registration>)
    ensures forall x :: x in r <==> x in regs && x.timeSlotId == slotId
  {
    Filter(regs, (x: Registration) => x.timeSlotId == slotId)
  }

  /** `user ? registrations.some(...) : false`. */
  predicate IsRegistered(regs: seq<Registration>, slotId: Id, user: Option<Id>)
  {
    user.Some? && exists x :: x in regs && x.timeSlotId == slotId && x.userId == user.value
  }

  /** The `map` over the slots: one entry per slot, in order. */
  function AssembleSlots(slots: seq<TimeSlot>, fetched: seq<Registration>, user: Option<Id>): (r: seq<SlotDetail>)
    ensures |r| == |slots|
  {
    seq(|slots|, i requires 0 <= i < |slots| =>
      SlotDetail(slots[i], RegistrationsOfSlot(fetched, slots[i].id), IsRegistered(fetched, slots[i].id, user)))
  }

  /** The registrations the action fetches: none when there are no slots or
      when the fetch fails (its error is not checked, `regs ?? []`). */
  function FetchedRegistrations(slots: seq<TimeSlot>, regs: seq<Registration>, regsFault: bool): seq<Registration>
  {
    if |slots| > 0 && !regsFault then RegistrationsOfSlots(regs, SlotIds(slots)) else []
  }

  /** getServiceWithTimeSlotsAction. `session` is the identity provider's
      user, which may be absent; the slots come in table order. */
  function GetServiceWithTimeSlots(session: Option<Id>, services: seq<Service>, slots: seq<TimeSlot>,
                                   regs: seq<Registration>, serviceId: Id,
                                   slotsFault: bool, regsFault: bool): ActionResult<ServiceDetail>
  {
    match Single(ServicesWithId(services, serviceId))
    case None => Fail(MsgDateNotFound)
    case Some(service) =>
      if slotsFault then Fail(MsgSlotsFetchFailed)
      else
        var ss := SlotsOfService(slots, serviceId);
        Succeed(Some(ServiceDetail(service, AssembleSlots(ss, FetchedRegistrations(ss, regs, regsFault), session))))
  }

  /** Narrowing to the fetched slots and then to one of them is narrowing to that one. */
  lemma {:induction false} NarrowTwice(regs: seq<Registration>, ids: set<Id>, slotId: Id)
    requires slotId in ids
    ensures RegistrationsOfSlot(RegistrationsOfSlots(regs, ids), slotId) == RegistrationsOfSlot(regs, slotId)
    decreases |regs|
  {
    if regs != [] {
      var pre := regs[..|regs| - 1];
      NarrowTwice(pre, ids, slotId);
      var last := regs[|regs| - 1];
      if last.timeSlotId in ids {
        FilterAppend(RegistrationsOfSlots(pre, ids), [last], (x: Registration) => x.timeSlotId == slotId);
        assert (RegistrationsOfSlots(pre, ids) + [last])[..|RegistrationsOfSlots(pre, ids) + [last]| - 1] ==
               RegistrationsOfSlots(pre, ids);
      } else {
        assert RegistrationsOfSlots(pre, ids) + [] == RegistrationsOfSlots(pre, ids);
      }
    }
  }

  /** The detail lists the service's slots, each with exactly the store's
      registrations for that slot (when the registrations were read), and
      `is_registered` true exactly when the caller holds one of them;
      without a session it is false everywhere. */
  lemma DetailMatchesStore(session: Option<Id>, services: seq<Service>, slots: seq<TimeSlot>,
                           regs: seq<Registration>, serviceId: Id, slotsFault: bool, regsFault: bool)
    requires GetServiceWithTimeSlots(session, services, slots, regs, serviceId, slotsFault, regsFault).success
    ensures var d := GetServiceWithTimeSlots(session, services, slots, regs, serviceId, slotsFault, regsFault).data.value;
      && d.service in services && d.service.id == serviceId
      && |d.timeSlots| == |SlotsOfService(slots, serviceId)|
      && (forall i :: 0 <= i < |d.timeSlots| ==>
            var sd := d.timeSlots[i];
            && sd.slot == SlotsOfService(slots, serviceId)[i]
            && sd.slot.serviceId == serviceId
            && (forall x :: x in sd.registrations ==> x.timeSlotId == sd.slot.id)
            && (!regsFault ==> sd.registrations == RegistrationsOfSlot(regs, sd.slot.id))
            && (!regsFault ==>
                  (sd.isRegistered <==>
                     session.Some? && exists x :: x in regs && x.timeSlotId == sd.slot.id && x.userId == session.value))
            && (session.None? ==> !sd.isRegistered))
  {
    var ss := SlotsOfService(slots, serviceId);
    var fetched := FetchedRegistrations(ss, regs, regsFault);
    var d := GetServiceWithTimeSlots(session, services, slots, regs, serviceId, slotsFault, regsFault).data.value;
    forall i | 0 <= i < |d.timeSlots|
      ensures !regsFault ==> d.timeSlots[i].registrations == RegistrationsOfSlot(regs, ss[i].id)
    {
      assert ss[i] in ss;
      if !regsFault {
        NarrowTwice(regs, SlotIds(ss), ss[i].id);
      }
    }
  }

  // ---------------------------------------------------------------
  // createServiceAction and deleteServiceAction
  // ---------------------------------------------------------------

  function MinistriesInParish(ministries: seq<Ministry>, id: Id, parishId: Id): (r: seq<Ministry>)
    ensures forall m :: m in r <==> m in ministries && m.id == id && m.parishId == parishId
  {
    Filter(ministries, (m: Ministry) => m.id == id && m.parishId == parishId)
  }

  /** createServiceAction as a transition on `services`; `date` is "" when the field is empty. */
  function CreateService(session: Option<Id>, users: seq<User>, ministries: seq<Ministry>, services: seq<Service>,
                         ministryId: Option<Id>, date: string, description: Option<string>,
                         storeFault: bool, newId: Id): (ActionResult<Service>, seq<Service>)
  {
    if ministryId.None? || date == "" then (Fail(MsgMinistryAndDateRequired), services)
    else if session.None? then (Fail(MsgUnauthorized), services)
    else match ProfileParish(session, users)
      case None => (Fail(MsgNoParish), services)
      case Some(parishId) =>
        if Single(MinistriesInParish(ministries, ministryId.value, parishId)).None? then
          (Fail(MsgMinistryNotFound), services)
        else if storeFault then (Fail(MsgCreateServiceFailed), services)
        else
          var row := Service(newId, ministryId.value, parishId, date, TrimOrNull(description));
          (Succeed(Some(row)), services + [row])
  }

  method CreateServiceAction(db: Db, session: Option<Id>, ministryId: Option<Id>, date: string,
                             description: Option<string>, storeFault: bool) returns (r: ActionResult<Service>)
    requires db.Valid()
    modifies db`services, db`nextId
    ensures db.Valid()
    ensures (r, db.services) == CreateService(session, old(db.users), old(db.ministries), old(db.services),
                                              ministryId, date, description, storeFault, old(db.nextId))
  {
    if ministryId.None? || date == "" {
      return Fail(MsgMinistryAndDateRequired);
    }
    if session.None? {
      return Fail(MsgUnauthorized);
    }
    var parishId := ProfileParish(session, db.users);
    if parishId.None? {
      return Fail(MsgNoParish);
    }
    var ministry := Single(MinistriesInParish(db.ministries, ministryId.value, parishId.value));
    if ministry.None? {
      return Fail(MsgMinistryNotFound);
    }
    if storeFault {
      return Fail(MsgCreateServiceFailed);
    }
    var id := db.FreshId();
    var row := Service(id, ministryId.value, parishId.value, date, TrimOrNull(description));
    db.services := db.services + [row];
    r := Succeed(Some(row));
  }

  /** Parish isolation: a success always stores the service in the caller's
      parish, under a ministry of that parish, with the description trimmed
      or null; every failure leaves the table unchanged. */
  lemma CreateServiceEffect(session: Option<Id>, users: seq<User>, ministries: seq<Ministry>, services: seq<Service>,
                            ministryId: Option<Id>, date: string, description: Option<string>,
                            storeFault: bool, newId: Id)
    ensures var (res, services') := CreateService(session, users, ministries, services, ministryId, date,
                                                  description, storeFault, newId);
      && (!res.success ==> services' == services && res.error.Some?)
      && (res.success ==>
            var row := res.data.value;
            && ministryId.Some? && date != ""
            && services' == services + [row]
            && GetAuthenticatedUser(session, users).Some?
            && GetAuthenticatedUser(session, users).value.parishId == Some(row.parishId)
            && (exists m :: m in ministries && m.id == ministryId.value && m.id == row.ministryId &&
                             m.parishId == row.parishId)
            && (row.description.None? <==> description.None? || IsBlank(description.value))
            && (row.description.Some? ==> row.description.value == Trim(description.value)))
  {
    var (res, services') := CreateService(session, users, ministries, services, ministryId, date,
                                          description, storeFault, newId);
    if res.success {
      var parishId := ProfileParish(session, users).value;
      var m := Single(MinistriesInParish(ministries, ministryId.value, parishId)).value;
      assert m in ministries && m.id == ministryId.value && m.parishId == parishId;
    }
  }

  /** A ministry of another parish is "not found", whatever its id. */
  lemma CreateServiceRejectsForeignMinistry(session: Option<Id>, users: seq<User>, ministries: seq<Ministry>,
                                            services: seq<Service>, ministryId: Id, date: string,
                                            description: Option<string>, storeFault: bool, newId: Id)
    requires date != ""
    requires ProfileParish(session, users).Some?
    requires forall m :: m in ministries && m.id == ministryId ==> Some(m.parishId) != ProfileParish(session, users)
    ensures CreateService(session, users, ministries, services, Some(ministryId), date, description, storeFault, newId) ==
            (Fail(MsgMinistryNotFound), services)
  {
  }

  function ServicesOutside(services: seq<Service>, ids: set<Id>): (r: seq<Service>)
    ensures forall s :: s in r <==> s in services && s.id !in ids
  {
    Filter(services, (s: Service) => s.id !in ids)
  }

  /** deleteServiceAction: delete the services with the given ids, with the
      cascade to their slots and onward. No permission check is made here. */
  method DeleteServices(db: Db, ids: set<Id>)
    requires db.Valid()
    modifies db`services, db`timeSlots, db`timeSlotRoles, db`registrations
    ensures db.Valid()
    ensures old(db.RolesWithinCapacity()) ==> db.RolesWithinCapacity()
    ensures db.services == ServicesOutside(old(db.services), ids)
    ensures var slotIds := SlotIdsOfServices(old(db.timeSlots), ids);
      && db.timeSlots == SlotsOutside(old(db.timeSlots), slotIds)
      && db.timeSlotRoles == SlotRolesOutside(old(db.timeSlotRoles), slotIds)
      && db.registrations == RegistrationsOutside(old(db.registrations), slotIds)
  {
    db.services := ServicesOutside(db.services, ids);
    db.DeleteSlots(SlotIdsOfServices(db.timeSlots, ids));
  }

  method DeleteServiceAction(db: Db, id: Id, storeFault: bool) returns (r: ActionResult<()>)
    requires db.Valid()
    modifies db`services, db`timeSlots, db`timeSlotRoles, db`registrations
    ensures db.Valid()
    ensures old(db.RolesWithinCapacity()) ==> db.RolesWithinCapacity()
    ensures storeFault ==>
      && r == Fail(MsgDeleteServiceFailed)
      && db.services == old(db.services) && db.timeSlots == old(db.timeSlots)
      && db.timeSlotRoles == old(db.timeSlotRoles) && db.registrations == old(db.registrations)
    ensures !storeFault ==>
      var slotIds := SlotIdsOfServices(old(db.timeSlots), {id});
      && r == Succeed(None)
      && db.services == ServicesOutside(old(db.services), {id})
      && db.timeSlots == SlotsOutside(old(db.timeSlots), slotIds)
      && db.timeSlotRoles == SlotRolesOutside(old(db.timeSlotRoles), slotIds)
      && db.registrations == RegistrationsOutside(old(db.registrations), slotIds)
  {
    if storeFault {
      return Fail(MsgDeleteServiceFailed);
    }
    DeleteServices(db, {id});
    r := Succeed(None);
  }

  /** After the cascade no slot, slot-role or registration refers to a
      deleted service's slots, and the rows of other slots all stay. */
  lemma ServiceCascadeComplete(slots: seq<TimeSlot>, tsrs: seq<TimeSlotRole>, regs: seq<Registration>, ids: set<Id>)
    requires forall a, b :: a in slots && b in slots && a.id == b.id ==> a == b
    ensures var slotIds := SlotIdsOfServices(slots, ids);
      && (forall s :: s in SlotsOutside(slots, slotIds) <==> s in slots && s.serviceId !in ids)
      && (forall t :: t in SlotRolesOutside(tsrs, slotIds) ==>
            forall s :: s in slots && s.id == t.timeSlotId ==> s.serviceId !in ids)
      && (forall x :: x in regs && (exists s :: s in slots && s.id == x.timeSlotId && s.serviceId !in ids) ==>
            x in RegistrationsOutside(regs, slotIds))
  {
  }
}
