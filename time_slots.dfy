/** Time slots with per-role vacancies (lib/actions/time-slots.ts):
    creation inserts the slot, then one `time_slot_roles` row per requested
    role, and deletes the new slot again (the compensating write) when a
    role does not belong to the service's ministry or its insert fails. */
module TimeSlots {
  import opened Types
  import opened Store
  import opened Auth
  import opened JsText

  const MsgFillAll: string := "Preencha todos os campos."
  const MsgStartBeforeEnd: string := "O horário de início deve ser anterior ao de fim."
  const MsgBadRoles: string := "Dados de funções inválidos."
  const MsgNeedRole: string := "Adicione pelo menos uma função com quantidade maior que zero."
  const MsgServiceNotFound: string := "Serviço não encontrado."
  const MsgAccessDenied: string := "Acesso negado a este ministério."
  const MsgCannotCreate: string := "Sem permissão para criar horários neste ministério."
  const MsgCreateSlotFailed: string := "Erro ao criar horário."
  const MsgRoleNotInMinistry: string := "Função não pertence a este ministério. Use apenas funções do ministério da escala."
  const MsgCreateRolesFailed: string := "Erro ao criar vagas. Verifique se as funções pertencem ao ministério."
  const MsgSlotNotFound: string := "Horário não encontrado."
  const MsgCannotDelete: string := "Sem permissão para excluir horários deste ministério."
  const MsgDeleteSlotFailed: string := "Erro ao excluir horário."

  /** One entry of the parsed `roles` form field. */
  datatype RoleRequest = RoleRequest(ministryRoleId: Id, quantity: int)

  /** The entries that get a vacancy row: quantity at least 1. */
  function ActiveRoles(roles: seq<RoleRequest>): (r: seq<RoleRequest>)
    ensures forall x :: x in r <==> x in roles && x.quantity >= 1
  {
    Filter(roles, (x: RoleRequest) => x.quantity >= 1)
  }

  /** The guards of createTimeSlotAction before any write, in the source's
      order. `roles` is None when the field is not valid JSON. */
  function CreateChecks(session: Option<Id>, users: seq<User>, coords: seq<MinistryCoordinator>,
                        services: seq<Service>, canAccess: (Id, Id) -> bool,
                        serviceId: Option<Id>, startTime: string, endTime: string,
                        roles: Option<seq<RoleRequest>>): Checked<(AuthContext, Service, seq<RoleRequest>)>
  {
    match GetAuthenticatedUser(session, users)
    case None => Refused(MsgUnauthorized)
    case Some(ctx) =>
      if ctx.parishId.None? then Refused(MsgNoParish)
      else if serviceId.None? || startTime == "" || endTime == "" then Refused(MsgFillAll)
      else if !LexLess(startTime, endTime) then Refused(MsgStartBeforeEnd)
      else if roles.None? then Refused(MsgBadRoles)
      else if |roles.value| == 0 || ActiveRoles(roles.value) == [] then Refused(MsgNeedRole)
      else match Single(ServicesWithId(services, serviceId.value))
        case None => Refused(MsgServiceNotFound)
        case Some(service) =>
          if service.parishId != ctx.parishId.value then Refused(MsgServiceNotFound)
          else if !canAccess(ctx.userId, service.ministryId) then Refused(MsgAccessDenied)
          else if !CanManageMinistryScales(session, users, coords, service.ministryId) then Refused(MsgCannotCreate)
          else Accepted((ctx, service, roles.value))
  }

  /** What goes wrong, if anything, with entry `i` of the loop: its
      ministry role is missing or of another ministry, or the store rejects
      its insert (`faults` holds the entries whose insert fails). */
  function RoleFailure(role: RoleRequest, i: nat, mrs: seq<MinistryRole>, ministryId: Id, faults: set<nat>): Option<string>
  {
    if role.quantity < 1 then None
    else match Single(MinistryRolesWithId(mrs, role.ministryRoleId))
      case None => Some(MsgRoleNotInMinistry)
      case Some(mr) =>
        if mr.ministryId != ministryId then Some(MsgRoleNotInMinistry)
        else if i in faults then Some(MsgCreateRolesFailed)
        else None
  }

  /** The first entry, from `from` on, whose step fails. */
  function FirstFailure(roles: seq<RoleRequest>, mrs: seq<MinistryRole>, ministryId: Id,
                        faults: set<nat>, from: nat): (k: Option<nat>)
    ensures k.Some? ==> from <= k.value < |roles| && RoleFailure(roles[k.value], k.value, mrs, ministryId, faults).Some?
    ensures k.Some? ==> forall j :: from <= j < k.value ==> RoleFailure(roles[j], j, mrs, ministryId, faults).None?
    ensures k.None? ==> forall j :: from <= j < |roles| ==> RoleFailure(roles[j], j, mrs, ministryId, faults).None?
    decreases |roles| - from
  {
    if from >= |roles| then None
    else if RoleFailure(roles[from], from, mrs, ministryId, faults).Some? then Some(from)
    else FirstFailure(roles, mrs, ministryId, faults, from + 1)
  }

  /** The vacancy rows the loop inserts for `roles`, with consecutive ids from `firstId`. */
  function TsrRows(roles: seq<RoleRequest>, slotId: Id, firstId: Id): (r: seq<TimeSlotRole>)
    ensures forall t :: t in r ==> t.timeSlotId == slotId && t.quantity >= 1 && firstId <= t.id < firstId + |r|
    decreases |roles|
  {
    if roles == [] then []
    else
      var pre := TsrRows(roles[..|roles| - 1], slotId, firstId);
      var last := roles[|roles| - 1];
      pre + (if last.quantity >= 1 then [TimeSlotRole(firstId + |pre|, slotId, last.ministryRoleId, last.quantity)] else [])
  }

  /** createTimeSlotAction as a state transition on (time_slots, time_slot_roles).
      `rollbackFault` stands for a failed compensating delete: its error is
      discarded, so the new slot and the vacancy rows inserted before the
      failing entry stay, and the entry's message is returned all the same. */
  function CreateTimeSlot(session: Option<Id>, users: seq<User>, coords: seq<MinistryCoordinator>,
                          services: seq<Service>, mrs: seq<MinistryRole>,
                          slots: seq<TimeSlot>, tsrs: seq<TimeSlotRole>, canAccess: (Id, Id) -> bool,
                          serviceId: Option<Id>, startTime: string, endTime: string,
                          roles: Option<seq<RoleRequest>>, slotFault: bool, faults: set<nat>, rollbackFault: bool,
                          newId: Id, maxDefault: int): (ActionResult<()>, seq<TimeSlot>, seq<TimeSlotRole>)
  {
    match CreateChecks(session, users, coords, services, canAccess, serviceId, startTime, endTime, roles)
    case Refused(m) => (Fail(m), slots, tsrs)
    case Accepted(v) =>
      var (ctx, service, rs) := v;
      var slot := TimeSlot(newId, serviceId.value, ctx.parishId.value, startTime, endTime, maxDefault);
      if slotFault then (Fail(MsgCreateSlotFailed), slots, tsrs)
      else match FirstFailure(rs, mrs, service.ministryId, faults, 0)
        case Some(k) =>
          var message := RoleFailure(rs[k], k, mrs, service.ministryId, faults).value;
          if rollbackFault then (Fail(message), slots + [slot], tsrs + TsrRows(rs[..k], newId, newId + 1))
          else (Fail(message), slots, tsrs)
        case None => (Succeed(None), slots + [slot], tsrs + TsrRows(rs, newId, newId + 1))
  }

  /** An entry with quantity < 1 adds no row. */
  lemma TsrRowsSkip(roles: seq<RoleRequest>, i: nat, slotId: Id, firstId: Id)
    requires i < |roles| && roles[i].quantity < 1
    ensures TsrRows(roles[..i + 1], slotId, firstId) == TsrRows(roles[..i], slotId, firstId)
  {
    assert roles[..i + 1][..i] == roles[..i];
  }

  /** Any other entry adds its own row, numbered after the others. */
  lemma TsrRowsStep(roles: seq<RoleRequest>, i: nat, slotId: Id, firstId: Id,
                    before: seq<TimeSlotRole>, row: TimeSlotRole)
    requires i < |roles| && roles[i].quantity >= 1
    requires row == TimeSlotRole(firstId + |TsrRows(roles[..i], slotId, firstId)|, slotId,
                                 roles[i].ministryRoleId, roles[i].quantity)
    ensures before + TsrRows(roles[..i + 1], slotId, firstId) == (before + TsrRows(roles[..i], slotId, firstId)) + [row]
    ensures |TsrRows(roles[..i + 1], slotId, firstId)| == |TsrRows(roles[..i], slotId, firstId)| + 1
  {
    assert roles[..i + 1][..i] == roles[..i];
  }

  /** Deleting the new slot, with its cascade, restores every table. */
  lemma RollbackRestores(slots: seq<TimeSlot>, tsrs: seq<TimeSlotRole>, regs: seq<Registration>,
                         slot: TimeSlot, added: seq<TimeSlotRole>, ids: set<Id>)
    requires slot.id in ids
    requires forall s :: s in slots ==> s.id !in ids
    requires forall t :: t in tsrs ==> t.timeSlotId !in ids
    requires forall t :: t in added ==> t.timeSlotId in ids
    requires forall r :: r in regs ==> r.timeSlotId !in ids
    ensures SlotsOutside(slots + [slot], ids) == slots
    ensures SlotRolesOutside(tsrs + added, ids) == tsrs
    ensures RegistrationsOutside(regs, ids) == regs
  {
    var keepSlot := (s: TimeSlot) => s.id !in ids;
    var keepRole := (t: TimeSlotRole) => t.timeSlotId !in ids;
    FilterAppend(slots, [slot], keepSlot);
    FilterKeepsAll(slots, keepSlot);
    FilterNone([slot], keepSlot);
    FilterAppend(tsrs, added, keepRole);
    FilterKeepsAll(tsrs, keepRole);
    FilterNone(added, keepRole);
    FilterKeepsAll(regs, (x: Registration) => x.timeSlotId !in ids);
  }

  /** The compensating write: deleting the slot just inserted (its vacancy
      rows go with it) gives back the tables as they were before it. */
  method AbandonSlot(db: Db, slot: TimeSlot, ghost slots0: seq<TimeSlot>, ghost tsrs0: seq<TimeSlotRole>,
                     ghost added: seq<TimeSlotRole>, rollbackFault: bool)
    requires db.Valid()
    requires IdsBelow(db.parishes, slots0, tsrs0, db.registrations, slot.id)
    requires db.timeSlots == slots0 + [slot] && db.timeSlotRoles == tsrs0 + added
    requires forall t :: t in added ==> t.timeSlotId == slot.id
    modifies db`timeSlots, db`timeSlotRoles, db`registrations
    ensures db.Valid()
    ensures old(db.RolesWithinCapacity()) ==> db.RolesWithinCapacity()
    ensures db.registrations == old(db.registrations)
    ensures !rollbackFault ==> db.timeSlots == slots0 && db.timeSlotRoles == tsrs0
    ensures rollbackFault ==> db.timeSlots == old(db.timeSlots) && db.timeSlotRoles == old(db.timeSlotRoles)
  {
    if rollbackFault {
      return;
    }
    RollbackRestores(slots0, tsrs0, db.registrations, slot, added, {slot.id});
    db.DeleteSlots({slot.id});
  }

  /** The insert of entry `i`'s vacancy row, under the next fresh id. */
  method AddVacancy(db: Db, slot: TimeSlot, rs: seq<RoleRequest>, i: nat, ghost tsrs0: seq<TimeSlotRole>)
    requires i < |rs| && rs[i].quantity >= 1 && db.Valid() && slot.id < db.nextId
    requires db.timeSlotRoles == tsrs0 + TsrRows(rs[..i], slot.id, slot.id + 1)
    requires db.nextId == slot.id + 1 + |TsrRows(rs[..i], slot.id, slot.id + 1)|
    modifies db`timeSlotRoles, db`nextId
    ensures db.Valid()
    ensures old(db.RolesWithinCapacity()) ==> db.RolesWithinCapacity()
    ensures db.timeSlotRoles == tsrs0 + TsrRows(rs[..i + 1], slot.id, slot.id + 1)
    ensures db.nextId == slot.id + 1 + |TsrRows(rs[..i + 1], slot.id, slot.id + 1)|
  {
    var t := db.InsertSlotRole(slot.id, rs[i].ministryRoleId, rs[i].quantity);
    TsrRowsStep(rs, i, slot.id, slot.id + 1, tsrs0, t);
  }

  /** One turn of the loop of createTimeSlotAction: entry `i` gets its
      vacancy row, or it fails, and then the new slot is deleted. */
  method InsertVacancy(db: Db, slot: TimeSlot, rs: seq<RoleRequest>, i: nat, ministryId: Id, faults: set<nat>,
                       rollbackFault: bool, ghost slots0: seq<TimeSlot>, ghost tsrs0: seq<TimeSlotRole>)
    returns (failure: Option<string>)
    requires i < |rs| && db.Valid()
    requires IdsBelow(db.parishes, slots0, tsrs0, db.registrations, slot.id)
    requires db.timeSlots == slots0 + [slot]
    requires db.timeSlotRoles == tsrs0 + TsrRows(rs[..i], slot.id, slot.id + 1)
    requires db.nextId == slot.id + 1 + |TsrRows(rs[..i], slot.id, slot.id + 1)|
    modifies db`timeSlots, db`timeSlotRoles, db`registrations, db`nextId
    ensures db.Valid()
    ensures old(db.RolesWithinCapacity()) ==> db.RolesWithinCapacity()
    ensures db.registrations == old(db.registrations)
    ensures failure == RoleFailure(rs[i], i, db.ministryRoles, ministryId, faults)
    ensures failure.Some? && !rollbackFault ==> db.timeSlots == slots0 && db.timeSlotRoles == tsrs0
    ensures failure.Some? && rollbackFault ==>
      db.timeSlots == slots0 + [slot] && db.timeSlotRoles == tsrs0 + TsrRows(rs[..i], slot.id, slot.id + 1)
    ensures failure.None? ==>
      && db.timeSlots == slots0 + [slot]
      && db.timeSlotRoles == tsrs0 + TsrRows(rs[..i + 1], slot.id, slot.id + 1)
      && db.nextId == slot.id + 1 + |TsrRows(rs[..i + 1], slot.id, slot.id + 1)|
  {
    var role := rs[i];
    if role.quantity < 1 {
      TsrRowsSkip(rs, i, slot.id, slot.id + 1);
      return None;
    }
    var mr := Single(MinistryRolesWithId(db.ministryRoles, role.ministryRoleId));
    if mr.None? || mr.value.ministryId != ministryId || i in faults {
      AbandonSlot(db, slot, slots0, tsrs0, TsrRows(rs[..i], slot.id, slot.id + 1), rollbackFault);
      if mr.None? || mr.value.ministryId != ministryId {
        return Some(MsgRoleNotInMinistry);
      }
      return Some(MsgCreateRolesFailed);
    }
    AddVacancy(db, slot, rs, i, tsrs0);
    failure := None;
  }

  /** The loop of createTimeSlotAction over the requested roles, run right
      after the slot `slot` was inserted: one vacancy row per entry with
      quantity >= 1, or, at the first entry that fails, the slot's deletion
      and that entry's message. */
  method InsertVacancies(db: Db, slot: TimeSlot, rs: seq<RoleRequest>, ministryId: Id, faults: set<nat>,
                         rollbackFault: bool, ghost slots0: seq<TimeSlot>, ghost tsrs0: seq<TimeSlotRole>)
    returns (failure: Option<string>)
    requires db.Valid()
    requires IdsBelow(db.parishes, slots0, tsrs0, db.registrations, slot.id)
    requires db.timeSlots == slots0 + [slot] && db.timeSlotRoles == tsrs0 && db.nextId == slot.id + 1
    modifies db`timeSlots, db`timeSlotRoles, db`registrations, db`nextId
    ensures db.Valid()
    ensures old(db.RolesWithinCapacity()) ==> db.RolesWithinCapacity()
    ensures db.registrations == old(db.registrations)
    ensures failure == (match FirstFailure(rs, db.ministryRoles, ministryId, faults, 0)
                        case None => None
                        case Some(k) => RoleFailure(rs[k], k, db.ministryRoles, ministryId, faults))
    ensures failure.Some? && !rollbackFault ==> db.timeSlots == slots0 && db.timeSlotRoles == tsrs0
    ensures failure.Some? && rollbackFault ==>
      match FirstFailure(rs, db.ministryRoles, ministryId, faults, 0)
      case None => false
      case Some(k) =>
        db.timeSlots == slots0 + [slot] && db.timeSlotRoles == tsrs0 + TsrRows(rs[..k], slot.id, slot.id + 1)
    ensures failure.None? ==>
      db.timeSlots == slots0 + [slot] && db.timeSlotRoles == tsrs0 + TsrRows(rs, slot.id, slot.id + 1)
  {
    ghost var regs0 := db.registrations;
    assert rs[..0] == [];
    var i := 0;
    while i < |rs|
      invariant 0 <= i <= |rs|
      invariant db.Valid()
      invariant old(db.RolesWithinCapacity()) ==> db.RolesWithinCapacity()
      invariant db.timeSlots == slots0 + [slot]
      invariant db.timeSlotRoles == tsrs0 + TsrRows(rs[..i], slot.id, slot.id + 1)
      invariant db.nextId == slot.id + 1 + |TsrRows(rs[..i], slot.id, slot.id + 1)|
      invariant db.registrations == regs0
      invariant FirstFailure(rs, db.ministryRoles, ministryId, faults, 0) ==
                FirstFailure(rs, db.ministryRoles, ministryId, faults, i)
    {
      failure := InsertVacancy(db, slot, rs, i, ministryId, faults, rollbackFault, slots0, tsrs0);
      if failure.Some? {
        return;
      }
      i := i + 1;
    }
    assert rs[..i] == rs;
    failure := None;
  }

  method CreateTimeSlotAction(db: Db, session: Option<Id>, canAccess: (Id, Id) -> bool,
                              serviceId: Option<Id>, startTime: string, endTime: string,
                              roles: Option<seq<RoleRequest>>, slotFault: bool, faults: set<nat>,
                              rollbackFault: bool)
    returns (r: ActionResult<()>)
    requires db.Valid()
    modifies db`timeSlots, db`timeSlotRoles, db`registrations, db`nextId
    ensures db.Valid()
    ensures old(db.RolesWithinCapacity()) ==> db.RolesWithinCapacity()
    ensures (r, db.timeSlots, db.timeSlotRoles) ==
      CreateTimeSlot(session, old(db.users), old(db.coordinators), old(db.services), old(db.ministryRoles),
                     old(db.timeSlots), old(db.timeSlotRoles), canAccess, serviceId, startTime, endTime,
                     roles, slotFault, faults, rollbackFault, old(db.nextId), db.maxVolunteersDefault)
    ensures db.registrations == old(db.registrations)
  {
    var checks := CreateChecks(session, db.users, db.coordinators, db.services, canAccess,
                               serviceId, startTime, endTime, roles);
    if checks.Refused? {
      return Fail(checks.message);
    }
    var (ctx, service, rs) := checks.value;
    if slotFault {
      return Fail(MsgCreateSlotFailed);
    }
    r := InsertSlotWithVacancies(db, serviceId.value, ctx.parishId.value, startTime, endTime, rs,
                                 service.ministryId, faults, rollbackFault);
  }

  /** The writes of createTimeSlotAction once its guards pass: the slot,
      then its vacancy rows, or nothing at all when an entry fails. */
  method InsertSlotWithVacancies(db: Db, serviceId: Id, parishId: Id, startTime: string, endTime: string,
                                 rs: seq<RoleRequest>, ministryId: Id, faults: set<nat>, rollbackFault: bool)
    returns (r: ActionResult<()>)
    requires db.Valid()
    modifies db`timeSlots, db`timeSlotRoles, db`registrations, db`nextId
    ensures db.Valid()
    ensures old(db.RolesWithinCapacity()) ==> db.RolesWithinCapacity()
    ensures db.registrations == old(db.registrations)
    ensures (r, db.timeSlots, db.timeSlotRoles) ==
      match FirstFailure(rs, db.ministryRoles, ministryId, faults, 0)
      case Some(k) =>
        if rollbackFault then
          (Fail(RoleFailure(rs[k], k, db.ministryRoles, ministryId, faults).value),
           old(db.timeSlots) + [TimeSlot(old(db.nextId), serviceId, parishId, startTime, endTime, db.maxVolunteersDefault)],
           old(db.timeSlotRoles) + TsrRows(rs[..k], old(db.nextId), old(db.nextId) + 1))
        else
          (Fail(RoleFailure(rs[k], k, db.ministryRoles, ministryId, faults).value),
           old(db.timeSlots), old(db.timeSlotRoles))
      case None =>
        (Succeed(None),
         old(db.timeSlots) + [TimeSlot(old(db.nextId), serviceId, parishId, startTime, endTime, db.maxVolunteersDefault)],
         old(db.timeSlotRoles) + TsrRows(rs, old(db.nextId), old(db.nextId) + 1))
  {
    ghost var slots0, tsrs0 := db.timeSlots, db.timeSlotRoles;
    var slot := db.InsertTimeSlot(serviceId, parishId, startTime, endTime, db.maxVolunteersDefault);
    var failure := InsertVacancies(db, slot, rs, ministryId, faults, rollbackFault, slots0, tsrs0);
    if failure.Some? {
      return Fail(failure.value);
    }
    r := Succeed(None);
  }

  /** deleteTimeSlotAction's guards, in order. */
  function DeleteChecks(session: Option<Id>, users: seq<User>, coords: seq<MinistryCoordinator>,
                        services: seq<Service>, slots: seq<TimeSlot>, canAccess: (Id, Id) -> bool,
                        id: Id): Checked<()>
  {
    match GetAuthenticatedUser(session, users)
    case None => Refused(MsgUnauthorized)
    case Some(ctx) =>
      match Single(SlotsWithId(slots, id))
      case None => Refused(MsgSlotNotFound)
      case Some(slot) =>
        match Single(ServicesWithId(services, slot.serviceId))
        case None => Refused(MsgServiceNotFound)
        case Some(service) =>
          if !canAccess(ctx.userId, service.ministryId) then Refused(MsgAccessDenied)
          else if !CanManageMinistryScales(session, users, coords, service.ministryId) then Refused(MsgCannotDelete)
          else Accepted(())
  }

  /** The delete guards' refusals before the permission check: no session,
      no slot with the id, the slot's service missing, then access denied. */
  lemma DeleteRefusals(session: Option<Id>, users: seq<User>, coords: seq<MinistryCoordinator>,
                       services: seq<Service>, slots: seq<TimeSlot>, canAccess: (Id, Id) -> bool,
                       id: Id, slot: TimeSlot, service: Service)
    ensures var c := DeleteChecks(session, users, coords, services, slots, canAccess, id);
      && (GetAuthenticatedUser(session, users).None? ==> c == Refused(MsgUnauthorized))
      && (GetAuthenticatedUser(session, users).Some? && (forall t :: t in slots ==> t.id != id) ==>
            c == Refused(MsgSlotNotFound))
      && (GetAuthenticatedUser(session, users).Some? && SlotsWithId(slots, id) == [slot] &&
          (forall s :: s in services ==> s.id != slot.serviceId) ==>
            c == Refused(MsgServiceNotFound))
      && (GetAuthenticatedUser(session, users).Some? && SlotsWithId(slots, id) == [slot] &&
          ServicesWithId(services, slot.serviceId) == [service] && !canAccess(session.value, service.ministryId) ==>
            c == Refused(MsgAccessDenied))
  {
    if forall t :: t in slots ==> t.id != id {
      FilterNone(slots, (t: TimeSlot) => t.id == id);
    }
    if forall s :: s in services ==> s.id != slot.serviceId {
      FilterNone(services, (s: Service) => s.id == slot.serviceId);
    }
  }

  /** The delete counterpart of ParishAdminAloneCannotCreate: a parish
      administrator who coordinates nothing never passes the delete guards,
      and when the slot, its service and the access check are all there, the
      refusal is the delete permission message. */
  lemma ParishAdminAloneCannotDelete(session: Option<Id>, users: seq<User>, coords: seq<MinistryCoordinator>,
                                     services: seq<Service>, slots: seq<TimeSlot>, canAccess: (Id, Id) -> bool,
                                     id: Id)
    requires GetAuthenticatedUser(session, users).Some?
    requires GetAuthenticatedUser(session, users).value.role == AdminParish
    requires forall c :: c in coords ==> c.userId != session.value
    ensures !DeleteChecks(session, users, coords, services, slots, canAccess, id).Accepted?
    ensures Single(SlotsWithId(slots, id)).Some? &&
            Single(ServicesWithId(services, Single(SlotsWithId(slots, id)).value.serviceId)).Some? &&
            canAccess(session.value,
                      Single(ServicesWithId(services, Single(SlotsWithId(slots, id)).value.serviceId)).value.ministryId)
            ==> DeleteChecks(session, users, coords, services, slots, canAccess, id) == Refused(MsgCannotDelete)
  {
    forall m ensures !CanManageMinistryScales(session, users, coords, m) {
      FilterNone(coords, (c: MinistryCoordinator) => c.userId == session.value && c.ministryId == m);
    }
  }

  method DeleteTimeSlotAction(db: Db, session: Option<Id>, canAccess: (Id, Id) -> bool, id: Id, storeFault: bool)
    returns (r: ActionResult<()>)
    requires db.Valid()
    modifies db`timeSlots, db`timeSlotRoles, db`registrations
    ensures db.Valid()
    ensures old(db.RolesWithinCapacity()) ==> db.RolesWithinCapacity()
    ensures var checks := DeleteChecks(session, old(db.users), old(db.coordinators), old(db.services),
                                       old(db.timeSlots), canAccess, id);
      if checks.Refused? || storeFault then
        && r == Fail(if checks.Refused? then checks.message else MsgDeleteSlotFailed)
        && db.timeSlots == old(db.timeSlots) && db.timeSlotRoles == old(db.timeSlotRoles)
        && db.registrations == old(db.registrations)
      else
        && r == Succeed(None)
        && db.timeSlots == SlotsOutside(old(db.timeSlots), {id})
        && db.timeSlotRoles == SlotRolesOutside(old(db.timeSlotRoles), {id})
        && db.registrations == RegistrationsOutside(old(db.registrations), {id})
  {
    var checks := DeleteChecks(session, db.users, db.coordinators, db.services, db.timeSlots, canAccess, id);
    if checks.Refused? {
      return Fail(checks.message);
    }
    if storeFault {
      return Fail(MsgDeleteSlotFailed);
    }
    db.DeleteSlots({id});
    r := Succeed(None);
  }

  // ---------------------------------------------------------------
  // What slot creation promises
  // ---------------------------------------------------------------

  /** One vacancy row per entry with quantity >= 1, in order, carrying that
      entry's ministry role and quantity, with consecutive fresh ids. */
  lemma {:induction false} TsrRowsMatchActiveRoles(roles: seq<RoleRequest>, slotId: Id, firstId: Id)
    ensures |TsrRows(roles, slotId, firstId)| == |ActiveRoles(roles)|
    ensures forall k :: 0 <= k < |ActiveRoles(roles)| ==>
      TsrRows(roles, slotId, firstId)[k] ==
        TimeSlotRole(firstId + k, slotId, ActiveRoles(roles)[k].ministryRoleId, ActiveRoles(roles)[k].quantity)
    decreases |roles|
  {
    if roles != [] {
      TsrRowsMatchActiveRoles(roles[..|roles| - 1], slotId, firstId);
    }
  }

  /** Any failure reports its message, and when the compensating delete
      succeeds it leaves both tables as they were: no new slot survives.
      CreateRollbackFaultKeepsSlot shows what stays when that delete fails. */
  lemma CreateFailureWritesNothing(session: Option<Id>, users: seq<User>, coords: seq<MinistryCoordinator>,
                                   services: seq<Service>, mrs: seq<MinistryRole>,
                                   slots: seq<TimeSlot>, tsrs: seq<TimeSlotRole>, canAccess: (Id, Id) -> bool,
                                   serviceId: Option<Id>, startTime: string, endTime: string,
                                   roles: Option<seq<RoleRequest>>, slotFault: bool, faults: set<nat>,
                                   rollbackFault: bool, newId: Id, maxDefault: int)
    ensures var (res, slots', tsrs') := CreateTimeSlot(session, users, coords, services, mrs, slots, tsrs, canAccess,
                                                       serviceId, startTime, endTime, roles, slotFault, faults, rollbackFault, newId, maxDefault);
      && (!res.success ==> res.error.Some?)
      && (!res.success && !rollbackFault ==> slots' == slots && tsrs' == tsrs)
      && (CreateChecks(session, users, coords, services, canAccess, serviceId, startTime, endTime, roles).Refused? ==>
            res == Fail(CreateChecks(session, users, coords, services, canAccess, serviceId, startTime, endTime, roles).message)
            && slots' == slots && tsrs' == tsrs)
  {
  }

  /** The delete that should undo a failed role loop reports no error to
      the caller: when it fails, the new slot stays in the table, and so does
      one vacancy row for each active entry before the failing one, while
      the call still fails with that entry's message. */
  lemma CreateRollbackFaultKeepsSlot(session: Option<Id>, users: seq<User>, coords: seq<MinistryCoordinator>,
                                     services: seq<Service>, mrs: seq<MinistryRole>,
                                     slots: seq<TimeSlot>, tsrs: seq<TimeSlotRole>, canAccess: (Id, Id) -> bool,
                                     serviceId: Option<Id>, startTime: string, endTime: string,
                                     roles: Option<seq<RoleRequest>>, faults: set<nat>, newId: Id, maxDefault: int)
    requires CreateChecks(session, users, coords, services, canAccess, serviceId, startTime, endTime, roles).Accepted?
    requires roles.Some?
    requires FirstFailure(roles.value, mrs,
                          CreateChecks(session, users, coords, services, canAccess, serviceId, startTime, endTime, roles).value.1.ministryId,
                          faults, 0).Some?
    ensures var ministryId := CreateChecks(session, users, coords, services, canAccess, serviceId, startTime, endTime, roles).value.1.ministryId;
      var k := FirstFailure(roles.value, mrs, ministryId, faults, 0).value;
      var (res, slots', tsrs') := CreateTimeSlot(session, users, coords, services, mrs, slots, tsrs, canAccess,
                                                 serviceId, startTime, endTime, roles, false, faults, true, newId, maxDefault);
      var parish := GetAuthenticatedUser(session, users).value.parishId;
      && parish.Some? && serviceId.Some?
      && res == Fail(RoleFailure(roles.value[k], k, mrs, ministryId, faults).value)
      && slots' == slots + [TimeSlot(newId, serviceId.value, parish.value, startTime, endTime, maxDefault)]
      && |tsrs'| == |tsrs| + |ActiveRoles(roles.value[..k])|
      && tsrs'[..|tsrs|] == tsrs
      && (forall t :: t in tsrs'[|tsrs|..] ==> t.timeSlotId == newId && t.quantity >= 1)
  {
    var ministryId := CreateChecks(session, users, coords, services, canAccess, serviceId, startTime, endTime, roles).value.1.ministryId;
    var k := FirstFailure(roles.value, mrs, ministryId, faults, 0).value;
    TsrRowsMatchActiveRoles(roles.value[..k], newId, newId + 1);
    var added := TsrRows(roles.value[..k], newId, newId + 1);
    assert (tsrs + added)[|tsrs|..] == added;
  }

  /** The service `serviceId` is the one row with that id, it belongs to
      `parishId`, the caller may access its ministry and manage its scales. */
  predicate ServiceInParishManaged(session: Option<Id>, users: seq<User>, coords: seq<MinistryCoordinator>,
                                   services: seq<Service>, canAccess: (Id, Id) -> bool, serviceId: Id, parishId: Id)
    requires session.Some?
  {
    exists s :: s in services && ServicesWithId(services, serviceId) == [s] && s.parishId == parishId &&
      canAccess(session.value, s.ministryId) && CanManageMinistryScales(session, users, coords, s.ministryId)
  }

  /** A success adds one slot in the caller's parish for the given service
      and times, and one vacancy row per entry with quantity >= 1; the
      service was found in the caller's parish and the caller may access and
      manage its ministry. */
  lemma CreateSuccessEffect(session: Option<Id>, users: seq<User>, coords: seq<MinistryCoordinator>,
                            services: seq<Service>, mrs: seq<MinistryRole>,
                            slots: seq<TimeSlot>, tsrs: seq<TimeSlotRole>, canAccess: (Id, Id) -> bool,
                            serviceId: Option<Id>, startTime: string, endTime: string,
                            roles: Option<seq<RoleRequest>>, slotFault: bool, faults: set<nat>,
                            rollbackFault: bool, newId: Id, maxDefault: int)
    requires CreateTimeSlot(session, users, coords, services, mrs, slots, tsrs, canAccess,
                            serviceId, startTime, endTime, roles, slotFault, faults, rollbackFault, newId, maxDefault).0.success
    ensures var (res, slots', tsrs') := CreateTimeSlot(session, users, coords, services, mrs, slots, tsrs, canAccess,
                                                       serviceId, startTime, endTime, roles, slotFault, faults, rollbackFault, newId, maxDefault);
      var parish := GetAuthenticatedUser(session, users).value.parishId;
      && parish.Some? && serviceId.Some? && roles.Some?
      && slots' == slots + [TimeSlot(newId, serviceId.value, parish.value, startTime, endTime, maxDefault)]
      && |tsrs'| == |tsrs| + |ActiveRoles(roles.value)|
      && tsrs'[..|tsrs|] == tsrs
      && (forall k :: 0 <= k < |ActiveRoles(roles.value)| ==>
            tsrs'[|tsrs| + k] == TimeSlotRole(newId + 1 + k, newId, ActiveRoles(roles.value)[k].ministryRoleId,
                                              ActiveRoles(roles.value)[k].quantity))
      && LexLess(startTime, endTime)
      && ServiceInParishManaged(session, users, coords, services, canAccess, serviceId.value, parish.value)
  {
    TsrRowsMatchActiveRoles(roles.value, newId, newId + 1);
  }

  /** Validation order: the form checks (blank fields, then start before
      end, then the roles list) run before the service is even looked up. */
  lemma CreateValidatesFormFirst(session: Option<Id>, users: seq<User>, coords: seq<MinistryCoordinator>,
                                 services: seq<Service>, canAccess: (Id, Id) -> bool,
                                 serviceId: Option<Id>, startTime: string, endTime: string,
                                 roles: Option<seq<RoleRequest>>)
    requires GetAuthenticatedUser(session, users).Some?
    requires GetAuthenticatedUser(session, users).value.parishId.Some?
    ensures var c := CreateChecks(session, users, coords, services, canAccess, serviceId, startTime, endTime, roles);
      && ((serviceId.None? || startTime == "" || endTime == "") ==> c == Refused(MsgFillAll))
      && ((serviceId.Some? && startTime != "" && endTime != "" && !LexLess(startTime, endTime)) ==>
            c == Refused(MsgStartBeforeEnd))
      && ((serviceId.Some? && startTime != "" && endTime != "" && LexLess(startTime, endTime) &&
          roles.Some? && (forall x :: x in roles.value ==> x.quantity < 1)) ==> c == Refused(MsgNeedRole))
  {
    if serviceId.Some? && startTime != "" && endTime != "" && LexLess(startTime, endTime) &&
       roles.Some? && (forall x :: x in roles.value ==> x.quantity < 1) {
      FilterNone(roles.value, (x: RoleRequest) => x.quantity >= 1);
    }
  }

  /** The start must be strictly earlier: equal times are rejected. */
  lemma CreateRejectsEqualTimes(session: Option<Id>, users: seq<User>, coords: seq<MinistryCoordinator>,
                                services: seq<Service>, canAccess: (Id, Id) -> bool,
                                serviceId: Option<Id>, t: string, roles: Option<seq<RoleRequest>>)
    requires GetAuthenticatedUser(session, users).Some?
    requires GetAuthenticatedUser(session, users).value.parishId.Some?
    requires serviceId.Some? && t != ""
    ensures CreateChecks(session, users, coords, services, canAccess, serviceId, t, t, roles) == Refused(MsgStartBeforeEnd)
  {
    LexTrichotomy(t, t);
  }

  /** Parish isolation: once the form is valid, a service id that has no
      row in the caller's parish (no row at all, or a row of another
      parish) is reported as not found, before any access check. */
  lemma CreateRejectsForeignService(session: Option<Id>, users: seq<User>, coords: seq<MinistryCoordinator>,
                                    services: seq<Service>, canAccess: (Id, Id) -> bool,
                                    serviceId: Option<Id>, startTime: string, endTime: string,
                                    roles: Option<seq<RoleRequest>>)
    requires GetAuthenticatedUser(session, users).Some?
    requires GetAuthenticatedUser(session, users).value.parishId.Some?
    requires serviceId.Some? && startTime != "" && endTime != "" && LexLess(startTime, endTime)
    requires roles.Some? && ActiveRoles(roles.value) != []
    requires forall s :: s in services && s.id == serviceId.value ==>
               Some(s.parishId) != GetAuthenticatedUser(session, users).value.parishId
    ensures CreateChecks(session, users, coords, services, canAccess, serviceId, startTime, endTime, roles) ==
            Refused(MsgServiceNotFound)
  {
  }

  /** Access before permission: the caller's own parish's service, found by
      its id, is refused with the access message when `canAccessMinistry`
      denies its ministry, whatever the coordinator rows say. */
  lemma CreateRejectsNoAccess(session: Option<Id>, users: seq<User>, coords: seq<MinistryCoordinator>,
                              services: seq<Service>, canAccess: (Id, Id) -> bool,
                              serviceId: Option<Id>, startTime: string, endTime: string,
                              roles: Option<seq<RoleRequest>>, service: Service)
    requires GetAuthenticatedUser(session, users).Some?
    requires GetAuthenticatedUser(session, users).value.parishId == Some(service.parishId)
    requires serviceId.Some? && startTime != "" && endTime != "" && LexLess(startTime, endTime)
    requires roles.Some? && ActiveRoles(roles.value) != []
    requires ServicesWithId(services, serviceId.value) == [service]
    requires !canAccess(session.value, service.ministryId)
    ensures CreateChecks(session, users, coords, services, canAccess, serviceId, startTime, endTime, roles) ==
            Refused(MsgAccessDenied)
  {
  }

  /** A parish administrator who is not a coordinator of the service's
      ministry cannot create slots there, even with access to it. */
  lemma ParishAdminAloneCannotCreate(session: Option<Id>, users: seq<User>, coords: seq<MinistryCoordinator>,
                                     services: seq<Service>, canAccess: (Id, Id) -> bool,
                                     serviceId: Option<Id>, startTime: string, endTime: string,
                                     roles: Option<seq<RoleRequest>>)
    requires GetAuthenticatedUser(session, users).Some?
    requires GetAuthenticatedUser(session, users).value.role == AdminParish
    requires forall c :: c in coords ==> c.userId != session.value
    ensures forall m :: !CanManageMinistryScales(session, users, coords, m)
    ensures !CreateChecks(session, users, coords, services, canAccess, serviceId, startTime, endTime, roles).Accepted?
  {
    forall m ensures !CanManageMinistryScales(session, users, coords, m) {
      FilterNone(coords, (c: MinistryCoordinator) => c.userId == session.value && c.ministryId == m);
    }
  }

}
