/** Per-role volunteer registration (lib/actions/registrations.ts): the
    capacity-bounded insert into `registrations` and the delete that
    releases it. The count and the insert run one after the other; the
    model is sequential, so it says nothing about two requests that
    interleave between them. */
module Registrations {
  import opened Types
  import opened Store
  import opened Auth

  const MsgSlotRoleNotFound: string := "Vaga não encontrada."
  const MsgRoleFull: string := "Não há vagas disponíveis para esta função."
  const MsgAlreadyInRole: string := "Você já está inscrito nesta função."
  const MsgRegisterFailed: string := "Erro ao realizar inscrição."
  const MsgUnregisterFailed: string := "Erro ao cancelar inscrição."

  /** `time_slot_roles` joined (inner) with its `time_slots` row: the
      slot-role with the given id and the slot it belongs to. */
  function SlotRoleWithSlot(tsrs: seq<TimeSlotRole>, slots: seq<TimeSlot>, id: Id): (r: Option<(TimeSlotRole, TimeSlot)>)
    ensures r.Some? ==> r.value.0 in tsrs && r.value.0.id == id && r.value.1 in slots && r.value.1.id == r.value.0.timeSlotId
    ensures r.Some? ==> forall t :: t in tsrs && t.id == id ==> t == r.value.0
  {
    match Single(SlotRolesWithId(tsrs, id))
    case None => None
    case Some(t) =>
      match Single(SlotsWithId(slots, t.timeSlotId))
      case None => None
      case Some(s) => Some((t, s))
  }

  /** The caller already holds a registration for this role. */
  predicate HoldsRole(regs: seq<Registration>, userId: Id, tsrId: Id)
  {
    exists r :: r in regs && r.userId == userId && r.timeSlotRoleId == Some(tsrId)
  }

  /** The count the capacity check reads: `count ?? 0`, so a count query
      that fails (`countFault`) reads as 0. */
  function CountRead(regs: seq<Registration>, tsrId: Id, countFault: bool): nat
  {
    if countFault then 0 else Count(regs, tsrId)
  }

  /** registerVolunteerAction as a state transition: the result and the new
      `registrations` table. `countFault` stands for a failed count query,
      `storeFault` for an insert error other than the unique violation
      (code 23505). */
  function Register(session: Option<Id>, users: seq<User>, slots: seq<TimeSlot>,
                    tsrs: seq<TimeSlotRole>, regs: seq<Registration>,
                    tsrId: Id, countFault: bool, storeFault: bool, newId: Id): (ActionResult<()>, seq<Registration>)
  {
    match GetAuthenticatedUser(session, users)
    case None => (Fail(MsgUnauthorized), regs)
    case Some(ctx) =>
      if ctx.parishId.None? then (Fail(MsgNoParish), regs)
      else match SlotRoleWithSlot(tsrs, slots, tsrId)
        case None => (Fail(MsgSlotRoleNotFound), regs)
        case Some(found) =>
          var (tsr, slot) := found;
          if slot.parishId != ctx.parishId.value then (Fail(MsgSlotRoleNotFound), regs)
          else if CountRead(regs, tsrId, countFault) >= tsr.quantity then (Fail(MsgRoleFull), regs)
          else if HoldsRole(regs, ctx.userId, tsrId) then (Fail(MsgAlreadyInRole), regs)
          else if storeFault then (Fail(MsgRegisterFailed), regs)
          else (Succeed(None),
                regs + [Registration(newId, ctx.userId, tsr.timeSlotId, Some(tsrId), ctx.parishId.value)])
  }

  /** unregisterVolunteerAction: delete every row of (caller, role). */
  function Unregister(session: Option<Id>, users: seq<User>, regs: seq<Registration>,
                      tsrId: Id, storeFault: bool): (ActionResult<()>, seq<Registration>)
  {
    match GetAuthenticatedUser(session, users)
    case None => (Fail(MsgUnauthorized), regs)
    case Some(ctx) =>
      if storeFault then (Fail(MsgUnregisterFailed), regs)
      else (Succeed(None), WithoutUserRole(regs, ctx.userId, tsrId))
  }

  function WithoutUserRole(regs: seq<Registration>, userId: Id, tsrId: Id): (r: seq<Registration>)
    ensures forall x :: x in r <==> x in regs && !(x.userId == userId && x.timeSlotRoleId == Some(tsrId))
  {
    Filter(regs, (x: Registration) => !(x.userId == userId && x.timeSlotRoleId == Some(tsrId)))
  }

  // ---------------------------------------------------------------
  // The actions on the store
  // ---------------------------------------------------------------

  method RegisterVolunteer(db: Db, session: Option<Id>, tsrId: Id, countFault: bool, storeFault: bool)
    returns (r: ActionResult<()>)
    requires db.Valid()
    modifies db`registrations, db`nextId
    ensures db.Valid()
    ensures !countFault && old(db.RolesWithinCapacity()) ==> db.RolesWithinCapacity()
    ensures (r, db.registrations) ==
      Register(session, old(db.users), old(db.timeSlots), old(db.timeSlotRoles), old(db.registrations),
               tsrId, countFault, storeFault, old(db.nextId))
    ensures db.nextId == old(db.nextId) + (if r.success then 1 else 0)
    ensures NoRowRewritten(old(db.registrations), db.registrations)
  {
    var ctx := GetAuthenticatedUser(session, db.users);
    if ctx.None? {
      return Fail(MsgUnauthorized);
    }
    var parishId := ctx.value.parishId;
    if parishId.None? {
      return Fail(MsgNoParish);
    }
    var found := SlotRoleWithSlot(db.timeSlotRoles, db.timeSlots, tsrId);
    if found.None? || found.value.1.parishId != parishId.value {
      return Fail(MsgSlotRoleNotFound);
    }
    var tsr := found.value.0;
    var count := if countFault then 0 else Count(db.registrations, tsrId);
    if count >= tsr.quantity {
      return Fail(MsgRoleFull);
    }
    // The insert: the unique index on (user_id, time_slot_role_id) answers 23505.
    if HoldsRole(db.registrations, ctx.value.userId, tsrId) {
      return Fail(MsgAlreadyInRole);
    }
    if storeFault {
      return Fail(MsgRegisterFailed);
    }
    var id := db.FreshId();
    var row := Registration(id, ctx.value.userId, tsr.timeSlotId, Some(tsrId), parishId.value);
    if !countFault && db.RolesWithinCapacity() {
      InsertKeepsCapacity(db.timeSlotRoles, db.registrations, row);
    }
    InsertKeepsOnePerUserAndRole(db.registrations, row);
    db.registrations := db.registrations + [row];
    r := Succeed(None);
  }

  method UnregisterVolunteer(db: Db, session: Option<Id>, tsrId: Id, storeFault: bool)
    returns (r: ActionResult<()>)
    requires db.Valid()
    modifies db`registrations
    ensures db.Valid()
    ensures old(db.RolesWithinCapacity()) ==> db.RolesWithinCapacity()
    ensures (r, db.registrations) == Unregister(session, old(db.users), old(db.registrations), tsrId, storeFault)
    ensures NoRowRewritten(old(db.registrations), db.registrations)
  {
    var ctx := GetAuthenticatedUser(session, db.users);
    if ctx.None? {
      return Fail(MsgUnauthorized);
    }
    if storeFault {
      return Fail(MsgUnregisterFailed);
    }
    var keep := (x: Registration) => !(x.userId == ctx.value.userId && x.timeSlotRoleId == Some(tsrId));
    if db.RolesWithinCapacity() {
      DeleteKeepsCapacity(db.timeSlotRoles, db.registrations, (t: TimeSlotRole) => true, keep);
      FilterKeepsAll(db.timeSlotRoles, (t: TimeSlotRole) => true);
    }
    db.registrations := WithoutUserRole(db.registrations, ctx.value.userId, tsrId);
    r := Succeed(None);
  }

  // ---------------------------------------------------------------
  // What the registration engine promises
  // ---------------------------------------------------------------

  /** Every failure leaves the table as it was; a success adds exactly one
      row: the caller, the role's slot, the role, the caller's parish. */
  lemma RegisterEffect(session: Option<Id>, users: seq<User>, slots: seq<TimeSlot>,
                       tsrs: seq<TimeSlotRole>, regs: seq<Registration>, tsrId: Id, countFault: bool, fault: bool, newId: Id)
    ensures var (res, regs') := Register(session, users, slots, tsrs, regs, tsrId, countFault, fault, newId);
      && (!res.success ==> regs' == regs && res.error.Some?)
      && (res.success ==>
            var ctx := GetAuthenticatedUser(session, users).value;
            var tsr := SlotRoleWithSlot(tsrs, slots, tsrId).value.0;
            && ctx.parishId.Some?
            && regs' == regs + [Registration(newId, session.value, tsr.timeSlotId, Some(tsrId), ctx.parishId.value)])
  {
  }

  /** No context, or a context without a parish: rejected, nothing written. */
  lemma RegisterNeedsParish(session: Option<Id>, users: seq<User>, slots: seq<TimeSlot>,
                            tsrs: seq<TimeSlotRole>, regs: seq<Registration>, tsrId: Id, countFault: bool, fault: bool, newId: Id)
    requires GetAuthenticatedUser(session, users).None? || GetAuthenticatedUser(session, users).value.parishId.None?
    ensures Register(session, users, slots, tsrs, regs, tsrId, countFault, fault, newId).1 == regs
    ensures Register(session, users, slots, tsrs, regs, tsrId, countFault, fault, newId).0 ==
      Fail(if GetAuthenticatedUser(session, users).None? then MsgUnauthorized else MsgNoParish)
  {
  }

  /** A missing slot-role, or one whose slot is in another parish, is "not found". */
  lemma RegisterIsolatesParishes(session: Option<Id>, users: seq<User>, slots: seq<TimeSlot>,
                                 tsrs: seq<TimeSlotRole>, regs: seq<Registration>, tsrId: Id, countFault: bool, fault: bool, newId: Id)
    requires GetAuthenticatedUser(session, users).Some?
    requires GetAuthenticatedUser(session, users).value.parishId.Some?
    requires forall t, s :: t in tsrs && t.id == tsrId && s in slots && s.id == t.timeSlotId ==>
               s.parishId != GetAuthenticatedUser(session, users).value.parishId.value
    ensures Register(session, users, slots, tsrs, regs, tsrId, countFault, fault, newId) == (Fail(MsgSlotRoleNotFound), regs)
  {
  }

  /** A role whose count, as the action reads it, already reaches its
      quantity is "full" and nothing is written. */
  lemma RegisterRejectsWhenFull(session: Option<Id>, users: seq<User>, slots: seq<TimeSlot>,
                                tsrs: seq<TimeSlotRole>, regs: seq<Registration>, tsrId: Id, countFault: bool, fault: bool, newId: Id)
    requires GetAuthenticatedUser(session, users).Some?
    requires GetAuthenticatedUser(session, users).value.parishId.Some?
    requires SlotRoleWithSlot(tsrs, slots, tsrId).Some?
    requires SlotRoleWithSlot(tsrs, slots, tsrId).value.1.parishId == GetAuthenticatedUser(session, users).value.parishId.value
    requires CountRead(regs, tsrId, countFault) >= SlotRoleWithSlot(tsrs, slots, tsrId).value.0.quantity
    ensures Register(session, users, slots, tsrs, regs, tsrId, countFault, fault, newId) == (Fail(MsgRoleFull), regs)
  {
  }

  /** The sequential capacity invariant: from a table within capacity, a
      register call whose count query succeeds (whether the call succeeds
      or not) leaves it within capacity. CountFaultOverfills shows the
      other case. */
  lemma RegisterKeepsCapacity(session: Option<Id>, users: seq<User>, slots: seq<TimeSlot>,
                              tsrs: seq<TimeSlotRole>, regs: seq<Registration>, tsrId: Id, countFault: bool, fault: bool, newId: Id)
    requires WithinCapacity(tsrs, regs)
    ensures !countFault ==> WithinCapacity(tsrs, Register(session, users, slots, tsrs, regs, tsrId, countFault, fault, newId).1)
  {
    var (res, regs') := Register(session, users, slots, tsrs, regs, tsrId, countFault, fault, newId);
    if res.success && !countFault {
      var ctx := GetAuthenticatedUser(session, users).value;
      var tsr := SlotRoleWithSlot(tsrs, slots, tsrId).value.0;
      InsertKeepsCapacity(tsrs, regs, Registration(newId, ctx.userId, tsr.timeSlotId, Some(tsrId), ctx.parishId.value));
    }
  }

  /** With the count query failing, `count ?? 0` reads 0: a role that is
      already full still takes the caller's row, one past its quantity. */
  lemma CountFaultOverfills(session: Option<Id>, users: seq<User>, slots: seq<TimeSlot>,
                            tsrs: seq<TimeSlotRole>, regs: seq<Registration>, tsrId: Id, newId: Id)
    requires GetAuthenticatedUser(session, users).Some?
    requires GetAuthenticatedUser(session, users).value.parishId.Some?
    requires SlotRoleWithSlot(tsrs, slots, tsrId).Some?
    requires SlotRoleWithSlot(tsrs, slots, tsrId).value.1.parishId == GetAuthenticatedUser(session, users).value.parishId.value
    requires 1 <= SlotRoleWithSlot(tsrs, slots, tsrId).value.0.quantity <= Count(regs, tsrId)
    requires !HoldsRole(regs, GetAuthenticatedUser(session, users).value.userId, tsrId)
    ensures var (res, regs') := Register(session, users, slots, tsrs, regs, tsrId, true, false, newId);
      && res.success
      && Count(regs', tsrId) == Count(regs, tsrId) + 1
      && Count(regs', tsrId) > SlotRoleWithSlot(tsrs, slots, tsrId).value.0.quantity
      && !WithinCapacity(tsrs, regs')
  {
    var ctx := GetAuthenticatedUser(session, users).value;
    var tsr := SlotRoleWithSlot(tsrs, slots, tsrId).value.0;
    var row := Registration(newId, ctx.userId, tsr.timeSlotId, Some(tsrId), ctx.parishId.value);
    assert Register(session, users, slots, tsrs, regs, tsrId, true, false, newId) == (Succeed(None), regs + [row]);
    CountSnoc(regs, row, tsrId);
    assert tsr in tsrs && tsr.id == tsrId;
  }

  /** The unique index: a caller never ends up with two rows for one role. */
  lemma RegisterKeepsOnePerUserAndRole(session: Option<Id>, users: seq<User>, slots: seq<TimeSlot>,
                                       tsrs: seq<TimeSlotRole>, regs: seq<Registration>, tsrId: Id, countFault: bool, fault: bool, newId: Id)
    requires OnePerUserAndRole(regs)
    ensures OnePerUserAndRole(Register(session, users, slots, tsrs, regs, tsrId, countFault, fault, newId).1)
  {
    var (res, regs') := Register(session, users, slots, tsrs, regs, tsrId, countFault, fault, newId);
    if res.success {
      var ctx := GetAuthenticatedUser(session, users).value;
      var tsr := SlotRoleWithSlot(tsrs, slots, tsrId).value.0;
      InsertKeepsOnePerUserAndRole(regs, Registration(newId, ctx.userId, tsr.timeSlotId, Some(tsrId), ctx.parishId.value));
    }
  }

  /** Registering twice for the same role: the second call fails, either
      because the role is now full or with "already registered", and writes nothing. */
  lemma RegisterTwiceRejected(session: Option<Id>, users: seq<User>, slots: seq<TimeSlot>,
                              tsrs: seq<TimeSlotRole>, regs: seq<Registration>, tsrId: Id,
                              countFault1: bool, fault1: bool, countFault2: bool, fault2: bool, id1: Id, id2: Id)
    requires Register(session, users, slots, tsrs, regs, tsrId, countFault1, fault1, id1).0.success
    ensures var regs1 := Register(session, users, slots, tsrs, regs, tsrId, countFault1, fault1, id1).1;
      var (res2, regs2) := Register(session, users, slots, tsrs, regs1, tsrId, countFault2, fault2, id2);
      && !res2.success && regs2 == regs1
      && res2.error in {Some(MsgRoleFull), Some(MsgAlreadyInRole)}
  {
    var ctx := GetAuthenticatedUser(session, users).value;
    var tsr := SlotRoleWithSlot(tsrs, slots, tsrId).value.0;
    var row := Registration(id1, ctx.userId, tsr.timeSlotId, Some(tsrId), ctx.parishId.value);
    var regs1 := regs + [row];
    assert row in regs1;
    assert HoldsRole(regs1, ctx.userId, tsrId);
  }

  /** Each successful register raises the role's count by exactly one, and
      once the count equals the quantity every further register whose count
      query succeeds is "full". */
  lemma FullAfterQuantity(session: Option<Id>, users: seq<User>, slots: seq<TimeSlot>,
                          tsrs: seq<TimeSlotRole>, regs: seq<Registration>, tsrId: Id, countFault: bool, fault: bool, newId: Id)
    requires WithinCapacity(tsrs, regs)
    requires GetAuthenticatedUser(session, users).Some?
    requires GetAuthenticatedUser(session, users).value.parishId.Some?
    requires SlotRoleWithSlot(tsrs, slots, tsrId).Some?
    requires SlotRoleWithSlot(tsrs, slots, tsrId).value.1.parishId == GetAuthenticatedUser(session, users).value.parishId.value
    ensures var res := Register(session, users, slots, tsrs, regs, tsrId, countFault, fault, newId).0;
      res.success ==> Count(Register(session, users, slots, tsrs, regs, tsrId, countFault, fault, newId).1, tsrId) == Count(regs, tsrId) + 1
    ensures !countFault && Count(regs, tsrId) == SlotRoleWithSlot(tsrs, slots, tsrId).value.0.quantity ==>
      Register(session, users, slots, tsrs, regs, tsrId, countFault, fault, newId).0 == Fail(MsgRoleFull)
  {
    var (res, regs') := Register(session, users, slots, tsrs, regs, tsrId, countFault, fault, newId);
    if res.success {
      var ctx := GetAuthenticatedUser(session, users).value;
      var tsr := SlotRoleWithSlot(tsrs, slots, tsrId).value.0;
      CountSnoc(regs, Registration(newId, ctx.userId, tsr.timeSlotId, Some(tsrId), ctx.parishId.value), tsrId);
    }
  }

  /** Unregister removes exactly the caller's rows for that role and keeps every other row. */
  lemma UnregisterRemovesOnlyCallerRows(session: Option<Id>, users: seq<User>, regs: seq<Registration>, tsrId: Id)
    requires GetAuthenticatedUser(session, users).Some?
    ensures var (res, regs') := Unregister(session, users, regs, tsrId, false);
      && res.success
      && (forall x :: x in regs && !(x.userId == session.value && x.timeSlotRoleId == Some(tsrId)) ==> x in regs')
      && (forall x :: x in regs' ==> x in regs && !(x.userId == session.value && x.timeSlotRoleId == Some(tsrId)))
  {
  }

  /** Unregistering from a role one does not hold succeeds and changes nothing. */
  lemma {:induction false} UnregisterAbsentIsNoop(session: Option<Id>, users: seq<User>, regs: seq<Registration>, tsrId: Id)
    requires GetAuthenticatedUser(session, users).Some?
    requires !HoldsRole(regs, session.value, tsrId)
    ensures Unregister(session, users, regs, tsrId, false) == (Succeed(None), regs)
  {
    var uid := session.value;
    FilterKeepsAll(regs, (x: Registration) => !(x.userId == uid && x.timeSlotRoleId == Some(tsrId)));
  }

  /** Unregister is idempotent: a second call finds nothing and changes nothing. */
  lemma UnregisterIdempotent(session: Option<Id>, users: seq<User>, regs: seq<Registration>, tsrId: Id)
    requires GetAuthenticatedUser(session, users).Some?
    ensures var regs1 := Unregister(session, users, regs, tsrId, false).1;
      Unregister(session, users, regs1, tsrId, false) == (Succeed(None), regs1)
  {
    var regs1 := Unregister(session, users, regs, tsrId, false).1;
    UnregisterAbsentIsNoop(session, users, regs1, tsrId);
  }
}
