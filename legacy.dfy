/** The older per-slot actions of lib/actions/services.ts: a slot carries
    its own `max_volunteers`, volunteers register for the slot as a whole
    (no slot-role), and capacity is read from the `time_slots_with_counts`
    view. The view is not part of the shown source; it is modelled as the
    slot row plus the number of registrations of that slot. */
module LegacySlots {
  import opened Types
  import opened Store
  import opened Auth
  import opened JsText
  import opened Services

  const MsgFillAll: string := "Preencha todos os campos."
  const MsgStartBeforeEnd: string := "O horário de início deve ser anterior ao de fim."
  const MsgAtLeastOne: string := "O número de vagas deve ser pelo menos 1."
  const MsgCreateSlotFailed: string := "Erro ao criar horário."
  const MsgDeleteSlotFailed: string := "Erro ao excluir horário."
  const MsgSlotNotFound: string := "Horário não encontrado."
  const MsgSlotFull: string := "Não há vagas disponíveis neste horário."
  const MsgAlreadyInSlot: string := "Você já está inscrito neste horário."
  const MsgRegisterFailed: string := "Erro ao realizar inscrição."
  const MsgUnregisterFailed: string := "Erro ao cancelar inscrição."

  /** The fallback of `parseInt(...) || 5`. */
  const DefaultMaxVolunteers: int := 5

  /** `parseInt(field) || 5`: NaN and 0 are falsy and give the default. */
  function MaxVolunteersField(field: string): (n: int)
    ensures n != 0
    ensures ParseInt(field).None? ==> n == DefaultMaxVolunteers
  {
    match ParseInt(field)
    case None => DefaultMaxVolunteers
    case Some(v) => if v == 0 then DefaultMaxVolunteers else v
  }

  /** A row of `time_slots_with_counts`. */
  datatype SlotWithCounts = SlotWithCounts(slot: TimeSlot, currentVolunteers: nat, availableSpots: int)

  function WithCounts(slot: TimeSlot, regs: seq<Registration>): (v: SlotWithCounts)
    ensures v.slot == slot
    ensures v.availableSpots == slot.maxVolunteers - |RegistrationsOfSlot(regs, slot.id)|
  {
    var current := |RegistrationsOfSlot(regs, slot.id)|;
    SlotWithCounts(slot, current, slot.maxVolunteers - current)
  }

  /** The legacy unique index on (user_id, time_slot_id) that answers 23505. */
  predicate InSlot(regs: seq<Registration>, userId: Id, slotId: Id)
  {
    exists x :: x in regs && x.userId == userId && x.timeSlotId == slotId
  }

  /** No slot holds more registrations than its `max_volunteers`. */
  predicate SlotsWithinCapacity(slots: seq<TimeSlot>, regs: seq<Registration>)
  {
    forall s :: s in slots ==> |RegistrationsOfSlot(regs, s.id)| <= s.maxVolunteers
  }

  // ---------------------------------------------------------------
  // createTimeSlotAction (legacy) and deleteTimeSlotAction (legacy)
  // ---------------------------------------------------------------

  /** The guards, in the source's order: the form first, then the user. */
  function CreateChecks(session: Option<Id>, users: seq<User>, serviceId: Option<Id>,
                        startTime: string, endTime: string, maxField: string): Checked<(Id, int)>
  {
    var maxVolunteers := MaxVolunteersField(maxField);
    if serviceId.None? || startTime == "" || endTime == "" then Refused(MsgFillAll)
    else if !LexLess(startTime, endTime) then Refused(MsgStartBeforeEnd)
    else if maxVolunteers < 1 then Refused(MsgAtLeastOne)
    else if session.None? then Refused(MsgUnauthorized)
    else match ProfileParish(session, users)
      case None => Refused(MsgNoParish)
      case Some(parishId) => Accepted((parishId, maxVolunteers))
  }

  function CreateTimeSlot(session: Option<Id>, users: seq<User>, slots: seq<TimeSlot>, serviceId: Option<Id>,
                          startTime: string, endTime: string, maxField: string,
                          storeFault: bool, newId: Id): (ActionResult<()>, seq<TimeSlot>)
  {
    match CreateChecks(session, users, serviceId, startTime, endTime, maxField)
    case Refused(m) => (Fail(m), slots)
    case Accepted(v) =>
      if storeFault then (Fail(MsgCreateSlotFailed), slots)
      else (Succeed(None), slots + [TimeSlot(newId, serviceId.value, v.0, startTime, endTime, v.1)])
  }

  method CreateTimeSlotAction(db: Db, session: Option<Id>, serviceId: Option<Id>, startTime: string,
                              endTime: string, maxField: string, storeFault: bool) returns (r: ActionResult<()>)
    requires db.Valid()
    modifies db`timeSlots, db`nextId
    ensures db.Valid()
    ensures (r, db.timeSlots) == CreateTimeSlot(session, old(db.users), old(db.timeSlots), serviceId,
                                                startTime, endTime, maxField, storeFault, old(db.nextId))
  {
    var checks := CreateChecks(session, db.users, serviceId, startTime, endTime, maxField);
    if checks.Refused? {
      return Fail(checks.message);
    }
    if storeFault {
      return Fail(MsgCreateSlotFailed);
    }
    var (parishId, maxVolunteers) := checks.value;
    var _ := db.InsertTimeSlot(serviceId.value, parishId, startTime, endTime, maxVolunteers);
    r := Succeed(None);
  }

  /** A failure adds nothing; a success adds one slot in the caller's
      parish whose `max_volunteers` is the parsed field, or 5 when the
      field is not a number or is 0, and is at least 1. */
  lemma CreateTimeSlotEffect(session: Option<Id>, users: seq<User>, slots: seq<TimeSlot>, serviceId: Option<Id>,
                             startTime: string, endTime: string, maxField: string, storeFault: bool, newId: Id)
    ensures var (res, slots') := CreateTimeSlot(session, users, slots, serviceId, startTime, endTime,
                                                maxField, storeFault, newId);
      && (!res.success ==> slots' == slots && res.error.Some?)
      && (res.success ==>
            && ProfileParish(session, users).Some? && serviceId.Some? && LexLess(startTime, endTime)
            && slots' == slots + [TimeSlot(newId, serviceId.value, ProfileParish(session, users).value,
                                           startTime, endTime, MaxVolunteersField(maxField))]
            && MaxVolunteersField(maxField) >= 1
            && (match ParseInt(maxField)
                case None => MaxVolunteersField(maxField) == 5
                case Some(v) => MaxVolunteersField(maxField) == (if v == 0 then 5 else v)))
  {
  }

  /** The number a form renders reads back as itself; 0, an empty field
      and text that is not a number all give 5. */
  lemma MaxVolunteersOfRendered(n: nat)
    ensures MaxVolunteersField(DecimalString(n)) == if n == 0 then 5 else n
    ensures MaxVolunteersField("") == 5
  {
    ParseIntDecimal(n);
  }

  /** A negative count passes `|| 5` and is rejected by the `< 1` check,
      after the blank-field and time checks. */
  lemma CreateRejectsNegative(session: Option<Id>, users: seq<User>, serviceId: Id,
                              startTime: string, endTime: string, n: nat)
    requires n >= 1 && startTime != "" && endTime != "" && LexLess(startTime, endTime)
    ensures CreateChecks(session, users, Some(serviceId), startTime, endTime, "-" + DecimalString(n)) ==
            Refused(MsgAtLeastOne)
  {
    ParseIntNegative(n);
  }

  method DeleteTimeSlotAction(db: Db, id: Id, storeFault: bool) returns (r: ActionResult<()>)
    requires db.Valid()
    modifies db`timeSlots, db`timeSlotRoles, db`registrations
    ensures db.Valid()
    ensures old(db.RolesWithinCapacity()) ==> db.RolesWithinCapacity()
    ensures storeFault ==>
      && r == Fail(MsgDeleteSlotFailed)
      && db.timeSlots == old(db.timeSlots) && db.timeSlotRoles == old(db.timeSlotRoles)
      && db.registrations == old(db.registrations)
    ensures !storeFault ==>
      && r == Succeed(None)
      && db.timeSlots == SlotsOutside(old(db.timeSlots), {id})
      && db.timeSlotRoles == SlotRolesOutside(old(db.timeSlotRoles), {id})
      && db.registrations == RegistrationsOutside(old(db.registrations), {id})
  {
    if storeFault {
      return Fail(MsgDeleteSlotFailed);
    }
    db.DeleteSlots({id});
    r := Succeed(None);
  }

  // ---------------------------------------------------------------
  // registerVolunteerAction (legacy) and unregisterVolunteerAction (legacy)
  // ---------------------------------------------------------------

  function Register(session: Option<Id>, users: seq<User>, slots: seq<TimeSlot>, regs: seq<Registration>,
                    slotId: Id, storeFault: bool, newId: Id): (ActionResult<()>, seq<Registration>)
  {
    if session.None? then (Fail(MsgUnauthorized), regs)
    else match ProfileParish(session, users)
      case None => (Fail(MsgNoParish), regs)
      case Some(parishId) =>
        match Single(SlotsWithId(slots, slotId))
        case None => (Fail(MsgSlotNotFound), regs)
        case Some(slot) =>
          if WithCounts(slot, regs).availableSpots <= 0 then (Fail(MsgSlotFull), regs)
          else if InSlot(regs, session.value, slotId) then (Fail(MsgAlreadyInSlot), regs)
          else if storeFault then (Fail(MsgRegisterFailed), regs)
          else (Succeed(None), regs + [Registration(newId, session.value, slotId, None, parishId)])
  }

  method RegisterVolunteerAction(db: Db, session: Option<Id>, slotId: Id, storeFault: bool)
    returns (r: ActionResult<()>)
    requires db.Valid()
    modifies db`registrations, db`nextId
    ensures db.Valid()
    ensures old(db.RolesWithinCapacity()) ==> db.RolesWithinCapacity()
    ensures (r, db.registrations) ==
      Register(session, old(db.users), old(db.timeSlots), old(db.registrations), slotId, storeFault, old(db.nextId))
    ensures NoRowRewritten(old(db.registrations), db.registrations)
  {
    if session.None? {
      return Fail(MsgUnauthorized);
    }
    var parishId := ProfileParish(session, db.users);
    if parishId.None? {
      return Fail(MsgNoParish);
    }
    var slot := Single(SlotsWithId(db.timeSlots, slotId));
    if slot.None? {
      return Fail(MsgSlotNotFound);
    }
    if WithCounts(slot.value, db.registrations).availableSpots <= 0 {
      return Fail(MsgSlotFull);
    }
    if InSlot(db.registrations, session.value, slotId) {
      return Fail(MsgAlreadyInSlot);
    }
    if storeFault {
      return Fail(MsgRegisterFailed);
    }
    var id := db.FreshId();
    var row := Registration(id, session.value, slotId, None, parishId.value);
    if db.RolesWithinCapacity() {
      InsertKeepsCapacity(db.timeSlotRoles, db.registrations, row);
    }
    InsertKeepsOnePerUserAndRole(db.registrations, row);
    db.registrations := db.registrations + [row];
    r := Succeed(None);
  }

  lemma RegistrationsOfSlotSnoc(regs: seq<Registration>, x: Registration, slotId: Id)
    ensures |RegistrationsOfSlot(regs + [x], slotId)| ==
            |RegistrationsOfSlot(regs, slotId)| + (if x.timeSlotId == slotId then 1 else 0)
  {
    assert (regs + [x])[..|regs + [x]| - 1] == regs;
  }

  /** A missing slot, or one with no spot left, is refused and nothing is
      written; a success adds exactly the caller's row for the slot. */
  lemma RegisterEffect(session: Option<Id>, users: seq<User>, slots: seq<TimeSlot>, regs: seq<Registration>,
                       slotId: Id, storeFault: bool, newId: Id)
    ensures var (res, regs') := Register(session, users, slots, regs, slotId, storeFault, newId);
      && (!res.success ==> regs' == regs && res.error.Some?)
      && ((forall s :: s in slots ==> s.id != slotId) ==> !res.success)
      && ((forall s :: s in slots && s.id == slotId ==> |RegistrationsOfSlot(regs, slotId)| >= s.maxVolunteers) ==>
            !res.success)
      && (res.success ==>
            regs' == regs + [Registration(newId, session.value, slotId, None, ProfileParish(session, users).value)])
  {
    var found := Single(SlotsWithId(slots, slotId));
    if found.Some? {
      assert found.value in slots;
    }
  }

  /** Appending a row for a slot that still has a free spot keeps every slot within capacity. */
  lemma SnocKeepsSlotCapacity(slots: seq<TimeSlot>, regs: seq<Registration>, row: Registration)
    requires SlotsWithinCapacity(slots, regs)
    requires forall s :: s in slots && s.id == row.timeSlotId ==> |RegistrationsOfSlot(regs, s.id)| < s.maxVolunteers
    ensures SlotsWithinCapacity(slots, regs + [row])
  {
    forall s | s in slots
      ensures |RegistrationsOfSlot(regs + [row], s.id)| <= s.maxVolunteers
    {
      RegistrationsOfSlotSnoc(regs, row, s.id);
    }
  }

  /** Sequentially, a legacy register keeps every slot within its `max_volunteers`. */
  lemma RegisterKeepsSlotCapacity(session: Option<Id>, users: seq<User>, slots: seq<TimeSlot>,
                                  regs: seq<Registration>, slotId: Id, storeFault: bool, newId: Id)
    requires SlotsWithinCapacity(slots, regs)
    ensures SlotsWithinCapacity(slots, Register(session, users, slots, regs, slotId, storeFault, newId).1)
  {
    var (res, regs') := Register(session, users, slots, regs, slotId, storeFault, newId);
    if res.success {
      var slot := Single(SlotsWithId(slots, slotId)).value;
      var row := Registration(newId, session.value, slotId, None, ProfileParish(session, users).value);
      assert regs' == regs + [row];
      assert WithCounts(slot, regs).availableSpots > 0;
      forall s | s in slots && s.id == slotId
        ensures |RegistrationsOfSlot(regs, s.id)| < s.maxVolunteers
      {
        assert s in SlotsWithId(slots, slotId);
        assert s == slot;
      }
      SnocKeepsSlotCapacity(slots, regs, row);
    }
  }

  /** A second registration of the same caller for the same slot is refused. */
  lemma RegisterTwiceRefused(session: Option<Id>, users: seq<User>, slots: seq<TimeSlot>, regs: seq<Registration>,
                             slotId: Id, newId: Id, fault: bool)
    requires Register(session, users, slots, regs, slotId, false, newId).0.success
    ensures !Register(session, users, slots, Register(session, users, slots, regs, slotId, false, newId).1,
                      slotId, fault, newId + 1).0.success
  {
    var regs' := Register(session, users, slots, regs, slotId, false, newId).1;
    var row := Registration(newId, session.value, slotId, None, ProfileParish(session, users).value);
    assert row in regs';
  }

  function WithoutUserSlot(regs: seq<Registration>, userId: Id, slotId: Id): (r: seq<Registration>)
    ensures forall x :: x in r <==> x in regs && !(x.userId == userId && x.timeSlotId == slotId)
  {
    Filter(regs, (x: Registration) => !(x.userId == userId && x.timeSlotId == slotId))
  }

  function Unregister(session: Option<Id>, regs: seq<Registration>, slotId: Id, storeFault: bool)
    : (ActionResult<()>, seq<Registration>)
  {
    if session.None? then (Fail(MsgUnauthorized), regs)
    else if storeFault then (Fail(MsgUnregisterFailed), regs)
    else (Succeed(None), WithoutUserSlot(regs, session.value, slotId))
  }

  method UnregisterVolunteerAction(db: Db, session: Option<Id>, slotId: Id, storeFault: bool)
    returns (r: ActionResult<()>)
    requires db.Valid()
    modifies db`registrations
    ensures db.Valid()
    ensures old(db.RolesWithinCapacity()) ==> db.RolesWithinCapacity()
    ensures (r, db.registrations) == Unregister(session, old(db.registrations), slotId, storeFault)
  {
    if session.None? {
      return Fail(MsgUnauthorized);
    }
    if storeFault {
      return Fail(MsgUnregisterFailed);
    }
    var keep := (x: Registration) => !(x.userId == session.value && x.timeSlotId == slotId);
    if db.RolesWithinCapacity() {
      DeleteKeepsCapacity(db.timeSlotRoles, db.registrations, (t: TimeSlotRole) => true, keep);
      FilterKeepsAll(db.timeSlotRoles, (t: TimeSlotRole) => true);
    }
    db.registrations := WithoutUserSlot(db.registrations, session.value, slotId);
    r := Succeed(None);
  }

  /** Unregister removes the caller's rows for the slot, whatever their
      slot-role, and keeps every other row in order. */
  lemma UnregisterRemovesOnlyCallerRows(session: Option<Id>, regs: seq<Registration>, slotId: Id)
    requires session.Some?
    ensures var (res, regs') := Unregister(session, regs, slotId, false);
      && res.success
      && (forall x :: x in regs' ==> !(x.userId == session.value && x.timeSlotId == slotId))
      && (forall x :: x in regs && !(x.userId == session.value && x.timeSlotId == slotId) ==> x in regs')
      && !InSlot(regs', session.value, slotId)
  {
  }
}
