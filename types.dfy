/** The enums, table rows, update shapes and the action result envelope of
    the parish volunteer-scheduling database (types/database.ts). */
module Types {

  /** Primary keys. The database hands out opaque uuids; the model hands out
      natural numbers (see Store.Db.nextId). */
  type Id = nat

  datatype Option<+T> = None | Some(value: T)

  // ---------------------------------------------------------------
  // Enums
  // ---------------------------------------------------------------

  datatype UserRole = SuperAdmin | AdminParish | Coordinator | Volunteer

  datatype UserStatus = Pending | Approved | Rejected

  /** The role names as the `user_role` enum stores them. */
  function RoleName(r: UserRole): string
  {
    match r
    case SuperAdmin => "SUPER_ADMIN"
    case AdminParish => "ADMIN_PARISH"
    case Coordinator => "COORDINATOR"
    case Volunteer => "VOLUNTEER"
  }

  /** Reading a stored role name back; any other text is not a role. */
  function ParseRole(s: string): (r: Option<UserRole>)
    ensures r.Some? ==> RoleName(r.value) == s
  {
    if s == "SUPER_ADMIN" then Some(SuperAdmin)
    else if s == "ADMIN_PARISH" then Some(AdminParish)
    else if s == "COORDINATOR" then Some(Coordinator)
    else if s == "VOLUNTEER" then Some(Volunteer)
    else None
  }

  lemma ParseRoleName(r: UserRole)
    ensures ParseRole(RoleName(r)) == Some(r)
  {
  }

  function StatusName(s: UserStatus): string
  {
    match s
    case Pending => "PENDING"
    case Approved => "APPROVED"
    case Rejected => "REJECTED"
  }

  function ParseStatus(s: string): (r: Option<UserStatus>)
    ensures r.Some? ==> StatusName(r.value) == s
  {
    if s == "PENDING" then Some(Pending)
    else if s == "APPROVED" then Some(Approved)
    else if s == "REJECTED" then Some(Rejected)
    else None
  }

  lemma ParseStatusName(s: UserStatus)
    ensures ParseStatus(StatusName(s)) == Some(s)
  {
  }

  /** Every role is one of exactly four, pairwise distinct, names. */
  lemma FourRoles(r: UserRole)
    ensures r in {SuperAdmin, AdminParish, Coordinator, Volunteer}
    ensures |{RoleName(SuperAdmin), RoleName(AdminParish), RoleName(Coordinator), RoleName(Volunteer)}| == 4
  {
    var names := [RoleName(SuperAdmin), RoleName(AdminParish), RoleName(Coordinator), RoleName(Volunteer)];
    assert names[0][0] == 'S' && names[1][0] == 'A' && names[2][0] == 'C' && names[3][0] == 'V';
  }

  /** Every status is one of exactly three, pairwise distinct, names. */
  lemma ThreeStatuses(s: UserStatus)
    ensures s in {Pending, Approved, Rejected}
    ensures |{StatusName(Pending), StatusName(Approved), StatusName(Rejected)}| == 3
  {
    assert StatusName(Pending)[0] == 'P' && StatusName(Approved)[0] == 'A' && StatusName(Rejected)[0] == 'R';
  }

  // ---------------------------------------------------------------
  // Table rows (creation timestamps are not modelled)
  // ---------------------------------------------------------------

  datatype Parish = Parish(id: Id, name: string, slug: string, city: string, state: string)

  datatype User = User(
    id: Id,
    name: string,
    email: string,
    role: UserRole,
    parishId: Option<Id>,
    ministryPreferenceId: Option<Id>,
    status: Option<UserStatus>)

  datatype Ministry = Ministry(id: Id, name: string, description: Option<string>, parishId: Id)

  datatype MinistryRole = MinistryRole(id: Id, ministryId: Id, name: string, sortOrder: int)

  datatype MinistryCoordinator = MinistryCoordinator(id: Id, userId: Id, ministryId: Id)

  datatype Service = Service(id: Id, ministryId: Id, parishId: Id, date: string, description: Option<string>)

  /** `maxVolunteers` is the `max_volunteers` column that the per-slot
      (legacy) actions write and the dashboard reads. */
  datatype TimeSlot = TimeSlot(
    id: Id,
    serviceId: Id,
    parishId: Id,
    startTime: string,
    endTime: string,
    maxVolunteers: int)

  datatype TimeSlotRole = TimeSlotRole(id: Id, timeSlotId: Id, ministryRoleId: Id, quantity: int)

  /** Rows written by the per-slot actions carry no time-slot-role. */
  datatype Registration = Registration(
    id: Id,
    userId: Id,
    timeSlotId: Id,
    timeSlotRoleId: Option<Id>,
    parishId: Id)

  datatype Announcement = Announcement(id: Id, ministryId: Id, createdBy: Id, title: string, content: string)

  /** The resolved caller: the session's user id plus the profile's parish and role. */
  datatype AuthContext = AuthContext(userId: Id, parishId: Option<Id>, role: UserRole)

  // ---------------------------------------------------------------
  // The server-action envelope
  // ---------------------------------------------------------------

  datatype ActionResult<+T> = ActionResult(success: bool, data: Option<T>, error: Option<string>)

  function Succeed<T>(data: Option<T>): (r: ActionResult<T>)
    ensures r.success && r.error.None? && r.data == data
  {
    ActionResult(true, data, None)
  }

  function Fail<T>(message: string): (r: ActionResult<T>)
    ensures !r.success && r.data.None? && r.error == Some(message)
  {
    ActionResult(false, None, Some(message))
  }

  /** The outcome of an action's guards: the values the writes need, or the
      message of the first guard that failed. */
  datatype Checked<+T> = Accepted(value: T) | Refused(message: string)

  // ---------------------------------------------------------------
  // Update shapes: which columns each table lets an update write.
  // A field set to None leaves the column as it is. Registrations have
  // no update shape at all: they are only inserted and deleted.
  // ---------------------------------------------------------------

  datatype UserUpdate = UserUpdate(
    name: Option<string>,
    email: Option<string>,
    role: Option<UserRole>,
    parishId: Option<Option<Id>>,
    ministryPreferenceId: Option<Option<Id>>,
    status: Option<Option<UserStatus>>)

  datatype MinistryUpdate = MinistryUpdate(name: Option<string>, description: Option<Option<string>>)

  datatype MinistryRoleUpdate = MinistryRoleUpdate(name: Option<string>, sortOrder: Option<int>)

  datatype ServiceUpdate = ServiceUpdate(
    ministryId: Option<Id>,
    date: Option<string>,
    description: Option<Option<string>>)

  datatype TimeSlotUpdate = TimeSlotUpdate(
    serviceId: Option<Id>,
    startTime: Option<string>,
    endTime: Option<string>,
    maxVolunteers: Option<int>)

  datatype TimeSlotRoleUpdate = TimeSlotRoleUpdate(quantity: Option<int>)

  function Pick<T>(update: Option<T>, current: T): T
  {
    match update
    case Some(v) => v
    case None => current
  }

  function ApplyUserUpdate(u: User, d: UserUpdate): (r: User)
    ensures r.id == u.id
    ensures d.role.Some? ==> r.role == d.role.value
  {
    User(u.id, Pick(d.name, u.name), Pick(d.email, u.email), Pick(d.role, u.role),
         Pick(d.parishId, u.parishId), Pick(d.ministryPreferenceId, u.ministryPreferenceId),
         Pick(d.status, u.status))
  }

  function ApplyMinistryUpdate(m: Ministry, d: MinistryUpdate): (r: Ministry)
    ensures r.id == m.id && r.parishId == m.parishId
    ensures d.name.Some? ==> r.name == d.name.value
    ensures d.description.Some? ==> r.description == d.description.value
  {
    m.(name := Pick(d.name, m.name), description := Pick(d.description, m.description))
  }

  function ApplyMinistryRoleUpdate(m: MinistryRole, d: MinistryRoleUpdate): (r: MinistryRole)
    ensures r.id == m.id && r.ministryId == m.ministryId
    ensures d.name.Some? ==> r.name == d.name.value
  {
    m.(name := Pick(d.name, m.name), sortOrder := Pick(d.sortOrder, m.sortOrder))
  }

  function ApplyServiceUpdate(s: Service, d: ServiceUpdate): (r: Service)
    ensures r.id == s.id && r.parishId == s.parishId
    ensures d.date.Some? ==> r.date == d.date.value
  {
    s.(ministryId := Pick(d.ministryId, s.ministryId), date := Pick(d.date, s.date),
       description := Pick(d.description, s.description))
  }

  function ApplyTimeSlotUpdate(t: TimeSlot, d: TimeSlotUpdate): (r: TimeSlot)
    ensures r.id == t.id && r.parishId == t.parishId
    ensures d.startTime.Some? ==> r.startTime == d.startTime.value
  {
    t.(serviceId := Pick(d.serviceId, t.serviceId), startTime := Pick(d.startTime, t.startTime),
       endTime := Pick(d.endTime, t.endTime), maxVolunteers := Pick(d.maxVolunteers, t.maxVolunteers))
  }

  /** A time-slot-role update may change the vacancy count only. */
  function ApplyTimeSlotRoleUpdate(t: TimeSlotRole, d: TimeSlotRoleUpdate): (r: TimeSlotRole)
    ensures r.id == t.id && r.timeSlotId == t.timeSlotId && r.ministryRoleId == t.ministryRoleId
    ensures r.quantity == Pick(d.quantity, t.quantity)
  {
    t.(quantity := Pick(d.quantity, t.quantity))
  }

  /** An update never moves a ministry, service or time slot to another parish,
      however many updates are applied in a row. */
  lemma {:induction false} UpdatesKeepParish(m: Ministry, ms: seq<MinistryUpdate>)
    ensures FoldMinistryUpdates(m, ms).parishId == m.parishId
    ensures FoldMinistryUpdates(m, ms).id == m.id
    decreases |ms|
  {
    if ms != [] {
      UpdatesKeepParish(ApplyMinistryUpdate(m, ms[0]), ms[1..]);
    }
  }

  function FoldMinistryUpdates(m: Ministry, ms: seq<MinistryUpdate>): Ministry
    decreases |ms|
  {
    if ms == [] then m else FoldMinistryUpdates(ApplyMinistryUpdate(m, ms[0]), ms[1..])
  }
}
