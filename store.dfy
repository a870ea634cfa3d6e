/** The hosted database as an in-memory store: one sequence of rows per
    table, queried the way the server actions query it (filter by column,
    `.single()`, count, insert, delete), and the invariants every action
    keeps when actions run one after another. */
module Store {
  import opened Types

  // ---------------------------------------------------------------
  // Query building blocks
  // ---------------------------------------------------------------

  /** The rows of `s` that satisfy `p`, in table order (`.eq(...)` filters). */
  function Filter<T(!new)>(s: seq<T>, p: T -> bool): (r: seq<T>)
    ensures |r| <= |s|
    ensures forall x :: x in r <==> x in s && p(x)
    decreases |s|
  {
    if s == [] then []
    else Filter(s[..|s| - 1], p) + (if p(s[|s| - 1]) then [s[|s| - 1]] else [])
  }

  lemma {:induction false} FilterAppend<T(!new)>(a: seq<T>, b: seq<T>, p: T -> bool)
    ensures Filter(a + b, p) == Filter(a, p) + Filter(b, p)
    decreases |b|
  {
    if b == [] {
      assert a + b == a;
    } else {
      var b' := b[..|b| - 1];
      var last := if p(b[|b| - 1]) then [b[|b| - 1]] else [];
      assert (a + b)[..|a + b| - 1] == a + b';
      assert (a + b)[|a + b| - 1] == b[|b| - 1];
      calc {
        Filter(a + b, p);
        Filter(a + b', p) + last;
        { FilterAppend(a, b', p); }
        (Filter(a, p) + Filter(b', p)) + last;
        Filter(a, p) + (Filter(b', p) + last);
        Filter(a, p) + Filter(b, p);
      }
    }
  }

  /** Filtering keeps every row when every row passes. */
  lemma {:induction false} FilterKeepsAll<T(!new)>(s: seq<T>, p: T -> bool)
    requires forall x :: x in s ==> p(x)
    ensures Filter(s, p) == s
    decreases |s|
  {
    if s != [] {
      var pre := s[..|s| - 1];
      assert s == pre + [s[|s| - 1]];
      FilterKeepsAll(pre, p);
    }
  }

  /** Filtering drops every row when no row passes. */
  lemma {:induction false} FilterNone<T(!new)>(s: seq<T>, p: T -> bool)
    requires forall x :: x in s ==> !p(x)
    ensures Filter(s, p) == []
    decreases |s|
  {
    if s != [] {
      FilterNone(s[..|s| - 1], p);
    }
  }

  /** PostgREST's `.single()`: a row when exactly one row matched, else an error (None). */
  function Single<T>(s: seq<T>): (r: Option<T>)
    ensures r.Some? <==> |s| == 1
    ensures r.Some? ==> r.value in s
  {
    if |s| == 1 then Some(s[0]) else None
  }

  // ---------------------------------------------------------------
  // Lookups by key, one named query each
  // ---------------------------------------------------------------

  function UsersWithId(users: seq<User>, id: Id): seq<User>
  {
    Filter(users, (u: User) => u.id == id)
  }

  function ParishesWithId(parishes: seq<Parish>, id: Id): seq<Parish>
  {
    Filter(parishes, (p: Parish) => p.id == id)
  }

  /** `delete from parishes where id = id`: the rows that remain. */
  function ParishesWithout(parishes: seq<Parish>, id: Id): seq<Parish>
  {
    Filter(parishes, (p: Parish) => p.id != id)
  }

  function MinistriesWithId(ministries: seq<Ministry>, id: Id): seq<Ministry>
  {
    Filter(ministries, (m: Ministry) => m.id == id)
  }

  function MinistryRolesWithId(roles: seq<MinistryRole>, id: Id): seq<MinistryRole>
  {
    Filter(roles, (m: MinistryRole) => m.id == id)
  }

  function CoordinatorRows(coords: seq<MinistryCoordinator>, userId: Id, ministryId: Id): (r: seq<MinistryCoordinator>)
    ensures forall c :: c in r <==> c in coords && c.userId == userId && c.ministryId == ministryId
  {
    Filter(coords, (c: MinistryCoordinator) => c.userId == userId && c.ministryId == ministryId)
  }

  function ServicesWithId(services: seq<Service>, id: Id): seq<Service>
  {
    Filter(services, (s: Service) => s.id == id)
  }

  function SlotsWithId(slots: seq<TimeSlot>, id: Id): seq<TimeSlot>
  {
    Filter(slots, (s: TimeSlot) => s.id == id)
  }

  function SlotRolesWithId(tsrs: seq<TimeSlotRole>, id: Id): seq<TimeSlotRole>
  {
    Filter(tsrs, (t: TimeSlotRole) => t.id == id)
  }

  function AnnouncementsWithId(anns: seq<Announcement>, id: Id): seq<Announcement>
  {
    Filter(anns, (a: Announcement) => a.id == id)
  }

  /** `.from('registrations').select(count).eq('time_slot_role_id', t)`. */
  function Count(regs: seq<Registration>, t: Id): (n: nat)
    ensures n <= |regs|
    decreases |regs|
  {
    if regs == [] then 0
    else Count(regs[..|regs| - 1], t) + (if regs[|regs| - 1].timeSlotRoleId == Some(t) then 1 else 0)
  }

  lemma CountSnoc(regs: seq<Registration>, r: Registration, t: Id)
    ensures Count(regs + [r], t) == Count(regs, t) + (if r.timeSlotRoleId == Some(t) then 1 else 0)
  {
    assert (regs + [r])[..|regs + [r]| - 1] == regs;
  }

  /** Deleting registrations never raises a count. */
  lemma {:induction false} CountFilter(regs: seq<Registration>, p: Registration -> bool, t: Id)
    ensures Count(Filter(regs, p), t) <= Count(regs, t)
    decreases |regs|
  {
    if regs != [] {
      var pre := regs[..|regs| - 1];
      var last := regs[|regs| - 1];
      CountFilter(pre, p, t);
      if p(last) {
        CountSnoc(Filter(pre, p), last, t);
      } else {
        assert Filter(pre, p) + [] == Filter(pre, p);
      }
    }
  }

  /** No registration mentions role `t` at all, so its count is 0. */
  lemma {:induction false} CountAbsent(regs: seq<Registration>, t: Id)
    requires forall r :: r in regs ==> r.timeSlotRoleId != Some(t)
    ensures Count(regs, t) == 0
    decreases |regs|
  {
    if regs != [] {
      CountAbsent(regs[..|regs| - 1], t);
    }
  }

  // ---------------------------------------------------------------
  // Invariants the actions keep
  // ---------------------------------------------------------------

  /** Capacity: no time-slot-role holds more registrations than its quantity. */
  predicate WithinCapacity(tsrs: seq<TimeSlotRole>, regs: seq<Registration>)
  {
    forall t :: t in tsrs ==> Count(regs, t.id) <= t.quantity
  }

  /** The unique index on (user_id, time_slot_role_id): NULL roles never clash. */
  predicate OnePerUserAndRole(regs: seq<Registration>)
  {
    forall a, b ::
      (a in regs && b in regs && a.timeSlotRoleId.Some? &&
       a.userId == b.userId && a.timeSlotRoleId == b.timeSlotRoleId) ==> a == b
  }

  /** Registrations are never updated in place: a row of `after` either was
      already in `before` or has an id `before` never used. */
  predicate NoRowRewritten(before: seq<Registration>, after: seq<Registration>)
  {
    forall r :: r in after ==> r in before || forall q :: q in before ==> q.id != r.id
  }

  lemma AppendRewritesNothing(regs: seq<Registration>, r: Registration)
    requires forall q :: q in regs ==> q.id != r.id
    ensures NoRowRewritten(regs, regs + [r])
  {
  }

  lemma FilterRewritesNothing(regs: seq<Registration>, p: Registration -> bool)
    ensures NoRowRewritten(regs, Filter(regs, p))
  {
  }

  /** Ids are handed out from a counter; every id and every reference to a
      slot or slot-role in the store lies below it. */
  predicate IdsBelow(parishes: seq<Parish>, slots: seq<TimeSlot>, tsrs: seq<TimeSlotRole>,
                     regs: seq<Registration>, n: nat)
  {
    && (forall p :: p in parishes ==> p.id < n)
    && (forall s :: s in slots ==> s.id < n)
    && (forall t :: t in tsrs ==> t.id < n && t.timeSlotId < n)
    && (forall r :: r in regs ==>
          (r.id < n && r.timeSlotId < n && (r.timeSlotRoleId.Some? ==> r.timeSlotRoleId.value < n)))
  }

  /** Appending a registration whose (user, role) pair is free keeps the unique index. */
  lemma InsertKeepsOnePerUserAndRole(regs: seq<Registration>, r: Registration)
    requires OnePerUserAndRole(regs)
    requires forall q :: q in regs && q.userId == r.userId ==> q.timeSlotRoleId != r.timeSlotRoleId || r.timeSlotRoleId.None?
    ensures OnePerUserAndRole(regs + [r])
  {
  }

  /** Appending a registration to a role with a free vacancy keeps every
      role within capacity (the sequential capacity argument). */
  lemma InsertKeepsCapacity(tsrs: seq<TimeSlotRole>, regs: seq<Registration>, r: Registration)
    requires WithinCapacity(tsrs, regs)
    requires r.timeSlotRoleId.Some? ==>
      forall t :: t in tsrs && t.id == r.timeSlotRoleId.value ==> Count(regs, t.id) < t.quantity
    ensures WithinCapacity(tsrs, regs + [r])
  {
    forall t | t in tsrs
      ensures Count(regs + [r], t.id) <= t.quantity
    {
      CountSnoc(regs, r, t.id);
    }
  }

  /** Deleting registrations, or slot-roles, keeps every role within capacity. */
  lemma DeleteKeepsCapacity(tsrs: seq<TimeSlotRole>, regs: seq<Registration>,
                            keepRole: TimeSlotRole -> bool, keepReg: Registration -> bool)
    requires WithinCapacity(tsrs, regs)
    ensures WithinCapacity(Filter(tsrs, keepRole), Filter(regs, keepReg))
  {
    forall t | t in Filter(tsrs, keepRole)
      ensures Count(Filter(regs, keepReg), t.id) <= t.quantity
    {
      CountFilter(regs, keepReg, t.id);
    }
  }

  lemma DeleteKeepsOnePerUserAndRole(regs: seq<Registration>, keep: Registration -> bool)
    requires OnePerUserAndRole(regs)
    ensures OnePerUserAndRole(Filter(regs, keep))
  {
  }

  // ---------------------------------------------------------------
  // Deletions with the foreign-key cascade slot -> slot-roles, registrations
  // ---------------------------------------------------------------

  function SlotsOutside(slots: seq<TimeSlot>, ids: set<Id>): (r: seq<TimeSlot>)
    ensures forall s :: s in r <==> s in slots && s.id !in ids
  {
    Filter(slots, (s: TimeSlot) => s.id !in ids)
  }

  function SlotRolesOutside(tsrs: seq<TimeSlotRole>, ids: set<Id>): (r: seq<TimeSlotRole>)
    ensures forall t :: t in r <==> t in tsrs && t.timeSlotId !in ids
  {
    Filter(tsrs, (t: TimeSlotRole) => t.timeSlotId !in ids)
  }

  function RegistrationsOutside(regs: seq<Registration>, ids: set<Id>): (r: seq<Registration>)
    ensures forall x :: x in r <==> x in regs && x.timeSlotId !in ids
  {
    Filter(regs, (x: Registration) => x.timeSlotId !in ids)
  }

  /** The ids of the slots that belong to any of the given services. */
  function SlotIdsOfServices(slots: seq<TimeSlot>, serviceIds: set<Id>): (r: set<Id>)
    ensures forall s :: s in slots && s.serviceId in serviceIds ==> s.id in r
  {
    set s | s in slots && s.serviceId in serviceIds :: s.id
  }

  function ServiceIdsOfMinistry(services: seq<Service>, ministryId: Id): (r: set<Id>)
    ensures forall s :: s in services && s.ministryId == ministryId ==> s.id in r
  {
    set s | s in services && s.ministryId == ministryId :: s.id
  }

  // ---------------------------------------------------------------
  // The store
  // ---------------------------------------------------------------

  class Db {
    var parishes: seq<Parish>
    var users: seq<User>
    var ministries: seq<Ministry>
    var ministryRoles: seq<MinistryRole>
    var coordinators: seq<MinistryCoordinator>
    var services: seq<Service>
    var timeSlots: seq<TimeSlot>
    var timeSlotRoles: seq<TimeSlotRole>
    var registrations: seq<Registration>
    var announcements: seq<Announcement>
    /** The next id the store will hand out. */
    var nextId: nat
    /** The column default of `time_slots.max_volunteers` (the schema is not part of the model). */
    const maxVolunteersDefault: int

    /** What every action keeps: ids below the counter and the unique
        index on registrations. */
    ghost predicate Valid()
      reads this
    {
      && IdsBelow(parishes, timeSlots, timeSlotRoles, registrations, nextId)
      && OnePerUserAndRole(registrations)
    }

    /** No slot-role holds more registrations than its quantity. Every
        action keeps it except a register whose count query fails, which
        reads the count as 0 and may insert past the quantity. */
    ghost predicate RolesWithinCapacity()
      reads this
    {
      WithinCapacity(timeSlotRoles, registrations)
    }

    constructor (maxVolunteersDefault: int)
      ensures Valid() && RolesWithinCapacity()
      ensures this.maxVolunteersDefault == maxVolunteersDefault
      ensures parishes == [] && users == [] && ministries == [] && ministryRoles == []
      ensures coordinators == [] && services == [] && timeSlots == [] && timeSlotRoles == []
      ensures registrations == [] && announcements == [] && nextId == 0
    {
      this.maxVolunteersDefault := maxVolunteersDefault;
      parishes, users, ministries, ministryRoles := [], [], [], [];
      coordinators, services, timeSlots, timeSlotRoles := [], [], [], [];
      registrations, announcements, nextId := [], [], 0;
    }

    /** Hands out a fresh id. */
    method FreshId() returns (id: Id)
      requires Valid()
      modifies this`nextId
      ensures Valid()
      ensures id == old(nextId) && nextId == id + 1
    {
      id := nextId;
      nextId := nextId + 1;
    }

    /** `insert into parishes`: a new parish under a fresh id. */
    method InsertParish(name: string, slug: string, city: string, state: string) returns (parish: Parish)
      requires Valid()
      modifies this`parishes, this`nextId
      ensures Valid()
      ensures parish == Parish(old(nextId), name, slug, city, state)
      ensures parishes == old(parishes) + [parish] && nextId == old(nextId) + 1
    {
      parish := Parish(nextId, name, slug, city, state);
      parishes := parishes + [parish];
      nextId := nextId + 1;
    }

    /** `delete from parishes where id = id`. */
    method DeleteParish(id: Id)
      requires Valid()
      modifies this`parishes
      ensures Valid()
      ensures parishes == ParishesWithout(old(parishes), id)
    {
      parishes := ParishesWithout(parishes, id);
    }

    /** `insert into time_slots`: a new slot under a fresh id. */
    method InsertTimeSlot(serviceId: Id, parishId: Id, startTime: string, endTime: string, maxVolunteers: int)
      returns (slot: TimeSlot)
      requires Valid()
      modifies this`timeSlots, this`nextId
      ensures Valid()
      ensures slot == TimeSlot(old(nextId), serviceId, parishId, startTime, endTime, maxVolunteers)
      ensures timeSlots == old(timeSlots) + [slot] && nextId == old(nextId) + 1
    {
      slot := TimeSlot(nextId, serviceId, parishId, startTime, endTime, maxVolunteers);
      timeSlots := timeSlots + [slot];
      nextId := nextId + 1;
    }

    /** `insert into time_slot_roles`: vacancies of one ministry role in an
        existing slot. No registration refers to the fresh id yet, so the
        capacity invariant holds for any quantity of at least zero. */
    method InsertSlotRole(timeSlotId: Id, ministryRoleId: Id, quantity: int) returns (t: TimeSlotRole)
      requires Valid() && timeSlotId < nextId && quantity >= 0
      modifies this`timeSlotRoles, this`nextId
      ensures Valid()
      ensures old(RolesWithinCapacity()) ==> RolesWithinCapacity()
      ensures t == TimeSlotRole(old(nextId), timeSlotId, ministryRoleId, quantity)
      ensures timeSlotRoles == old(timeSlotRoles) + [t] && nextId == old(nextId) + 1
    {
      CountAbsent(registrations, nextId);
      t := TimeSlotRole(nextId, timeSlotId, ministryRoleId, quantity);
      timeSlotRoles := timeSlotRoles + [t];
      nextId := nextId + 1;
    }

    /** `delete from time_slots where id in ids`, with the cascade to the
        slots' slot-roles and registrations. */
    method DeleteSlots(ids: set<Id>)
      requires Valid()
      modifies this`timeSlots, this`timeSlotRoles, this`registrations
      ensures Valid()
      ensures old(RolesWithinCapacity()) ==> RolesWithinCapacity()
      ensures timeSlots == SlotsOutside(old(timeSlots), ids)
      ensures timeSlotRoles == SlotRolesOutside(old(timeSlotRoles), ids)
      ensures registrations == RegistrationsOutside(old(registrations), ids)
      ensures NoRowRewritten(old(registrations), registrations)
    {
      if RolesWithinCapacity() {
        DeleteKeepsCapacity(timeSlotRoles, registrations,
          (t: TimeSlotRole) => t.timeSlotId !in ids, (x: Registration) => x.timeSlotId !in ids);
      }
      timeSlots := SlotsOutside(timeSlots, ids);
      timeSlotRoles := SlotRolesOutside(timeSlotRoles, ids);
      registrations := RegistrationsOutside(registrations, ids);
    }
  }
}
