/** The parish dashboard (lib/actions/dashboard.ts): four counters whose
    failed queries read as 0, and the next services with their slot and
    registration totals. `today` is a parameter (the clock is not modelled). */
module Dashboard {
  import opened Types
  import opened Store
  import opened Auth
  import opened JsText
  import opened Services
  import opened LegacySlots

  const MsgUpcomingFailed: string := "Erro ao buscar próximos serviços."

  /** `.limit(5)` on the upcoming-services query. */
  const UpcomingLimit: nat := 5

  // ---------------------------------------------------------------
  // getDashboardStatsAction
  // ---------------------------------------------------------------

  /** The `count` of each head query; None when the query returned no count. */
  datatype Counts = Counts(volunteers: Option<nat>, ministries: Option<nat>, upcoming: Option<nat>, openSlots: Option<nat>)

  datatype DashboardStats = DashboardStats(totalVolunteers: nat, totalMinistries: nat, upcomingServices: nat, openSlots: nat)

  /** `count ?? 0`. */
  function OrZero(count: Option<nat>): nat
  {
    match count
    case Some(n) => n
    case None => 0
  }

  /** Only the session is checked; the counts are read as given. */
  function GetDashboardStats(session: Option<Id>, counts: Counts): ActionResult<DashboardStats>
  {
    if session.None? then Fail(MsgUnauthorized)
    else Succeed(Some(DashboardStats(OrZero(counts.volunteers), OrZero(counts.ministries),
                                     OrZero(counts.upcoming), OrZero(counts.openSlots))))
  }

  /** `date >= today` on ISO dates, which compare as strings. */
  function ServicesFrom(services: seq<Service>, today: string): (r: seq<Service>)
    ensures forall s :: s in r <==> s in services && !LexLess(s.date, today)
  {
    Filter(services, (s: Service) => !LexLess(s.date, today))
  }

  /** `time_slots_with_counts` rows with `available_spots > 0`. */
  function OpenSlots(slots: seq<TimeSlot>, regs: seq<Registration>): (r: seq<TimeSlot>)
    ensures forall t :: t in r <==> t in slots && WithCounts(t, regs).availableSpots > 0
  {
    Filter(slots, (t: TimeSlot) => WithCounts(t, regs).availableSpots > 0)
  }

  /** `.eq('role', 'VOLUNTEER')` on the users table. */
  function VolunteerUsers(users: seq<User>): (r: seq<User>)
    ensures |r| <= |users|
    ensures forall u :: u in r <==> u in users && u.role == Volunteer
  {
    Filter(users, (u: User) => u.role == Volunteer)
  }

  /** The four counts when every query answers; row-level security, which
      narrows each table to the caller's parish, is not modelled. */
  function StoreCounts(users: seq<User>, ministries: seq<Ministry>, services: seq<Service>,
                       slots: seq<TimeSlot>, regs: seq<Registration>, today: string): Counts
  {
    Counts(Some(|VolunteerUsers(users)|), Some(|ministries|),
           Some(|ServicesFrom(services, today)|), Some(|OpenSlots(slots, regs)|))
  }

  /** Without a session the stats fail; with one, each missing count is 0
      and each present count is shown as it is. */
  lemma StatsDefaultToZero(session: Option<Id>, counts: Counts)
    ensures var r := GetDashboardStats(session, counts);
      && (session.None? <==> !r.success)
      && (r.success ==>
            var d := r.data.value;
            && (counts.volunteers.None? ==> d.totalVolunteers == 0)
            && (counts.volunteers.Some? ==> d.totalVolunteers == counts.volunteers.value)
            && (counts.ministries.None? ==> d.totalMinistries == 0)
            && (counts.ministries.Some? ==> d.totalMinistries == counts.ministries.value)
            && (counts.upcoming.None? ==> d.upcomingServices == 0)
            && (counts.upcoming.Some? ==> d.upcomingServices == counts.upcoming.value)
            && (counts.openSlots.None? ==> d.openSlots == 0)
            && (counts.openSlots.Some? ==> d.openSlots == counts.openSlots.value))
  {
  }

  /** A slot counts as open exactly when it has fewer registrations than
      its `max_volunteers`; there are never more open slots than slots. */
  lemma OpenSlotsUnderCapacity(slots: seq<TimeSlot>, regs: seq<Registration>)
    ensures forall t :: t in OpenSlots(slots, regs) <==>
      t in slots && |RegistrationsOfSlot(regs, t.id)| < t.maxVolunteers
    ensures |OpenSlots(slots, regs)| <= |slots|
  {
  }

  /** With a session and every query answering, the stats count the
      volunteers, the ministries, the services dated today or later and the
      slots with room left; the volunteer counter is 0 exactly when no user
      is a volunteer, and the open-slot counter is 0 exactly when every slot
      is full. */
  lemma StatsFromStore(session: Option<Id>, users: seq<User>, ministries: seq<Ministry>, services: seq<Service>,
                       slots: seq<TimeSlot>, regs: seq<Registration>, today: string)
    requires session.Some?
    ensures var r := GetDashboardStats(session, StoreCounts(users, ministries, services, slots, regs, today));
      && r.success && r.data.Some?
      && var d := r.data.value;
      && d.totalVolunteers <= |users| && d.totalMinistries == |ministries|
      && d.upcomingServices <= |services| && d.openSlots <= |slots|
      && (d.totalVolunteers == 0 <==> forall u :: u in users ==> u.role != Volunteer)
      && (d.upcomingServices == 0 <==> forall s :: s in services ==> LexLess(s.date, today))
      && (d.openSlots == 0 <==> forall t :: t in slots ==> |RegistrationsOfSlot(regs, t.id)| >= t.maxVolunteers)
  {
    var vs := VolunteerUsers(users);
    if |vs| > 0 { assert vs[0] in vs; }
    var from := ServicesFrom(services, today);
    if |from| > 0 { assert from[0] in from; }
    var open := OpenSlots(slots, regs);
    OpenSlotsUnderCapacity(slots, regs);
    if |open| > 0 { assert open[0] in open; }
  }

  // ---------------------------------------------------------------
  // getUpcomingServicesAction
  // ---------------------------------------------------------------

  /** A slot as the nested select returns it: `max_volunteers` and the ids
      of its registrations (None when the list is missing). */
  datatype SlotSummary = SlotSummary(maxVolunteers: int, registrationIds: Option<seq<Id>>)

  /** A service as the nested select returns it. */
  datatype ServiceSummaryRow = ServiceSummaryRow(
    id: Id, date: string, ministryName: Option<string>, timeSlots: Option<seq<SlotSummary>>)

  datatype UpcomingService = UpcomingService(id: Id, date: string, ministryName: string, totalSlots: int, filledSlots: nat)

  /** `slots.reduce((acc, slot) => acc + slot.max_volunteers, 0)`. */
  function TotalSlots(slots: seq<SlotSummary>): int
  {
    if slots == [] then 0 else TotalSlots(slots[..|slots| - 1]) + slots[|slots| - 1].maxVolunteers
  }

  /** `registrations?.length ?? 0`. */
  function RegistrationCount(slot: SlotSummary): nat
  {
    match slot.registrationIds
    case Some(ids) => |ids|
    case None => 0
  }

  /** `slots.reduce((acc, slot) => acc + (slot.registrations?.length ?? 0), 0)`. */
  function FilledSlots(slots: seq<SlotSummary>): nat
  {
    if slots == [] then 0 else FilledSlots(slots[..|slots| - 1]) + RegistrationCount(slots[|slots| - 1])
  }

  function OrEmpty<T>(list: Option<seq<T>>): seq<T>
  {
    match list
    case Some(xs) => xs
    case None => []
  }

  /** The map callback of getUpcomingServicesAction. */
  function Summarize(row: ServiceSummaryRow): UpcomingService
  {
    var slots := OrEmpty(row.timeSlots);
    UpcomingService(row.id, row.date, if row.ministryName.Some? then row.ministryName.value else "",
                    TotalSlots(slots), FilledSlots(slots))
  }

  function GetUpcomingServices(rows: Option<seq<ServiceSummaryRow>>, queryFault: bool)
    : ActionResult<seq<UpcomingService>>
  {
    if queryFault then Fail(MsgUpcomingFailed)
    else
      var xs := OrEmpty(rows);
      Succeed(Some(seq(|xs|, i requires 0 <= i < |xs| => Summarize(xs[i]))))
  }

  /** Both totals add up over a split of the slot list. */
  lemma {:induction false} TotalsAppend(a: seq<SlotSummary>, b: seq<SlotSummary>)
    ensures TotalSlots(a + b) == TotalSlots(a) + TotalSlots(b)
    ensures FilledSlots(a + b) == FilledSlots(a) + FilledSlots(b)
    decreases |b|
  {
    if b == [] {
      assert a + b == a;
    } else {
      var b' := b[..|b| - 1];
      assert (a + b)[..|a + b| - 1] == a + b';
      TotalsAppend(a, b');
    }
  }

  /** One entry per fetched row, in order, with the row's id and date, the
      ministry name or "", and 0 and 0 for a service without slots; a
      missing list gives no entries. */
  lemma UpcomingShape(rows: Option<seq<ServiceSummaryRow>>, queryFault: bool)
    ensures var r := GetUpcomingServices(rows, queryFault);
      && (queryFault <==> !r.success)
      && (r.success ==>
            var out := r.data.value;
            var xs := OrEmpty(rows);
            && |out| == |xs|
            && (rows.None? ==> out == [])
            && forall i :: 0 <= i < |xs| ==>
                 && out[i].id == xs[i].id && out[i].date == xs[i].date
                 && (xs[i].ministryName.None? ==> out[i].ministryName == "")
                 && (xs[i].ministryName.Some? ==> out[i].ministryName == xs[i].ministryName.value)
                 && (OrEmpty(xs[i].timeSlots) == [] ==> out[i].totalSlots == 0 && out[i].filledSlots == 0))
  {
  }

  // The query behind the rows: services from today on, each with its
  // ministry's name and its slots with their registrations, at most five.
  // `.order('date')` is not modelled: rows come in table order.

  function Ids(regs: seq<Registration>): (r: seq<Id>)
    ensures |r| == |regs|
  {
    seq(|regs|, i requires 0 <= i < |regs| => regs[i].id)
  }

  function SummaryOfSlot(slot: TimeSlot, regs: seq<Registration>): SlotSummary
  {
    SlotSummary(slot.maxVolunteers, Some(Ids(RegistrationsOfSlot(regs, slot.id))))
  }

  function SummariesOf(slots: seq<TimeSlot>, regs: seq<Registration>): (r: seq<SlotSummary>)
    ensures |r| == |slots|
  {
    seq(|slots|, i requires 0 <= i < |slots| => SummaryOfSlot(slots[i], regs))
  }

  /** The embedded `ministries(name)`: the name of the one ministry with the id, if any. */
  function MinistryName(ministries: seq<Ministry>, id: Id): Option<string>
  {
    match Single(MinistriesWithId(ministries, id))
    case Some(m) => Some(m.name)
    case None => None
  }

  function RowOf(s: Service, ministries: seq<Ministry>, slots: seq<TimeSlot>, regs: seq<Registration>)
    : ServiceSummaryRow
  {
    ServiceSummaryRow(s.id, s.date, MinistryName(ministries, s.ministryId),
                      Some(SummariesOf(SlotsOfService(slots, s.id), regs)))
  }

  /** `.gte('date', today).limit(5)`: the first five services dated today or later. */
  function UpcomingServiceRows(services: seq<Service>, today: string): (r: seq<Service>)
    ensures |r| <= UpcomingLimit && |r| <= |ServicesFrom(services, today)|
    ensures r == ServicesFrom(services, today)[..|r|]
    ensures forall s :: s in r ==> s in services && !LexLess(s.date, today)
    ensures |ServicesFrom(services, today)| >= UpcomingLimit ==> |r| == UpcomingLimit
  {
    var from := ServicesFrom(services, today);
    if |from| <= UpcomingLimit then from else from[..UpcomingLimit]
  }

  /** The rows the nested select returns for the upcoming services. */
  function UpcomingRows(services: seq<Service>, ministries: seq<Ministry>, slots: seq<TimeSlot>,
                        regs: seq<Registration>, today: string): (r: seq<ServiceSummaryRow>)
    ensures |r| == |UpcomingServiceRows(services, today)|
  {
    var taken := UpcomingServiceRows(services, today);
    seq(|taken|, i requires 0 <= i < |taken| => RowOf(taken[i], ministries, slots, regs))
  }

  /** Registrations on a set of slots plus one more slot split into the two parts. */
  lemma {:induction false} RegistrationsOfSlotsAdd(regs: seq<Registration>, ids: set<Id>, id: Id)
    requires id !in ids
    ensures |RegistrationsOfSlots(regs, ids + {id})| ==
            |RegistrationsOfSlots(regs, ids)| + |RegistrationsOfSlot(regs, id)|
    decreases |regs|
  {
    if regs != [] {
      RegistrationsOfSlotsAdd(regs[..|regs| - 1], ids, id);
    }
  }

  predicate DistinctSlotIds(slots: seq<TimeSlot>)
  {
    forall i, j :: 0 <= i < j < |slots| ==> slots[i].id != slots[j].id
  }

  /** With distinct slot ids, `filled_slots` of a list of slots is the
      number of registrations on those slots. */
  lemma {:induction false} FilledIsRegistrationCount(slots: seq<TimeSlot>, regs: seq<Registration>)
    requires DistinctSlotIds(slots)
    ensures FilledSlots(SummariesOf(slots, regs)) == |RegistrationsOfSlots(regs, SlotIds(slots))|
    decreases |slots|
  {
    if slots == [] {
      FilterNone(regs, (x: Registration) => x.timeSlotId in SlotIds(slots));
    } else {
      var pre := slots[..|slots| - 1];
      var last := slots[|slots| - 1];
      FilledIsRegistrationCount(pre, regs);
      assert SummariesOf(slots, regs)[..|slots| - 1] == SummariesOf(pre, regs);
      assert SlotIds(slots) == SlotIds(pre) + {last.id} by {
        assert slots == pre + [last];
      }
      assert last.id !in SlotIds(pre);
      RegistrationsOfSlotsAdd(regs, SlotIds(pre), last.id);
    }
  }

  /** For a service's row built from the store (slot ids unique), the
      dashboard's `filled_slots` is the number of registrations on that
      service's slots. */
  lemma UpcomingFilledMatchesStore(s: Service, ministries: seq<Ministry>, slots: seq<TimeSlot>,
                                   regs: seq<Registration>)
    requires DistinctSlotIds(SlotsOfService(slots, s.id))
    ensures Summarize(RowOf(s, ministries, slots, regs)).filledSlots ==
            |RegistrationsOfSlots(regs, SlotIds(SlotsOfService(slots, s.id)))|
  {
    FilledIsRegistrationCount(SlotsOfService(slots, s.id), regs);
  }

  /** The upcoming list built from the store: as many entries as there are
      services dated today or later, up to five (the same services the
      dashboard's `upcomingServices` counter counts), each a service of the
      store dated today or later, whose `filled_slots` is the number of
      registrations on that service's slots when their ids are distinct. */
  lemma UpcomingFromStore(services: seq<Service>, ministries: seq<Ministry>, slots: seq<TimeSlot>,
                          regs: seq<Registration>, today: string)
    ensures var r := GetUpcomingServices(Some(UpcomingRows(services, ministries, slots, regs, today)), false);
      && r.success && r.data.Some?
      && var out := r.data.value;
      && var from := ServicesFrom(services, today);
      && |out| == (if |from| < UpcomingLimit then |from| else UpcomingLimit)
      && forall i :: 0 <= i < |out| ==>
           && (exists s :: s in services && s.id == out[i].id && s.date == out[i].date)
           && !LexLess(out[i].date, today)
           && (DistinctSlotIds(SlotsOfService(slots, out[i].id)) ==>
                 out[i].filledSlots == |RegistrationsOfSlots(regs, SlotIds(SlotsOfService(slots, out[i].id)))|)
  {
    var taken := UpcomingServiceRows(services, today);
    var rows := UpcomingRows(services, ministries, slots, regs, today);
    var out := GetUpcomingServices(Some(rows), false).data.value;
    forall i | 0 <= i < |out|
      ensures exists s :: s in services && s.id == out[i].id && s.date == out[i].date
      ensures !LexLess(out[i].date, today)
      ensures DistinctSlotIds(SlotsOfService(slots, out[i].id)) ==>
                out[i].filledSlots == |RegistrationsOfSlots(regs, SlotIds(SlotsOfService(slots, out[i].id)))|
    {
      var s := taken[i];
      assert s in taken;
      assert rows[i] == RowOf(s, ministries, slots, regs);
      assert out[i] == Summarize(rows[i]);
      if DistinctSlotIds(SlotsOfService(slots, s.id)) {
        UpcomingFilledMatchesStore(s, ministries, slots, regs);
      }
    }
  }
}
