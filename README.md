# Servos: a verified model of the parish volunteer-scheduling core

Servos lets a parish organise its ministries. A ministry publishes service
dates. Each date has time slots, and each slot offers a number of vacancies
per ministry role. Volunteers sign up for those vacancies. This project
models the server-side domain layer of that application in Dafny and proves
what each action promises. The layer consists of the server actions, the
authorisation helpers, the route guards and the pure helpers.

The hosted database is an in-memory store, `Store.Db`. It is a class with
one sequence of rows per table: parishes, users, ministries, ministry roles,
coordinators, services, time slots, time-slot roles, registrations and
announcements. It also has an id counter that stands for uuid generation.
`Db.Valid()` is the store invariant. It says that ids lie below the counter
and that no user holds two registrations for one role (the unique index
behind the `23505` answer). Every action keeps it. Capacity is a separate
predicate, `Db.RolesWithinCapacity()`: no time-slot role holds more
registrations than its quantity. Every action keeps capacity except one.
When the count query of a register fails, the source reads the count as 0
and inserts anyway, which can overfill a role
(`Registrations.CountFaultOverfills`).

Each state-changing server action is a method on the store. Each such method
is proved against a pure transition function over the old tables, so its
`ensures` gives the exact new tables and the `ActionResult` envelope. The
lemmas about those transition functions state the properties: which
failures leave the store unchanged, which rows a success adds, deletes or
rewrites, the order of the guards, and the invariants kept.

Things outside the program are parameters of the model:
- the signed-in session (`Option<Id>`);
- the authentication service's answer to `signUp`;
- "today";
- a store error in each write (the `storeFault`, `slotFault` and `parishFault` flags and the per-entry `faults` of the vacancy loop), in the slot and registration fetches of the service detail (`slotsFault`, `regsFault`) and in the upcoming-services query (`queryFault`);
- a failed count query in a register, which the source reads as 0 (a `countFault` flag);
- a failed compensating delete, whose error the source discards (a `rollbackFault` flag);
- the `canAccessMinistry` helper, which `lib/auth.ts` imports but does not define.

Modules, one per source file:
- `Types`: types/database.ts.
- `Store`: the tables, `.single()`, filters and cascades.
- `Auth`: lib/auth.ts.
- `JsText`: the JavaScript string operations used: `trim`, `startsWith`, string `<` and `parseInt`.
- `Registrations`: lib/actions/registrations.ts.
- `TimeSlots`: lib/actions/time-slots.ts.
- `Services` and `LegacySlots`: lib/actions/services.ts.
- `Ministries`, `Volunteers`, `Announcements`: the actions of the same names.
- `Signup`: lib/actions/auth.ts.
- `Dashboard`: lib/actions/dashboard.ts.
- `Utils`: lib/utils.ts.
- `Routing`, `Middleware`, `Proxy`: middleware.ts and proxy.ts.

Where the comments in the source and the code disagree, the model follows
the code:
- `updateMinistryAction` and `deleteMinistryAction` perform no permission check of their own.
- `updateUserRoleAction` does not compare the parishes of the caller and the target.
- proxy.ts treats only /login and /register as public pages.

## Model

| member | source | states |
|---|---|---|
| Types.ParseRoleName | types/database.ts:5 | reading back a role's stored name gives that role |
| Types.ParseStatusName | types/database.ts:7 | reading back a status's stored name gives that status |
| Types.ParseRole | types/database.ts:5 | a role read from text is one whose stored name is that text |
| Types.FourRoles | types/database.ts:5 | every role is one of four, with four distinct stored names |
| Types.ThreeStatuses | types/database.ts:7 | every status is one of three, with three distinct stored names |
| Types.Succeed | types/database.ts:182-186 | a success envelope: `success`, the data, no error |
| Types.Fail | types/database.ts:182-186 | a failure envelope: not `success`, no data, the message |
| Types.ApplyUserUpdate | types/database.ts:237 | a user update never changes the id, and sets the role when it gives one |
| Types.ApplyMinistryUpdate | types/database.ts:242 | a ministry update keeps the id and the parish, and writes the name and description it gives |
| Types.ApplyMinistryRoleUpdate | types/database.ts:247 | a ministry-role update keeps the id and the ministry |
| Types.ApplyServiceUpdate | types/database.ts:252 | a service update keeps the id and the parish |
| Types.ApplyTimeSlotUpdate | types/database.ts:257 | a time-slot update keeps the id and the parish |
| Types.ApplyTimeSlotRoleUpdate | types/database.ts:262 | a time-slot-role update keeps the id, the slot and the ministry role, and changes only the quantity |
| Types.UpdatesKeepParish | types/database.ts:242 | any number of ministry updates in a row keep the id and the parish |
| Store.Filter | lib/actions/registrations.ts:68-72 | an `.eq` filter keeps exactly the rows that match, and never more rows than the table |
| Store.FilterAppend | lib/actions/registrations.ts:68-72 | filtering distributes over concatenation |
| Store.FilterKeepsAll | lib/actions/registrations.ts:68-72 | a delete that matches no row keeps the table as it is |
| Store.FilterNone | lib/actions/registrations.ts:20-24 | a lookup that matches no row gives no rows |
| Store.Single | lib/auth.ts:19 | `.single()` gives a row exactly when one row matched, and that row is from the table |
| Store.Count | lib/actions/registrations.ts:30-33 | the exact count of registrations for a role never exceeds the table size |
| Store.CountSnoc | lib/actions/registrations.ts:39-48 | an insert raises the count of its own role by one and leaves the other roles' counts as they were |
| Store.CountFilter | lib/actions/registrations.ts:68-72 | deleting registrations never raises a count |
| Store.CountAbsent | lib/actions/registrations.ts:30-35 | a role that no registration mentions counts 0 |
| Store.AppendRewritesNothing | types/database.ts:267 | an insert rewrites no registration row |
| Store.FilterRewritesNothing | types/database.ts:267 | a delete rewrites no registration row |
| Store.InsertKeepsOnePerUserAndRole | lib/actions/registrations.ts:50-53 | inserting a free (user, role) pair keeps the unique index |
| Store.InsertKeepsCapacity | lib/actions/registrations.ts:35-48 | inserting into a role with a free vacancy keeps every role within its quantity |
| Store.DeleteKeepsCapacity | lib/actions/registrations.ts:68-72 | deleting registrations or slot-roles keeps every role within its quantity |
| Store.DeleteKeepsOnePerUserAndRole | lib/actions/registrations.ts:68-72 | deleting registrations keeps the unique index |
| Store.SlotsOutside | lib/actions/services.ts:151 | the slots left after deleting the given slot ids |
| Store.SlotRolesOutside | lib/actions/services.ts:151 | the slot-roles left after the cascade from deleted slots |
| Store.RegistrationsOutside | lib/actions/services.ts:151 | the registrations left after the cascade from deleted slots |
| Store.SlotIdsOfServices | lib/actions/services.ts:151 | every slot of a deleted service is among the cascaded slot ids |
| Store.ServiceIdsOfMinistry | lib/actions/ministries.ts:109 | every service of a deleted ministry is among the cascaded service ids |
| Store.Db.FreshId | types/database.ts:231 | hands out the counter's value as a new id and advances the counter |
| Store.Db.InsertTimeSlot | lib/actions/time-slots.ts:61-70 | appends exactly one slot row under a fresh id |
| Store.Db.InsertParish | lib/actions/auth.ts:66-70 | appends exactly one parish row under a fresh id and keeps the invariant |
| Store.Db.DeleteParish | lib/actions/auth.ts:94 | removes exactly the rows with the id and keeps the invariant |
| Store.Db.InsertSlotRole | lib/actions/time-slots.ts:88-94 | appends exactly one vacancy row under a fresh id |
| Store.Db.DeleteSlots | lib/actions/time-slots.ts:134 | deletes the slots, their slot-roles and their registrations, and nothing else, keeping the invariant |
| Auth.GetAuthenticatedUser | lib/auth.ts:9-28 | no session gives null; otherwise a context exactly when one profile row exists, with the session id and the row's parish and role |
| Auth.Profile | lib/auth.ts:15-21 | the caller's single profile row, present exactly when the context is |
| Auth.ProfileParish | lib/auth.ts:21-25 | the caller's parish, present exactly when there is a context with a parish |
| Auth.FilterSingleton | lib/auth.ts:19 | a table with exactly one matching row filters to that row |
| Auth.NoProfileNoContext | lib/auth.ts:21 | with no profile row the context is null |
| Auth.ProfileGivesContext | lib/auth.ts:23-27 | a unique profile row gives the context (session id, the row's parish, the row's role) |
| Auth.CanManageMinistryScales | lib/auth.ts:35-51 | false without a context; true for SUPER_ADMIN; otherwise true exactly when one coordinator row for (user, ministry) exists |
| Auth.ManageIffCoordinator | lib/auth.ts:42-50 | for a role other than SUPER_ADMIN, and with unique grants, managing is possible iff a coordinator row exists, so ADMIN_PARISH alone is not enough |
| Auth.DuplicateGrantDenies | lib/auth.ts:48-50 | in any table, two or more coordinator rows for the same pair make `.maybeSingle()` fail, and the answer is false for anyone but SUPER_ADMIN |
| JsText.TrimStart | lib/actions/ministries.ts:60 | removes exactly the leading white space |
| JsText.TrimEnd | lib/actions/ministries.ts:60 | removes exactly the trailing white space |
| JsText.Trim | lib/actions/ministries.ts:60 | the result neither starts nor ends with white space |
| JsText.BlankIffAllSpace | lib/actions/ministries.ts:36-38 | `!name?.trim()` holds exactly for all-white-space names |
| JsText.IsBlank | lib/actions/ministries.ts:36-38 | `!s.trim()`; stated by BlankIffAllSpace |
| JsText.TrimIdempotent | lib/actions/ministries.ts:60 | trimming twice equals trimming once |
| JsText.TrimOrNull | lib/actions/services.ts:138 | `trim() \|\| null`: null exactly for a missing or blank field, otherwise the non-empty trimmed text |
| JsText.StartsWith | middleware.ts:39 | `startsWith`: the prefix test; stated by Routing.StartsWithAnyExists and Routing.DifferAt |
| JsText.LexLess | lib/actions/time-slots.ts:29-31 | string `<`; stated by LexTrichotomy and LexTransitive |
| JsText.LexTrichotomy | lib/actions/time-slots.ts:29-31 | string `<` is a strict total order, and `t < t` never holds |
| JsText.LexTransitive | lib/actions/time-slots.ts:29-31 | string `<` is transitive |
| JsText.DigitValue | lib/actions/services.ts:178 | the value of a digit character, below 10 exactly for decimal digits |
| JsText.DigitPrefix | lib/actions/services.ts:178 | the longest digit prefix that `parseInt` reads |
| JsText.ParseUnsigned | lib/actions/services.ts:178 | a number is read only when some digit is present |
| JsText.ParseInt | lib/actions/services.ts:178 | `parseInt` gives NaN (None) unless the text holds a digit |
| JsText.DecimalString | lib/actions/services.ts:178 | `String(n)`: decimal digits with no leading zero |
| JsText.DecimalDigitsValue | lib/actions/services.ts:178 | the digits of `String(n)` denote n |
| JsText.DigitPrefixAll | lib/actions/services.ts:178 | an all-digit text is read to its end |
| JsText.ParseUnsignedDecimal | lib/actions/services.ts:178 | the unsigned reading of `String(n)` is n |
| JsText.ParseIntDecimal | lib/actions/services.ts:178 | `parseInt(String(n)) === n` |
| JsText.ParseIntNegative | lib/actions/services.ts:178 | `parseInt("-" + String(n)) === -n` |
| Registrations.SlotRoleWithSlot | lib/actions/registrations.ts:20-24 | the inner join gives the unique slot-role with the id and its slot |
| Registrations.WithoutUserRole | lib/actions/registrations.ts:68-72 | keeps exactly the rows that are not the caller's for that role |
| Registrations.RegisterVolunteer | lib/actions/registrations.ts:12-59 | the action's result and new table are the transition's; the unique index holds after, and capacity holds after unless the count query failed; one id is used exactly on success; no row is rewritten |
| Registrations.UnregisterVolunteer | lib/actions/registrations.ts:61-80 | the action's result and new table are the transition's; the invariant holds after, and so does capacity if it held before; no row is rewritten |
| Registrations.Register | lib/actions/registrations.ts:12-59 | registerVolunteerAction as a transition on the registrations; its guards, writes and capacity are stated by the Register lemmas below |
| Registrations.Unregister | lib/actions/registrations.ts:61-80 | unregisterVolunteerAction as a transition on the registrations; stated by the Unregister lemmas below |
| Registrations.CountRead | lib/actions/registrations.ts:30-33 | `count ?? 0`: the exact count when the query answers, 0 when it fails |
| Registrations.RegisterEffect | lib/actions/registrations.ts:39-55 | every failure leaves the table unchanged; a success appends exactly one row with the caller, the role's slot, the role and the caller's parish |
| Registrations.RegisterNeedsParish | lib/actions/registrations.ts:17-18 | no context, or a context without a parish, is refused with its message and writes nothing |
| Registrations.RegisterIsolatesParishes | lib/actions/registrations.ts:26-28 | a missing slot-role, or one whose slot is in another parish, is "not found" and writes nothing |
| Registrations.RegisterRejectsWhenFull | lib/actions/registrations.ts:30-37 | a role whose count as read (0 after a failed count query) reaches its quantity is "full" and writes nothing |
| Registrations.RegisterKeepsCapacity | lib/actions/registrations.ts:35-48 | executed sequentially and with the count query answering, a register keeps every role within its quantity |
| Registrations.RegisterKeepsOnePerUserAndRole | lib/actions/registrations.ts:50-53 | a register never gives a caller two rows for one role |
| Registrations.RegisterTwiceRejected | lib/actions/registrations.ts:35-53 | registering again for the same role fails, as full or already registered, and adds nothing, whether or not either count query failed |
| Registrations.FullAfterQuantity | lib/actions/registrations.ts:30-48 | a successful register raises the role's count by exactly one, and once the count equals the quantity every further register whose count query answers is refused as full |
| Registrations.CountFaultOverfills | lib/actions/registrations.ts:30-48 | when the count query fails on a role that is already full, the register still succeeds, the role holds one more registration than its quantity, and capacity is broken |
| Registrations.UnregisterRemovesOnlyCallerRows | lib/actions/registrations.ts:68-72 | unregister deletes every row of (caller, role) and keeps every other row |
| Registrations.UnregisterAbsentIsNoop | lib/actions/registrations.ts:68-79 | unregistering from a role not held succeeds and changes nothing |
| Registrations.UnregisterIdempotent | lib/actions/registrations.ts:68-79 | a second unregister succeeds and changes nothing more |
| TimeSlots.ActiveRoles | lib/actions/time-slots.ts:78 | the requested roles that get a vacancy row are exactly those with quantity at least 1 |
| TimeSlots.CreateChecks | lib/actions/time-slots.ts:12-59 | the guards of createTimeSlotAction in source order; stated by CreateValidatesFormFirst and CreateRejectsEqualTimes (form), CreateRejectsForeignService (parish isolation), CreateRejectsNoAccess (access), ParishAdminAloneCannotCreate (permission) and CreateSuccessEffect (all guards passed) |
| TimeSlots.RoleFailure | lib/actions/time-slots.ts:78-98 | the error of one loop entry: the ministry check, then the insert; stated through FirstFailure |
| TimeSlots.CreateTimeSlot | lib/actions/time-slots.ts:12-104 | createTimeSlotAction as a transition on slots and slot-roles; stated by CreateSuccessEffect, CreateFailureWritesNothing and CreateRollbackFaultKeepsSlot |
| TimeSlots.DeleteChecks | lib/actions/time-slots.ts:106-132 | the guards of deleteTimeSlotAction in source order; stated by DeleteRefusals (session, slot, service, access) and ParishAdminAloneCannotDelete (permission) |
| TimeSlots.FirstFailure | lib/actions/time-slots.ts:77-100 | the loop stops at the first entry whose ministry does not match or whose insert fails, and every earlier entry succeeded |
| TimeSlots.TsrRows | lib/actions/time-slots.ts:88-94 | every vacancy row the loop inserts belongs to the new slot, has quantity at least 1, and has a fresh id |
| TimeSlots.TsrRowsSkip | lib/actions/time-slots.ts:78 | an entry with quantity below 1 adds no row |
| TimeSlots.TsrRowsStep | lib/actions/time-slots.ts:88-94 | any other entry appends its own row after the earlier ones |
| TimeSlots.RollbackRestores | lib/actions/time-slots.ts:84-99 | deleting the new slot with its cascade restores the slots, slot-roles and registrations as before the call |
| TimeSlots.AbandonSlot | lib/actions/time-slots.ts:85 | the compensating delete restores both tables and keeps the invariant; when the delete fails, its error is discarded and the tables keep the new slot and its vacancies |
| TimeSlots.AddVacancy | lib/actions/time-slots.ts:88-94 | one loop insert extends the vacancy rows by that entry's row |
| TimeSlots.InsertVacancy | lib/actions/time-slots.ts:78-99 | one turn of the loop: skip, insert, or roll back with the entry's error; a failed rollback leaves the slot and earlier vacancies in place |
| TimeSlots.InsertVacancies | lib/actions/time-slots.ts:77-100 | the whole loop: on the first failing entry both tables are as before the slot insert, or keep the slot and the earlier vacancies when the rollback fails; otherwise one row per active role |
| TimeSlots.InsertSlotWithVacancies | lib/actions/time-slots.ts:61-100 | once the guards pass: on the first failing entry both tables are as before (or keep the slot and earlier vacancies when the rollback fails); otherwise the slot under the next id and one vacancy row per active role; registrations untouched |
| TimeSlots.CreateTimeSlotAction | lib/actions/time-slots.ts:12-104 | the result and the new slot and slot-role tables are the transition's, the registrations are untouched, the invariant holds, and capacity holds if it held before |
| TimeSlots.DeleteTimeSlotAction | lib/actions/time-slots.ts:106-142 | refused or failed: nothing changes; otherwise exactly that slot, its slot-roles and its registrations are deleted |
| TimeSlots.TsrRowsMatchActiveRoles | lib/actions/time-slots.ts:77-94 | one vacancy row per entry with quantity at least 1, in order, with that entry's role and quantity |
| TimeSlots.CreateFailureWritesNothing | lib/actions/time-slots.ts:17-99 | every failure carries a message; a refusal by the guards returns the guard's message and writes nothing, whatever the fault inputs; when the compensating delete succeeds, any failure leaves the slots and slot-roles as they were, so no new slot remains |
| TimeSlots.CreateRollbackFaultKeepsSlot | lib/actions/time-slots.ts:84-99 | when an entry fails and the compensating delete fails too, the call reports the entry's error while the new slot and the vacancy rows of the earlier entries stay in the tables |
| TimeSlots.CreateSuccessEffect | lib/actions/time-slots.ts:44-103 | a success adds one slot in the caller's parish with the given service and times, and one vacancy row per active role; start is before end; the service was the one row with that id, in the caller's parish, and the caller may access and manage its ministry |
| TimeSlots.CreateValidatesFormFirst | lib/actions/time-slots.ts:25-42 | blank fields, then start not before end, then no active role, each with its message, before any lookup |
| TimeSlots.CreateRejectsEqualTimes | lib/actions/time-slots.ts:29-31 | equal start and end times are refused |
| TimeSlots.CreateRejectsForeignService | lib/actions/time-slots.ts:44-52 | with a valid form, a service id with no row in the caller's parish (none at all, or only another parish's) is refused as not found |
| TimeSlots.CreateRejectsNoAccess | lib/actions/time-slots.ts:54-55 | with a valid form and the caller's own parish's service found, a denied `canAccessMinistry` is refused with the access message, whatever the coordinator rows |
| TimeSlots.DeleteRefusals | lib/actions/time-slots.ts:106-128 | no session, then no slot with the id, then the slot's service missing, then a denied `canAccessMinistry`, each with its message |
| TimeSlots.ParishAdminAloneCannotCreate | lib/actions/time-slots.ts:54-59 | an ADMIN_PARISH caller with no coordinator row can manage no ministry, so creating a slot is never accepted |
| TimeSlots.ParishAdminAloneCannotDelete | lib/actions/time-slots.ts:127-132 | an ADMIN_PARISH caller with no coordinator row never passes the delete guards, and is refused with the delete permission message once the slot, its service and the access check are there |
| Services.SlotsOfService | lib/actions/services.ts:50-54 | exactly the slots of the service |
| Services.GetServiceWithTimeSlots | lib/actions/services.ts:31-90 | getServiceWithTimeSlotsAction as a function of the tables; stated by DetailMatchesStore |
| Services.SlotIds | lib/actions/services.ts:61 | the ids of the fetched slots |
| Services.RegistrationsOfSlots | lib/actions/services.ts:64-71 | exactly the registrations on the fetched slots |
| Services.RegistrationsOfSlot | lib/actions/services.ts:76 | exactly the registrations on one slot |
| Services.AssembleSlots | lib/actions/services.ts:74-80 | one entry per slot, in order |
| Services.NarrowTwice | lib/actions/services.ts:68-76 | narrowing to the fetched slots and then to one of them is narrowing to that one |
| Services.DetailMatchesStore | lib/actions/services.ts:31-90 | each slot's registrations are exactly the store's rows for that slot; `is_registered` holds iff the caller has one, and is false without a session |
| Services.MinistriesInParish | lib/actions/services.ts:121-126 | the ministries with that id in the caller's parish |
| Services.CreateService | lib/actions/services.ts:93-149 | createServiceAction as a transition on the services; stated by CreateServiceEffect and CreateServiceRejectsForeignMinistry |
| Services.CreateServiceAction | lib/actions/services.ts:93-149 | the result and the new services table are the transition's, and the invariant holds |
| Services.CreateServiceEffect | lib/actions/services.ts:102-145 | failures change nothing; a success appends one service in the caller's parish, under a ministry of that parish, with the description trimmed or null |
| Services.CreateServiceRejectsForeignMinistry | lib/actions/services.ts:121-130 | a ministry of another parish is "not found" and nothing is written |
| Services.ServicesOutside | lib/actions/services.ts:155 | the services left after deleting the given ids |
| Services.DeleteServices | lib/actions/services.ts:151-155 | deletes the services and cascades to their slots, slot-roles and registrations |
| Services.DeleteServiceAction | lib/actions/services.ts:152-163 | a store error changes nothing; otherwise the service and its cascade are deleted |
| Services.ServiceCascadeComplete | lib/actions/services.ts:151 | after the cascade no slot of a deleted service is left, and the rows of other services' slots stay |
| LegacySlots.MaxVolunteersField | lib/actions/services.ts:178 | `parseInt(field) \|\| 5` is never 0, and is 5 when nothing parses |
| LegacySlots.WithCounts | lib/actions/services.ts:262-266 | the view's `available_spots` is `max_volunteers` minus the slot's registrations |
| LegacySlots.CreateChecks | lib/actions/services.ts:170-204 | the guards of the legacy createTimeSlotAction in source order; stated by CreateTimeSlotEffect and CreateRejectsNegative |
| LegacySlots.CreateTimeSlot | lib/actions/services.ts:170-222 | the legacy createTimeSlotAction as a transition on the slots; stated by CreateTimeSlotEffect |
| LegacySlots.Register | lib/actions/services.ts:243-293 | the legacy registerVolunteerAction as a transition on the registrations; stated by RegisterEffect, RegisterKeepsSlotCapacity and RegisterTwiceRefused |
| LegacySlots.Unregister | lib/actions/services.ts:296-316 | the legacy unregisterVolunteerAction as a transition on the registrations; stated by UnregisterRemovesOnlyCallerRows |
| LegacySlots.CreateTimeSlotAction | lib/actions/services.ts:170-222 | the result and the new slot table are the transition's, and the invariant holds |
| LegacySlots.CreateTimeSlotEffect | lib/actions/services.ts:180-218 | a failure adds nothing; a success adds one slot in the caller's parish with the parsed count, which is at least 1, and start before end |
| LegacySlots.MaxVolunteersOfRendered | lib/actions/services.ts:178 | a rendered count reads back as itself; 0 and an empty field give 5 |
| LegacySlots.CreateRejectsNegative | lib/actions/services.ts:178-190 | a negative count passes the `\|\| 5` fallback and is refused by the `< 1` check |
| LegacySlots.DeleteTimeSlotAction | lib/actions/services.ts:225-236 | a store error changes nothing; otherwise the slot and its cascade are deleted |
| LegacySlots.RegisterVolunteerAction | lib/actions/services.ts:243-293 | the result and the new registrations are the transition's; the invariant holds; no row is rewritten |
| LegacySlots.RegistrationsOfSlotSnoc | lib/actions/services.ts:276-282 | an insert adds one registration to its own slot and none to the others |
| LegacySlots.RegisterEffect | lib/actions/services.ts:268-289 | a missing slot or one with no spot left is refused and writes nothing; a success appends one row for the caller and the slot |
| LegacySlots.RegisterKeepsSlotCapacity | lib/actions/services.ts:272-282 | executed sequentially, a legacy register keeps every slot within its `max_volunteers` |
| LegacySlots.SnocKeepsSlotCapacity | lib/actions/services.ts:272-282 | adding a row for a slot that still has a free spot keeps every slot within its `max_volunteers` |
| LegacySlots.RegisterTwiceRefused | lib/actions/services.ts:284-287 | a second registration of the caller for the same slot is refused |
| LegacySlots.WithoutUserSlot | lib/actions/services.ts:304-308 | keeps exactly the rows that are not the caller's for that slot |
| LegacySlots.UnregisterVolunteerAction | lib/actions/services.ts:296-316 | the result and the new registrations are the transition's, and the invariant holds |
| LegacySlots.UnregisterRemovesOnlyCallerRows | lib/actions/services.ts:304-308 | unregister deletes every row of (caller, slot) and keeps every other row |
| Ministries.CreateMinistryAction | lib/actions/ministries.ts:28-74 | the result and the new ministries table are the transition's |
| Ministries.CreateMinistry | lib/actions/ministries.ts:28-74 | createMinistryAction as a transition on the ministries; stated by CreateMinistryFailure, CreateMinistryEffect and VolunteerCannotCreate |
| Ministries.CreateMinistryFailure | lib/actions/ministries.ts:36-56 | a blank name is refused first; every failure leaves the table unchanged with a message |
| Ministries.CreateMinistryEffect | lib/actions/ministries.ts:42-73 | a success appends one ministry with the trimmed name, the trimmed description or null, and the caller's parish; the caller is signed in and is no volunteer |
| Ministries.VolunteerCannotCreate | lib/actions/ministries.ts:54-56 | a volunteer with a parish gets the permission error and writes nothing |
| Ministries.UpdateMinistryAction | lib/actions/ministries.ts:77-107 | the result and the new ministries table are the transition's |
| Ministries.UpdateWhere | lib/actions/ministries.ts:91-97 | the update by id keeps the table's length; row by row it is stated by UpdateWhereRows |
| Ministries.UpdateMinistry | lib/actions/ministries.ts:77-107 | updateMinistryAction as a transition on the ministries; stated by UpdateMinistryEffect and UpdateMinistryOutcome |
| Ministries.UpdateMinistryEffect | lib/actions/ministries.ts:86-106 | the table keeps its length; only the rows with the id change, getting the trimmed name and description while ids and parishes stay; a blank name or a store error changes nothing and fails |
| Ministries.UpdateMinistryOutcome | lib/actions/ministries.ts:91-106 | with no row under the id nothing changes and the call fails (`.single()` finds no row); a success returns a row of the new table with the id and the trimmed name |
| Ministries.UpdateWhereRows | lib/actions/ministries.ts:91-97 | the update by id, row by row: rows with the id get the new name and description, every other row is unchanged, ids and parishes stay |
| Ministries.MinistriesOutside | lib/actions/ministries.ts:113-116 | exactly the ministries without the id |
| Ministries.DeleteMinistryAction | lib/actions/ministries.ts:109-125 | a store error changes nothing; otherwise the ministry, its services and their slots, slot-roles and registrations are deleted |
| Ministries.MinistryCascadeRemovesServices | lib/actions/ministries.ts:109 | no service of the deleted ministry is left, and services of other ministries stay |
| Volunteers.SetRole | lib/actions/volunteers.ts:45-48 | the update keeps the table's size |
| Volunteers.UpdateUserRole | lib/actions/volunteers.ts:25-55 | updateUserRoleAction as a transition on the users; stated by UpdateUserRoleGate, UpdateUserRoleEffect and NoNewSuperAdmin |
| Volunteers.UpdateUserRoleAction | lib/actions/volunteers.ts:25-55 | the result and the new users table are the transition's, and the invariant holds |
| Volunteers.UpdateUserRoleGate | lib/actions/volunteers.ts:32-43 | no session, or a missing caller row, or a caller who is neither ADMIN_PARISH nor SUPER_ADMIN, fails and changes nothing |
| Volunteers.UpdateUserRoleEffect | lib/actions/volunteers.ts:45-54 | on success only the target's `role` changes; every other row and column stays |
| Volunteers.NoNewSuperAdmin | lib/actions/volunteers.ts:27 | every SUPER_ADMIN row after the call was already that row before it |
| Announcements.CreateAnnouncementAction | lib/actions/announcements.ts:13-48 | the result and the new announcements table are the transition's |
| Announcements.CreateAnnouncement | lib/actions/announcements.ts:13-48 | createAnnouncementAction as a transition on the announcements; stated by CreateAnnouncementRefusals and CreateAnnouncementEffect |
| Announcements.CreateAnnouncementRefusals | lib/actions/announcements.ts:19-30 | no context fails; a non-manager gets the permission error even with a blank title; then a blank title, then blank content |
| Announcements.CreateAnnouncementEffect | lib/actions/announcements.ts:32-43 | a success appends one announcement with the trimmed, non-blank title and content, the caller as author and the given ministry |
| Announcements.TrimNonBlank | lib/actions/announcements.ts:29-30 | the trim of a non-blank text is non-empty |
| Announcements.AnnouncementsOutside | lib/actions/announcements.ts:72-75 | exactly the announcements without the id |
| Announcements.DeleteAnnouncementAction | lib/actions/announcements.ts:50-82 | the result and the new announcements table are the transition's |
| Announcements.DeleteAnnouncement | lib/actions/announcements.ts:50-82 | deleteAnnouncementAction as a transition on the announcements; stated by DeleteAnnouncementEffect |
| Announcements.DeleteAnnouncementEffect | lib/actions/announcements.ts:55-77 | a missing announcement is "not found"; permission is checked on its own ministry; a success removes only that row |
| Utils.FormatTime | lib/utils.ts:24-27 | the first five characters, or the whole text when it is shorter |
| Utils.FormatTimeIdempotent | lib/utils.ts:24-27 | formatting twice equals formatting once |
| Utils.FormatTimeRange | lib/utils.ts:29-31 | the two times joined by " – "; stated by FormatTimeRangeLayout |
| Utils.FormatTimeRangeLayout | lib/utils.ts:29-31 | the range is both five-character times around " – " (13 characters) |
| Utils.LowerChar | lib/utils.ts:39 | upper-case ASCII letters become lower-case; lower-case letters, digits, '-' and white space stay |
| Utils.ToLower | lib/utils.ts:39 | lower-casing keeps the length |
| Utils.Decompose | lib/utils.ts:40 | a decomposed character is a letter followed by combining marks, and ASCII stays as it is |
| Utils.ReplaceRuns | lib/utils.ts:43-44 | replacing runs never lengthens the text, and a leading run becomes '-' |
| Utils.ReplaceRunsChars | lib/utils.ts:43-44 | after a replacement every character is '-' or a character of the input outside the run class |
| Utils.CollapsedDashes | lib/utils.ts:44 | after collapsing dash runs no "--" is left |
| Utils.ReplaceRunsNone | lib/utils.ts:43 | a text with no run character is unchanged |
| Utils.ReplaceDashRunsNone | lib/utils.ts:44 | a text without "--" is unchanged by the dash collapse |
| Utils.TrimNoSpace | lib/utils.ts:45 | a text without white space is unchanged by `trim` |
| Utils.GenerateSlug | lib/utils.ts:37-46 | lower-case, decompose, drop marks, replace runs, collapse dashes, trim; stated by GenerateSlugIsSlug and GenerateSlugIdempotent |
| Utils.GenerateSlugIsSlug | lib/utils.ts:37-46 | for every input the slug holds only a-z, 0-9 and '-', and never "--" |
| Utils.NfdAscii | lib/utils.ts:40 | NFD leaves ASCII text unchanged |
| Utils.SlugFixedPoint | lib/utils.ts:37-46 | a slug is its own slug |
| Utils.GenerateSlugIdempotent | lib/utils.ts:37-46 | generating a slug from a slug changes nothing |
| Utils.TruthyNames | lib/utils.ts:53 | `filter(Boolean)` keeps only non-empty strings, and is empty exactly when no entry is truthy |
| Utils.JoinEmpty | lib/utils.ts:53 | joining non-empty strings is empty exactly when there are none |
| Utils.JoinAppend | lib/utils.ts:53 | joining two lists is joining each, with one separator between them when both are non-empty |
| Utils.TruthyNamesAppend | lib/utils.ts:53 | the filter distributes over concatenation |
| Utils.Cn | lib/utils.ts:52-54 | the truthy class names joined by spaces; stated by CnEmpty, CnAppend and CnSkipsFalsy |
| Utils.CnEmpty | lib/utils.ts:52-54 | `cn` is "" exactly when no entry is truthy |
| Utils.CnAppend | lib/utils.ts:52-54 | `cn(a..., b...)` is `cn(a...)` and `cn(b...)` with one space between them when both are non-empty |
| Utils.CnSkipsFalsy | lib/utils.ts:52-54 | an undefined, null, false or empty entry makes no difference |
| Dashboard.StatsDefaultToZero | lib/actions/dashboard.ts:11-50 | without a session the stats fail; each missing count is 0 and each present count is shown |
| Dashboard.GetDashboardStats | lib/actions/dashboard.ts:11-50 | getDashboardStatsAction over the four counts; stated by StatsDefaultToZero and StatsFromStore |
| Dashboard.ServicesFrom | lib/actions/dashboard.ts:30-33 | exactly the services dated today or later |
| Dashboard.OpenSlots | lib/actions/dashboard.ts:36-39 | exactly the slots whose `available_spots` is positive |
| Dashboard.OpenSlotsUnderCapacity | lib/actions/dashboard.ts:36-39 | a slot is open exactly when it has fewer registrations than `max_volunteers` |
| Dashboard.VolunteerUsers | lib/actions/dashboard.ts:18-21 | exactly the users whose role is VOLUNTEER |
| Dashboard.StatsFromStore | lib/actions/dashboard.ts:11-50 | with a session and every query answering, the counters are bounded by the table sizes, and the volunteer, upcoming and open-slot counters are 0 exactly when no user is a volunteer, every service is past, and every slot is full |
| Dashboard.TotalsAppend | lib/actions/dashboard.ts:79-80 | both folds distribute over concatenation of the slot list |
| Dashboard.Summarize | lib/actions/dashboard.ts:77-88 | the map callback; stated by UpcomingShape and UpcomingFilledMatchesStore |
| Dashboard.GetUpcomingServices | lib/actions/dashboard.ts:52-92 | getUpcomingServicesAction over the fetched rows; stated by UpcomingShape and UpcomingFromStore |
| Dashboard.UpcomingShape | lib/actions/dashboard.ts:73-91 | a query error fails; otherwise one entry per fetched row, in order, with its id and date, the ministry name or "", and 0 and 0 without slots |
| Dashboard.Ids | lib/actions/dashboard.ts:66 | one id per registration |
| Dashboard.SummariesOf | lib/actions/dashboard.ts:63-67 | one summary per slot |
| Dashboard.UpcomingServiceRows | lib/actions/dashboard.ts:69-71 | at most five services, all dated today or later, the first ones of those, and five whenever five exist |
| Dashboard.UpcomingRows | lib/actions/dashboard.ts:55-71 | one row per service the query takes |
| Dashboard.RegistrationsOfSlotsAdd | lib/actions/dashboard.ts:80 | adding one slot id adds that slot's registrations to the count |
| Dashboard.FilledIsRegistrationCount | lib/actions/dashboard.ts:80 | with distinct slot ids, the filled-slots fold equals the number of registrations on those slots |
| Dashboard.UpcomingFilledMatchesStore | lib/actions/dashboard.ts:77-88 | a service's `filled_slots` is the number of registrations on its slots |
| Dashboard.UpcomingFromStore | lib/actions/dashboard.ts:55-91 | the list built from the store has as many entries as services dated today or later, up to five; each is such a service, and its `filled_slots` is the number of registrations on its slots |
| Signup.RegisterWithNewParishAction | lib/actions/auth.ts:44-103 | the result, the new parishes table and the sign-up request are the transition's, also when the compensating delete fails; an id is used exactly when the parish insert happens |
| Signup.NewParishChecks | lib/actions/auth.ts:49-77 | the form checks of registerWithNewParishAction in source order; stated by NewParishRefusals |
| Signup.RegisterWithNewParish | lib/actions/auth.ts:44-103 | registerWithNewParishAction as a transition on the parishes; stated by NewParishRefusedWritesNothing and NewParishEffect |
| Signup.FoundParish | lib/actions/auth.ts:66-99 | the parish row under the next id and the ADMIN_PARISH sign-up request for it; when the sign-up fails the row is deleted again, unless that delete fails, whose error is discarded |
| Signup.RollbackRestoresParishes | lib/actions/auth.ts:92-99 | deleting the fresh parish restores the table exactly |
| Signup.NewParishRefusals | lib/actions/auth.ts:56-77 | an empty field, then a short password, then a taken slug, each with its message |
| Signup.NewParishRefusedWritesNothing | lib/actions/auth.ts:56-77 | a refused form writes nothing and sends no sign-up |
| Signup.NewParishEffect | lib/actions/auth.ts:65-103 | the slug is `generateSlug` of the parish name and is a slug; the sign-up asks for ADMIN_PARISH of the new parish; a failed sign-up returns its error, and the parishes are as before, or keep the new parish when the compensating delete fails |
| Signup.NewParishOutcomes | lib/actions/auth.ts:65-99 | after an accepted form, the sign-up request carries the new parish id; success keeps the new parish, a failed sign-up drops it again, or keeps it when the compensating delete fails |
| Signup.RegisterJoinParish | lib/actions/auth.ts:108-159 | registerJoinParishAction as a function of the parishes and the sign-up answer; stated by JoinEffect and JoinUnknownParish |
| Signup.JoinEffect | lib/actions/auth.ts:108-159 | an empty field sends nothing; a request is sent only for an existing parish, as VOLUNTEER of it; success iff the sign-up succeeds |
| Signup.JoinUnknownParish | lib/actions/auth.ts:127-135 | an unknown parish is "not found" and sends nothing |
| Routing.StartsWithAnyExists | middleware.ts:48 | `routes.some(r => path.startsWith(r))` holds iff some route is a prefix |
| Routing.DifferAt | middleware.ts:48 | a path that differs from a route at a shared position does not start with it |
| Routing.SignInRoutesUnfold | middleware.ts:11 | the sign-in routes are /login and /register |
| Middleware.PublicRoutesUnfold | middleware.ts:10 | the public routes are the seven listed prefixes |
| Middleware.StatusOf | middleware.ts:40-41 | the status of the caller's single user row, if any; stated through the guard lemmas |
| Middleware.Guard | middleware.ts:36-64 | the middleware's decision for a path; stated by SignedInLeavesAuthPages, AnonymousRequests, SignedInOnProtectedPaths and RedirectSettles |
| Middleware.SignedInLeavesAuthPages | middleware.ts:39-45 | a signed-in user on a sign-in page goes to the waiting page when PENDING, the rejection page when REJECTED, and the dashboard otherwise |
| Middleware.AnonymousRequests | middleware.ts:48-50 | without a session a protected path goes to /login, and "/" and the public pages pass |
| Middleware.SignedInOnProtectedPaths | middleware.ts:53-64 | on a protected path PENDING goes to the waiting page, REJECTED to the rejection page, and APPROVED or no status passes |
| Middleware.RedirectSettles | middleware.ts:10 | every redirect target passes with the same session and users, so there is no redirect loop |
| Proxy.SignedInRequests | proxy.ts:42-51 | a signed-in request to /login or /register goes to /dashboard whatever the status; any other signed-in request passes |
| Proxy.Guard | proxy.ts:39-51 | the proxy's decision for a path; stated by SignedInRequests, AnonymousRequests and RedirectSettles |
| Proxy.AnonymousRequests | proxy.ts:47-51 | without a session a request goes to /login exactly when it is outside /login, /register and "/" |
| Proxy.ConfirmEmailNeedsSession | proxy.ts:9 | /confirmar-email is not public here and goes to /login without a session |
| Proxy.RedirectSettles | proxy.ts:42-49 | every redirect target passes with the same session |
| Proxy.StricterThanMiddleware | proxy.ts:47-49 | without a session every path the proxy lets through, the middleware lets through too |

## Left out

- Concurrency: the count and the insert of a registration (lib/actions/registrations.ts:30-48) are modelled as sequential steps. Capacity is proved for sequential calls only; concurrent requests can over-subscribe a role, and nothing here claims atomicity.
- Row-level security is not modelled. Queries see the whole table, so the dashboard counts and `updateUserRoleAction` are not narrowed to the caller's parish.
- Foreign keys, cascades and unique indexes are database schema that is not part of this model. The model assumes these from the source's comments and its `23505` handling:
  - the unique index on (user, time-slot role). The role-based registration (`Registrations`) assumes only this one: it accepts one user in two roles of the same slot. If the legacy index below were still in the schema, the store would refuse that second insert with `23505`, and the action would report it as already registered in the role;
  - the legacy unique index on (user, time slot). Only the legacy registration (`LegacySlots.InSlot`) assumes it;
  - the unique index on the parish slug;
  - the cascades from ministry to services to slots to slot-roles and registrations.
- `time_slots.max_volunteers` has a database default that the current slot insert relies on. That default is the constant `Store.Db.maxVolunteersDefault`.
- The `time_slots_with_counts` view is defined in the database. It is modelled as `max_volunteers` minus the slot's registrations (`LegacySlots.WithCounts`).
- `JSON.parse` of the roles field is not modelled. The parsed list is an input, and `None` stands for a parse error.
- `auth.getUser`, `auth.signUp`, `signInWithPassword` and `signOut` are not modelled. The session and the sign-up outcome are inputs. The login, logout, parish-listing and current-user actions of lib/actions/auth.ts are not modelled.
- `getServicesByMinistryAction` is not modelled. Neither are the ministry join in the service detail (`ministries(id, name)`), nor `order('start_time')` and `order('date')`: rows come in table order.
- `new Date()` is not modelled. "Today" is a parameter, and dates are compared as ISO strings (lexicographically).
- JsText.LexLess: compares strings by Unicode code point, whereas JavaScript's `<` compares UTF-16 code units. The two orders differ only when a character above U+FFFF meets one between U+E000 and U+FFFF; ISO dates and times are ASCII, where they agree.
- Auth.GetAuthenticatedUser: a failed read is modelled only as a missing row. The source also gives null, or its "not found" answer, when a lookup errors although the row exists (lib/auth.ts:21, lib/actions/ministries.ts:50, lib/actions/announcements.ts:63, lib/actions/auth.ts:133, lib/actions/services.ts:45). So Auth.ProfileGivesContext, and the success cases of Ministries.CreateMinistry, Announcements.DeleteAnnouncement, Signup.RegisterJoinParish and Services.GetServiceWithTimeSlots, assume that these lookups answer.
- Volunteers.NoNewSuperAdmin: holds for the roles the `role` parameter's TypeScript type admits (`Volunteers.AssignableRole`). The action itself does not check the role at run time, so a request that bypasses the type can still grant SUPER_ADMIN.
- `revalidatePath` and `redirect` are not modelled. A redirect after sign-up counts as success.
- The cookie plumbing of middleware.ts and proxy.ts, their `matcher` configuration, and the security headers of next.config.ts are framework configuration and are not modelled.
- `formatDate` and `formatDateShort` wrap date-fns, which is not part of this model.
- Utils.LowerChar: lower-cases ASCII and the Latin-1 capitals only, because the full Unicode case tables are not modelled.
- Utils.Decompose: decomposes the accented Latin-1 letters only. Other characters with a canonical decomposition are kept whole, and the slug filter then drops them.
- Signup.NewParishChecks: counts the password length in characters, not UTF-16 code units, so the two counts differ for characters outside the Basic Multilingual Plane.
- JsText.ParseInt: reads an unbounded integer. The floating-point rounding of very long digit strings is not modelled.
- The route guards use `startsWith` on the raw path. The URL parsing and normalisation that Next.js performs first is not modelled.
- The React components, hooks and pages are not modelled. Neither are the optimistic counters in the UI, the approval workflow, membership requests, or the role-list actions that the UI imports but the shown actions do not define.
