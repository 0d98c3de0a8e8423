# Meeting-room booking engine, modelled in Dafny

This project models the core of a meeting-room booking web application.
Requesters ("PIC" users) ask for a room on a date in one of three fixed
sessions: SESSION_1 08:00–12:00, SESSION_2 13:00–16:00 and FULLDAY
08:00–16:00, all WITA (UTC+8). Administrators approve or reject the requests.

The model covers:

- **Availability views.** `getAvailableRooms` lists the sessions still offered
  for each room. `getRoomAvailability` gives each room's status per session
  (TERSEDIA = free, TERPAKAI = taken, DISABLED), with its overlap rules.
- **Admission.** `createBooking` runs its checks in order and stops at the
  first failure. When the auto-approve flag is set, it approves the new
  booking at once.
- **Approval state machine.** `approveBooking` approves a request and
  displaces the overlapping requests of the same room and date.
  `rejectBooking` rejects a pending request with a reason.
- **Administration.** `deleteRoom`'s active-booking guard, and the
  auto-approve configuration row.
- **Pager arithmetic** of the list views.
- **Result shape.** The `ActionResult` union returned by every server action.

The main invariant is `Schema.ApprovedExclusive`: no two APPROVED bookings of
one room and date hold the same or overlapping sessions. Every action that
writes bookings is proved to preserve it.

Modules. Four of them model one source file each:

- `Types` (types.dfy): lib/types.ts.
- `PicActions` (pic_actions.dfy): app/actions/pic-actions.ts.
- `AdminActions` (admin_actions.dfy): app/actions/admin-actions.ts.
- `Pagination` (pagination.dfy): components/Pagination.tsx.

Two have no source file of their own:

- `Schema` (schema.dfy) holds what both action files share: the database rows,
  the session hour table, the exclusivity invariant, and the `Database` class
  that stands for the Prisma client.
- `Flows` (flows.dfy) holds properties that span the two action files.

Modelling conventions:

- **Server actions.** Each state-changing action is a module-level method that
  takes the `Database` object `db` and names it in its `modifies` clause.
  `GetSystemConfig` is a method that changes nothing, and
  `GetRoomAvailability` is a function that reads `db`. A transaction body is a
  single atomic method. A pure function states the new
  booking table (`Approve`, `Reject`, `RemoveRoom`), the method's
  postcondition ties the new state to it, and lemmas prove the function's
  properties.
- **Instants** are integers counting milliseconds since the epoch. The UTC
  getters are floor division and modulo by a positive constant, which is what
  Dafny's `/` and `%` compute.
- **Dates** are integer day indices, and the server is taken to run in UTC.
- **Booking ids** are positions in the booking table.
- **Thrown exceptions.** The Prisma client throws when a foreign key does not
  resolve on insert, or when the row to delete is missing. The model returns
  `Failure(STORAGE_ERROR)` in those cases.

Behaviours of the code that a reader may not expect, all modelled as written:

- **Auto-approve in createBooking rejects nothing.** Competing PENDING
  requests stay PENDING, and a later approval of an overlapping FULLDAY
  request displaces the auto-approved booking
  (`Flows.AutoApprovedCanBeDisplaced`).
- **getRoomAvailability disables an unbooked FULLDAY of today from 12:00 WITA,
  the end of SESSION_1**, not from its own start hour of 08:00.
  createBooking still refuses FULLDAY from 08:00 WITA, and getAvailableRooms
  stops offering it from 08:00 UTC. The three cut-off rules are modelled
  separately: `UtcCutoffHour`, `DisplayCutoffHour` and `TodayCutoffHour`.
- **createBooking's "today" is the UTC date, while its hour is the WITA
  hour.** From 16:00 UTC the WITA date has already moved on, so a request for
  the WITA yesterday passes the date and time checks
  (`PicActions.AdmitsWitaYesterday`).
- **getAvailableRooms has no overlap rule.** It drops only the sessions that
  an APPROVED booking holds exactly.

## Model

| member | source | states |
|---|---|---|
| Types.SuccessResult | lib/types.ts:7-9 | the result is successful and carries the given data unchanged |
| Types.ErrorResult | lib/types.ts:12-14 | the result is a failure and carries the given message unchanged |
| Schema.SessionTimes | app/actions/pic-actions.ts:367-371 | every session lies between 08:00 and 16:00 and starts before it ends |
| Schema.OverlapTable | app/actions/pic-actions.ts:367-371 | by the hour table, FULLDAY overlaps every session, a session overlaps itself, and the two halves are disjoint; overlap is symmetric |
| Schema.ApprovedSessions | app/actions/pic-actions.ts:38-56 | the booked-session list of a room and date holds exactly the sessions some APPROVED booking of that room and date holds |
| PicActions.UtcHours | app/actions/pic-actions.ts:35 | the UTC hour is below 24 |
| PicActions.UtcHoursWithinDay | app/actions/pic-actions.ts:22-35 | the UTC hour is the hour count within the instant's UTC day, and an instant splits into its day and the time into that day |
| PicActions.GetWIBTime | app/actions/pic-actions.ts:310-316 | the WITA hour is below 24 and is the hour of the instant shifted by eight hours; the shifted instant is returned with it |
| PicActions.WitaHoursShift | app/actions/pic-actions.ts:310-316 | the WITA hour is the UTC hour plus 8, modulo 24 |
| PicActions.WitaDayShift | app/actions/pic-actions.ts:346-348 | the WITA date equals the UTC date before 16:00 UTC and is the next day from 16:00 UTC |
| PicActions.UnbookedSessions | app/actions/pic-actions.ts:59-61 | a session is kept iff it is not in the booked list; the result is in enum order without repeats |
| PicActions.DropStarted | app/actions/pic-actions.ts:64-71 | of enum-ordered sessions, exactly those whose UTC cut-off hour (8, 13, 8) has not come are kept, still in enum order |
| PicActions.FilterSessions | app/actions/pic-actions.ts:59-71 | a session is kept iff it is not in the booked list and, on today, its UTC cut-off (8, 13, 8) has not come; the kept sessions stay in enum order |
| PicActions.GetAvailableRooms | app/actions/pic-actions.ts:13-78 | one entry per room, in table order; a session is offered iff no APPROVED booking holds exactly it and, when the date is the UTC today, the UTC cut-off hour has not come; sessions in enum order |
| PicActions.GetSessionStatus | app/actions/pic-actions.ts:318-334 | booked is TERPAKAI; unbooked is DISABLED iff today and the hour has reached the session's end; TERSEDIA iff neither |
| PicActions.RoomAvailabilityOverlapRules | app/actions/pic-actions.ts:374-409 | an approved FULLDAY makes both halves TERPAKAI; an approved half makes FULLDAY DISABLED even when FULLDAY is booked; with nothing booked FULLDAY is DISABLED iff today and the WITA hour is at least 12, and TERSEDIA otherwise |
| PicActions.RoomAvailabilityExact | app/actions/pic-actions.ts:373-412 | a session shows TERSEDIA iff no booked session overlaps it and its display cut-off (12, 16, 12) has not come; it shows TERPAKAI iff a half is taken by itself or by FULLDAY, or FULLDAY alone is booked |
| PicActions.NoApprovedOverlapBySessions | app/actions/pic-actions.ts:374-377 | checking the booked-session list for an overlap is the same as checking every APPROVED booking of the room and date |
| PicActions.GetRoomAvailability | app/actions/pic-actions.ts:336-413 | one entry per room with its id, name and capacity; a session is TERSEDIA iff no APPROVED booking of the room and date overlaps it and, when the date is the WITA today, its display cut-off has not come |
| PicActions.AdmissionFirstFailure | app/actions/pic-actions.ts:121-233 | the result is the past-date, session-started, duplicate or same-session-taken error iff that check fails and every earlier check passed; a partial conflict is reported only for FULLDAY and a full-day conflict only for a half |
| PicActions.AdmissionConflictIsOverlap | app/actions/pic-actions.ts:180-233 | after the date, time and duplicate checks, a request is refused iff an APPROVED booking of the same room and date holds an overlapping session |
| PicActions.OtherPendingDoesNotBlock | app/actions/pic-actions.ts:163-233 | another requester's PENDING booking never changes the admission verdict |
| PicActions.SelectionShift | app/actions/pic-actions.ts:152-161 | a listing of the selected rows after the first, with each position moved up by one, lists the same rows of the whole table, keeps them ascending, and never lists the first row |
| PicActions.RowsCons | app/actions/pic-actions.ts:152-161 | putting a selected first row and its name in front of a listing keeps every position paired with its row's name |
| PicActions.AscendingCons | app/actions/pic-actions.ts:152-161 | position 0 in front of strictly ascending positions past 0 keeps them strictly ascending |
| PicActions.SelectionTake | app/actions/pic-actions.ts:152-161 | when the first row is selected, its name in front of the listing of the rest lists the whole table |
| PicActions.SelectionSkip | app/actions/pic-actions.ts:152-161 | when the first row is not selected, the listing of the rest is the listing of the whole table |
| PicActions.NameSnapshot | app/actions/pic-actions.ts:152-161 | the snapshot has one name per catalog row whose id was selected, in table order: some strictly ascending list of exactly those rows' positions pairs each entry with its row's name; so a name is in it iff a selected row has that name |
| PicActions.SnapshotKeepsRepeatedNames | app/actions/pic-actions.ts:152-161 | two selected rows with the same name both contribute: the snapshot of rows ("a", "A") and ("b", "A") is ["A", "A"] |
| PicActions.AdmittedKeepsExclusive | app/actions/pic-actions.ts:180-275 | adding an admitted request, as PENDING or APPROVED, keeps APPROVED bookings exclusive |
| PicActions.CreateBooking | app/actions/pic-actions.ts:81-286 | the first failing check gives its exact message and stores nothing; an unresolved room, food or snack id fails in storage and stores nothing; otherwise exactly one booking is appended with the request's fields, the name snapshots and status APPROVED iff auto-approve is on, returned as data; no other booking changes; exclusivity is preserved |
| PicActions.AdmitsWitaYesterday | app/actions/pic-actions.ts:116-149 | from 16:00 UTC, a request for the UTC date, which is already the WITA yesterday, passes every check on an empty table |
| AdminActions.RemoveRoom | app/actions/admin-actions.ts:72 | the remaining rooms are exactly the rooms with a different id |
| AdminActions.UniqueTail | app/actions/admin-actions.ts:72 | dropping the first row keeps ids unique, and no later row shares its id |
| AdminActions.UniqueCons | app/actions/admin-actions.ts:72 | a row with a new id can be put in front of a table with unique ids |
| AdminActions.RemoveRoomKeepsUnique | app/actions/admin-actions.ts:72 | deleting a room keeps room ids unique |
| AdminActions.RemoveRoomLength | app/actions/admin-actions.ts:72 | deleting an existing room removes exactly one row; deleting a missing one removes none |
| AdminActions.DeleteRoom | app/actions/admin-actions.ts:57-76 | with a PENDING or APPROVED booking on the room it fails with "Room still has active bookings"; a missing room fails in storage; otherwise exactly that room is removed; bookings never change |
| AdminActions.ConflictSessionsOverlap | app/actions/admin-actions.ts:126-132 | the conflict set of a session is exactly the other sessions that overlap it in time |
| AdminActions.ApproveEffect | app/actions/admin-actions.ts:126-165 | the target becomes APPROVED; another booking is rejected with the fixed reason iff it is PENDING or APPROVED, of the same room and date, and holds a different, overlapping session; every other booking is unchanged |
| AdminActions.ApproveClearsSlot | app/actions/admin-actions.ts:111-165 | after approval the target is APPROVED and no other APPROVED booking of its room and date overlaps it |
| AdminActions.ApprovePreservesExclusive | app/actions/admin-actions.ts:111-165 | approval keeps APPROVED bookings exclusive |
| AdminActions.ApproveTwiceFails | app/actions/admin-actions.ts:107-109 | approving the same booking a second time fails with "Booking already processed" |
| AdminActions.ApproveLeavesSameSessionPending | app/actions/admin-actions.ts:111-143 | another PENDING request for the same room, date and session is left PENDING, and approving it afterwards fails with "Room already approved for this session" |
| AdminActions.ApproveBooking | app/actions/admin-actions.ts:93-169 | not-found, already-processed and same-session-approved fail with their messages and change nothing; otherwise the table becomes `Approve` of the old table and the approved booking is returned; rooms, catalog and config are unchanged; exclusivity is preserved |
| AdminActions.TrimStart | app/actions/admin-actions.ts:178 | the result is a suffix of the input; the removed prefix is white space; the result does not start with white space |
| AdminActions.TrimEnd | app/actions/admin-actions.ts:178 | the result is a prefix of the input; the removed suffix is white space; the result does not end with white space |
| AdminActions.TrimEmptyIffBlank | app/actions/admin-actions.ts:178 | the trimmed reason is empty iff every character is JavaScript white space or a line terminator |
| AdminActions.BlankReasonFails | app/actions/admin-actions.ts:178-180 | a whitespace-only reason fails with "Rejection reason is required" whatever the booking id |
| AdminActions.RejectPreservesExclusive | app/actions/admin-actions.ts:196-203 | rejection keeps APPROVED bookings exclusive |
| AdminActions.DecisionsAreFinal | app/actions/admin-actions.ts:107-194 | after an approval the booking cannot be rejected, and after a rejection it can be neither approved nor rejected again |
| AdminActions.RejectBooking | app/actions/admin-actions.ts:175-207 | a blank reason, an unknown id and a non-PENDING booking fail with their messages and change nothing; otherwise only the target becomes REJECTED with the given reason and is returned |
| AdminActions.UpdateAutoApprove | app/actions/admin-actions.ts:320-337 | with no config row it fails with "System config not found"; otherwise the flag is set to the argument and returned; no booking, room or catalog row changes |
| AdminActions.GetSystemConfig | app/actions/admin-actions.ts:339-351 | succeeds iff the config row exists, returning it; otherwise fails with "System config not found" |
| Flows.AutoApprovedCanBeDisplaced | app/actions/pic-actions.ts:263-280 | an auto-approved half session leaves a competing PENDING FULLDAY untouched, that FULLDAY can still be approved, and approving it rejects the auto-approved booking with the fixed reason |
| Pagination.TotalPages | components/Pagination.tsx:18 | the page count is the least count whose pages hold every item |
| Pagination.OnePageIffFits | components/Pagination.tsx:18-20 | there is at most one page iff the items fit on one page |
| Pagination.Render | components/Pagination.tsx:18-111 | nothing is drawn iff the items fit on one page; otherwise 1 ≤ start ≤ end ≤ pages, the buttons are the run start..end of length min(5, pages), the current page is inside the window when valid and centred when at least two pages from each end, the first and last page buttons appear iff their page is outside the window, each ellipsis appears iff the page next to it is outside the window, every page is in the window, behind an extra button or elided, and first/prev (next/last) are disabled iff the current page is the first (last) |

## Left out

- **User interface.** All React rendering, dialogs and dashboard filters are left out. From components/Pagination.tsx only the window arithmetic is modelled; the `paginate` callback is not.
- **Authentication and roles.** `requireRole` is taken as a precondition the caller has already met, and the requester's id is a parameter.
- **Transactions.** Each transaction body is one atomic method, so concurrency, isolation and races between requests are not modelled.
- **Date strings.** The parsing of date strings (`new Date`, `setHours`, `Date.UTC`, `split`, `toISOString().slice`) is abstracted to integer day indices, assuming the server runs in UTC. The clock is the parameter `now`.
- **JSON encoding.** `JSON.stringify` of the food and snack name snapshots is left out; a snapshot is a sequence of names.
- **Query ordering.** The database returns `findMany` rows in an unspecified order. The model uses table order for the rooms of getAvailableRooms and for the name snapshots.
- PicActions.GetRoomAvailability: lists the rooms in table order, not sorted by name (`orderBy: { name: "asc" }`), because string collation is not modelled.
- **Included relations.** The `include` of related user, room, food and snack rows on returned bookings is not modelled; the returned booking is the stored row.
- **Other actions.** Query-only actions (getUserBookings, getFoodsAndSnacks, getAllRooms, getAllBookings), createRoom, updateRoom and the food and snack catalog CRUD are not part of this model. createBooking reads the catalog only as a name lookup.
- **Foreign-key behaviour on room deletion.** What the database does on deleting a room that has only REJECTED bookings depends on the schema's referential actions, which are not part of this model. Deletion always succeeds once the active-booking guard passes and the room exists.
- **Exception details.** A thrown database exception is collapsed into one failure value, `STORAGE_ERROR`. In the source the action's promise is rejected with the thrown error instead.
- **Pager inputs.** Pagination.Render takes whole non-negative item counts and a positive page size. With a page size of zero the JavaScript page count is `Infinity` or `NaN`, which integers cannot represent.
- **Database ids.** Ids are positions in the booking table; generated id strings and `createdAt` ordering are not modelled.
