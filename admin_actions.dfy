/** The administrator-side actions of the booking engine
    (app/actions/admin-actions.ts): the approval state machine with its
    displacement of overlapping bookings, rejection, the active-booking guard
    of room deletion, and the auto-approve switch. */
module AdminActions {
  import opened Types
  import opened Schema

  /** The failures the admin actions report. */
  datatype AdminError =
    | BookingNotFound
    | AlreadyProcessed
    | SessionAlreadyApproved
    | ReasonRequired
    | OnlyPendingRejectable
    | RoomHasActiveBookings
    | ConfigNotFound

  function AdminMessage(e: AdminError): string {
    match e
    case BookingNotFound => "Booking not found"
    case AlreadyProcessed => "Booking already processed"
    case SessionAlreadyApproved => "Room already approved for this session"
    case ReasonRequired => "Rejection reason is required"
    case OnlyPendingRejectable => "Only pending booking can be rejected"
    case RoomHasActiveBookings => "Room still has active bookings"
    case ConfigNotFound => "System config not found"
  }

  /** The rejection reason approveBooking writes on every displaced booking. */
  const AUTO_REJECT_REASON: string := "Maaf, sudah ada booking lebih dulu"

  // ---------------------------------------------------------------------
  // deleteRoom
  // ---------------------------------------------------------------------

  /** Some PENDING or APPROVED booking references room `roomId`. */
  predicate HasActiveBooking(bookings: seq<Booking>, roomId: string) {
    exists k :: 0 <= k < |bookings| && bookings[k].roomId == roomId && Active(bookings[k])
  }

  /** The room table after `room.delete({ where: { id } })`. */
  function RemoveRoom(rooms: seq<Room>, id: string): (r: seq<Room>)
    ensures |r| <= |rooms|
    ensures forall x :: x in r <==> x in rooms && x.id != id
  {
    if rooms == [] then []
    else (if rooms[0].id == id then [] else [rooms[0]]) + RemoveRoom(rooms[1..], id)
  }

  /** Dropping the first row of a table keeps its ids unique. */
  lemma UniqueTail(rooms: seq<Room>)
    requires rooms != [] && UniqueRoomIds(rooms)
    ensures UniqueRoomIds(rooms[1..])
    ensures forall x :: x in rooms[1..] ==> x.id != rooms[0].id
  {
  }

  /** A row whose id is new can be put in front of a table with unique ids. */
  lemma UniqueCons(x: Room, tail: seq<Room>)
    requires UniqueRoomIds(tail)
    requires forall y :: y in tail ==> y.id != x.id
    ensures UniqueRoomIds([x] + tail)
  {
  }

  /** Removing a room keeps room ids unique. */
  lemma {:induction false} RemoveRoomKeepsUnique(rooms: seq<Room>, id: string)
    requires UniqueRoomIds(rooms)
    ensures UniqueRoomIds(RemoveRoom(rooms, id))
  {
    if rooms != [] {
      UniqueTail(rooms);
      RemoveRoomKeepsUnique(rooms[1..], id);
      if rooms[0].id != id {
        UniqueCons(rooms[0], RemoveRoom(rooms[1..], id));
      }
    }
  }

  /** With unique ids, removing an existing room drops exactly one row and
      removing a missing one drops none. */
  lemma {:induction false} RemoveRoomLength(rooms: seq<Room>, id: string)
    requires UniqueRoomIds(rooms)
    ensures |RemoveRoom(rooms, id)| == if RoomExists(rooms, id) then |rooms| - 1 else |rooms|
  {
    if rooms != [] {
      var rest := rooms[1..];
      UniqueTail(rooms);
      RemoveRoomLength(rest, id);
      if rooms[0].id == id {
        assert RoomExists(rooms, id);
        assert !RoomExists(rest, id) by {
          forall k | 0 <= k < |rest| ensures rest[k].id != id {
            assert rest[k] in rest;
          }
        }
      } else {
        assert RoomExists(rooms, id) ==> RoomExists(rest, id) by {
          if RoomExists(rooms, id) {
            var k :| 0 <= k < |rooms| && rooms[k].id == id;
            assert rest[k - 1].id == id;
          }
        }
        assert RoomExists(rest, id) ==> RoomExists(rooms, id) by {
          if RoomExists(rest, id) {
            var k :| 0 <= k < |rest| && rest[k].id == id;
            assert rooms[k + 1].id == id;
          }
        }
      }
    }
  }

  /** deleteRoom: refuses while a PENDING or APPROVED booking references the
      room; otherwise deletes that room, which the database refuses when there
      is no such room. Bookings are never touched. */
  method DeleteRoom(db: Database, id: string) returns (r: ActionResult<()>)
    requires db.Valid()
    modifies db
    ensures db.Valid()
    ensures db.bookings == old(db.bookings) && db.config == old(db.config)
    ensures db.foods == old(db.foods) && db.snacks == old(db.snacks)
    ensures HasActiveBooking(old(db.bookings), id) ==>
      r == Failure(AdminMessage(RoomHasActiveBookings)) && db.rooms == old(db.rooms)
    ensures (!HasActiveBooking(old(db.bookings), id) && !RoomExists(old(db.rooms), id)) ==>
      r == Failure(STORAGE_ERROR) && db.rooms == old(db.rooms)
    ensures (!HasActiveBooking(old(db.bookings), id) && RoomExists(old(db.rooms), id)) ==>
      r == Success(()) && db.rooms == RemoveRoom(old(db.rooms), id) && |db.rooms| == |old(db.rooms)| - 1
  {
    if HasActiveBooking(db.bookings, id) {
      return ErrorResult(AdminMessage(RoomHasActiveBookings));
    }
    if !RoomExists(db.rooms, id) {
      return ErrorResult(STORAGE_ERROR);
    }
    RemoveRoomKeepsUnique(db.rooms, id);
    RemoveRoomLength(db.rooms, id);
    db.rooms := RemoveRoom(db.rooms, id);
    return SuccessResult(());
  }

  // ---------------------------------------------------------------------
  // approveBooking
  // ---------------------------------------------------------------------

  /** The `conflictSessions` chosen by branch: both halves for FULLDAY,
      FULLDAY for a half. */
  function ConflictSessions(s: Session): seq<Session> {
    if s == FULLDAY then [SESSION_1, SESSION_2] else [FULLDAY]
  }

  /** The conflict set is exactly the other sessions that overlap `s` in time. */
  lemma ConflictSessionsOverlap(s: Session, t: Session)
    ensures t in ConflictSessions(s) <==> t != s && Overlaps(s, t)
  {
  }

  /** Another booking of the same room, date and session is already APPROVED. */
  predicate SameSessionApproved(bookings: seq<Booking>, id: nat)
    requires id < |bookings|
  {
    exists j :: 0 <= j < |bookings| && j != id &&
      bookings[j].roomId == bookings[id].roomId && bookings[j].bookingDate == bookings[id].bookingDate &&
      bookings[j].session == bookings[id].session && bookings[j].status == APPROVED
  }

  /** The checks of approveBooking in their order; None means it proceeds. */
  function ApproveCheck(bookings: seq<Booking>, id: nat): Option<AdminError> {
    if id >= |bookings| then Some(BookingNotFound)
    else if bookings[id].status != PENDING then Some(AlreadyProcessed)
    else if SameSessionApproved(bookings, id) then Some(SessionAlreadyApproved)
    else None
  }

  /** Booking `j` is one of `conflictBookings` when booking `id` is approved. */
  predicate IsConflict(bookings: seq<Booking>, id: nat, j: nat)
    requires id < |bookings| && j < |bookings|
  {
    j != id &&
    bookings[j].roomId == bookings[id].roomId && bookings[j].bookingDate == bookings[id].bookingDate &&
    bookings[j].session in ConflictSessions(bookings[id].session) && Active(bookings[j])
  }

  /** A booking as the `updateMany` of approveBooking leaves it. */
  function Displaced(b: Booking): Booking {
    b.(status := REJECTED, rejectionReason := Some(AUTO_REJECT_REASON))
  }

  /** The booking table after a successful approveBooking of `id`. */
  function Approve(bookings: seq<Booking>, id: nat): (r: seq<Booking>)
    requires id < |bookings|
    ensures |r| == |bookings|
  {
    seq(|bookings|, j requires 0 <= j < |bookings| =>
      if j == id then bookings[j].(status := APPROVED)
      else if IsConflict(bookings, id, j) then Displaced(bookings[j])
      else bookings[j])
  }

  /** What approval does to each row, stated through the time overlap of
      sessions: the target becomes APPROVED; another row is displaced exactly
      when it is PENDING or APPROVED, of the same room and date, and its
      session is a different one that overlaps; every other row (other rooms
      or dates, REJECTED rows, the same session, the disjoint half) is untouched. */
  lemma ApproveEffect(bookings: seq<Booking>, id: nat, j: nat)
    requires id < |bookings| && j < |bookings|
    ensures j == id ==> Approve(bookings, id)[j] == bookings[j].(status := APPROVED)
    ensures j != id ==>
      Approve(bookings, id)[j] ==
        if bookings[j].roomId == bookings[id].roomId && bookings[j].bookingDate == bookings[id].bookingDate &&
           Active(bookings[j]) && bookings[j].session != bookings[id].session &&
           Overlaps(bookings[j].session, bookings[id].session)
        then Displaced(bookings[j])
        else bookings[j]
  {
  }

  /** After a successful approval the target is the only APPROVED booking of
      its room and date whose session overlaps its own, whatever the table
      held before. */
  lemma ApproveClearsSlot(bookings: seq<Booking>, id: nat)
    requires ApproveCheck(bookings, id).None?
    ensures var after := Approve(bookings, id);
      after[id].status == APPROVED &&
      forall j :: 0 <= j < |after| && j != id && after[j].status == APPROVED &&
        after[j].roomId == after[id].roomId && after[j].bookingDate == after[id].bookingDate
        ==> !Overlaps(after[j].session, after[id].session)
  {
  }

  /** approveBooking keeps the exclusivity of APPROVED bookings. */
  lemma ApprovePreservesExclusive(bookings: seq<Booking>, id: nat)
    requires ApproveCheck(bookings, id).None?
    requires ApprovedExclusive(bookings)
    ensures ApprovedExclusive(Approve(bookings, id))
  {
  }

  /** Approval is not repeatable: a second approve of the same id reports it
      as already processed. */
  lemma ApproveTwiceFails(bookings: seq<Booking>, id: nat)
    requires ApproveCheck(bookings, id).None?
    ensures ApproveCheck(Approve(bookings, id), id) == Some(AlreadyProcessed)
  {
  }

  /** Approval does not cascade to the target's own session: another PENDING
      request for the same room, date and session stays PENDING, and
      approving it afterwards is refused. */
  lemma ApproveLeavesSameSessionPending(bookings: seq<Booking>, id: nat, j: nat)
    requires ApproveCheck(bookings, id).None?
    requires j < |bookings| && j != id && bookings[j].status == PENDING
    requires bookings[j].roomId == bookings[id].roomId && bookings[j].bookingDate == bookings[id].bookingDate
    requires bookings[j].session == bookings[id].session
    ensures Approve(bookings, id)[j] == bookings[j]
    ensures ApproveCheck(Approve(bookings, id), j) == Some(SessionAlreadyApproved)
  {
    ApproveEffect(bookings, id, j);
    var after := Approve(bookings, id);
    assert after[id].status == APPROVED && after[id].session == after[j].session;
  }

  /** approveBooking: not found, not PENDING and same-session-approved fail
      and change nothing; otherwise the target becomes APPROVED and its
      conflicting PENDING/APPROVED bookings are rejected with the fixed reason,
      all in one step. */
  method ApproveBooking(db: Database, id: nat) returns (r: ActionResult<Booking>)
    requires db.Valid()
    modifies db
    ensures db.Valid()
    ensures db.rooms == old(db.rooms) && db.config == old(db.config)
    ensures db.foods == old(db.foods) && db.snacks == old(db.snacks)
    ensures ApproveCheck(old(db.bookings), id).Some? ==>
      r == Failure(AdminMessage(ApproveCheck(old(db.bookings), id).value)) && db.bookings == old(db.bookings)
    ensures ApproveCheck(old(db.bookings), id).None? ==>
      db.bookings == Approve(old(db.bookings), id) && r == Success(db.bookings[id])
    ensures ApprovedExclusive(old(db.bookings)) ==> ApprovedExclusive(db.bookings)
  {
    if id >= |db.bookings| {
      return ErrorResult(AdminMessage(BookingNotFound));
    }
    var booking := db.bookings[id];
    if booking.status != PENDING {
      return ErrorResult(AdminMessage(AlreadyProcessed));
    }
    if SameSessionApproved(db.bookings, id) {
      return ErrorResult(AdminMessage(SessionAlreadyApproved));
    }
    ghost var before := db.bookings;
    // findMany: the conflicting rows, in table order
    var conflictIds: seq<nat> := [];
    for j := 0 to |db.bookings|
      invariant forall x :: x in conflictIds ==> x < j
      invariant forall x :: 0 <= x < j ==> (x in conflictIds <==> IsConflict(before, id, x))
    {
      if IsConflict(db.bookings, id, j) {
        conflictIds := conflictIds + [j];
      }
    }
    var approvedBooking := booking.(status := APPROVED);
    db.bookings := db.bookings[id := approvedBooking];
    ghost var afterTarget := db.bookings;
    // updateMany over the conflicting ids
    assert forall k :: 0 <= k < |conflictIds| ==> conflictIds[k] < |afterTarget| by {
      forall k | 0 <= k < |conflictIds| ensures conflictIds[k] < |afterTarget| {
        assert conflictIds[k] in conflictIds;
      }
    }
    for t := 0 to |conflictIds|
      invariant db.rooms == old(db.rooms) && db.config == old(db.config)
      invariant db.foods == old(db.foods) && db.snacks == old(db.snacks)
      invariant |db.bookings| == |afterTarget|
      invariant forall x :: 0 <= x < |afterTarget| ==>
        db.bookings[x] == if x in conflictIds[..t] then Displaced(afterTarget[x]) else afterTarget[x]
    {
      var x := conflictIds[t];
      assert conflictIds[..t + 1] == conflictIds[..t] + [x];
      db.bookings := db.bookings[x := Displaced(db.bookings[x])];
    }
    assert conflictIds[..|conflictIds|] == conflictIds;
    assert db.bookings == Approve(before, id);
    if ApprovedExclusive(before) {
      ApprovePreservesExclusive(before, id);
    }
    return SuccessResult(approvedBooking);
  }

  // ---------------------------------------------------------------------
  // rejectBooking
  // ---------------------------------------------------------------------

  /** The characters String.prototype.trim removes: white space and line terminators. */
  predicate IsWhitespace(c: char) {
    || c == '\t' || c == '\n' || c == '\U{000B}' || c == '\U{000C}' || c == '\r' || c == ' '
    || c == '\U{00A0}' || c == '\U{1680}' || ('\U{2000}' <= c <= '\U{200A}')
    || c == '\U{2028}' || c == '\U{2029}' || c == '\U{202F}' || c == '\U{205F}'
    || c == '\U{3000}' || c == '\U{FEFF}'
  }

  /** `s` with its leading white space removed. */
  function TrimStart(s: string): (r: string)
    ensures |r| <= |s| && r == s[|s| - |r|..]
    ensures forall i :: 0 <= i < |s| - |r| ==> IsWhitespace(s[i])
    ensures r != [] ==> !IsWhitespace(r[0])
  {
    if s == [] then s
    else if IsWhitespace(s[0]) then TrimStart(s[1..])
    else s
  }

  /** `s` with its trailing white space removed. */
  function TrimEnd(s: string): (r: string)
    ensures |r| <= |s| && r == s[..|r|]
    ensures forall i :: |r| <= i < |s| ==> IsWhitespace(s[i])
    ensures r != [] ==> !IsWhitespace(r[|r| - 1])
  {
    if s == [] then s
    else if IsWhitespace(s[|s| - 1]) then TrimEnd(s[..|s| - 1])
    else s
  }

  /** String.prototype.trim. */
  function Trim(s: string): string {
    TrimEnd(TrimStart(s))
  }

  /** `reason.trim()` is empty exactly when every character of `reason` is white space. */
  lemma TrimEmptyIffBlank(s: string)
    ensures Trim(s) == "" <==> forall i :: 0 <= i < |s| ==> IsWhitespace(s[i])
  {
  }

  /** The checks of rejectBooking in their order; the reason is checked before any lookup. */
  function RejectCheck(bookings: seq<Booking>, id: nat, reason: string): Option<AdminError> {
    if Trim(reason) == "" then Some(ReasonRequired)
    else if id >= |bookings| then Some(BookingNotFound)
    else if bookings[id].status != PENDING then Some(OnlyPendingRejectable)
    else None
  }

  /** The booking table after a successful rejectBooking. */
  function Reject(bookings: seq<Booking>, id: nat, reason: string): (r: seq<Booking>)
    requires id < |bookings|
    ensures |r| == |bookings|
  {
    bookings[id := bookings[id].(status := REJECTED, rejectionReason := Some(reason))]
  }

  /** A blank or whitespace-only reason is refused whatever the id, so the
      booking stays as it was. */
  lemma BlankReasonFails(bookings: seq<Booking>, id: nat, reason: string)
    requires forall i :: 0 <= i < |reason| ==> IsWhitespace(reason[i])
    ensures RejectCheck(bookings, id, reason) == Some(ReasonRequired)
  {
  }

  /** Rejection only removes approvals, so it keeps their exclusivity. */
  lemma RejectPreservesExclusive(bookings: seq<Booking>, id: nat, reason: string)
    requires id < |bookings|
    requires ApprovedExclusive(bookings)
    ensures ApprovedExclusive(Reject(bookings, id, reason))
  {
  }

  /** Both transitions leave PENDING for good: after either one, neither can
      be applied to the same booking again. */
  lemma DecisionsAreFinal(bookings: seq<Booking>, id: nat, reason: string, reason2: string)
    requires Trim(reason2) != ""
    ensures ApproveCheck(bookings, id).None? ==>
      RejectCheck(Approve(bookings, id), id, reason2) == Some(OnlyPendingRejectable)
    ensures RejectCheck(bookings, id, reason).None? ==>
      ApproveCheck(Reject(bookings, id, reason), id) == Some(AlreadyProcessed) &&
      RejectCheck(Reject(bookings, id, reason), id, reason2) == Some(OnlyPendingRejectable)
  {
  }

  /** rejectBooking: a blank reason, an unknown id and a non-PENDING booking
      fail and change nothing; otherwise only the target becomes REJECTED with
      the given reason. */
  method RejectBooking(db: Database, id: nat, reason: string) returns (r: ActionResult<Booking>)
    requires db.Valid()
    modifies db
    ensures db.Valid()
    ensures db.rooms == old(db.rooms) && db.config == old(db.config)
    ensures db.foods == old(db.foods) && db.snacks == old(db.snacks)
    ensures RejectCheck(old(db.bookings), id, reason).Some? ==>
      r == Failure(AdminMessage(RejectCheck(old(db.bookings), id, reason).value)) &&
      db.bookings == old(db.bookings)
    ensures RejectCheck(old(db.bookings), id, reason).None? ==>
      db.bookings == Reject(old(db.bookings), id, reason) && r == Success(db.bookings[id])
    ensures ApprovedExclusive(old(db.bookings)) ==> ApprovedExclusive(db.bookings)
  {
    if Trim(reason) == "" {
      return ErrorResult(AdminMessage(ReasonRequired));
    }
    if id >= |db.bookings| {
      return ErrorResult(AdminMessage(BookingNotFound));
    }
    var booking := db.bookings[id];
    if booking.status != PENDING {
      return ErrorResult(AdminMessage(OnlyPendingRejectable));
    }
    var rejected := booking.(status := REJECTED, rejectionReason := Some(reason));
    if ApprovedExclusive(db.bookings) {
      RejectPreservesExclusive(db.bookings, id, reason);
    }
    db.bookings := db.bookings[id := rejected];
    return SuccessResult(rejected);
  }

  // ---------------------------------------------------------------------
  // System config
  // ---------------------------------------------------------------------

  /** updateAutoApprove: with no config row it fails; otherwise it sets the
      flag to `autoApprove` and leaves every other table alone. */
  method UpdateAutoApprove(db: Database, autoApprove: bool) returns (r: ActionResult<SystemConfig>)
    requires db.Valid()
    modifies db
    ensures db.Valid()
    ensures db.rooms == old(db.rooms) && db.bookings == old(db.bookings)
    ensures db.foods == old(db.foods) && db.snacks == old(db.snacks)
    ensures old(db.config).None? ==> r == Failure(AdminMessage(ConfigNotFound)) && db.config == old(db.config)
    ensures old(db.config).Some? ==>
      db.config == Some(SystemConfig(autoApprove)) && r == Success(SystemConfig(autoApprove))
  {
    if db.config.None? {
      return ErrorResult(AdminMessage(ConfigNotFound));
    }
    var updated := db.config.value.(autoApprove := autoApprove);
    db.config := Some(updated);
    return SuccessResult(updated);
  }

  /** getSystemConfig: the config row, or an error when it is missing. */
  method GetSystemConfig(db: Database) returns (r: ActionResult<SystemConfig>)
    ensures r.success <==> db.config.Some?
    ensures r.success ==> r.data == db.config.value
    ensures !r.success ==> r.error == AdminMessage(ConfigNotFound)
  {
    if db.config.None? {
      return ErrorResult(AdminMessage(ConfigNotFound));
    }
    return SuccessResult(db.config.value);
  }
}
