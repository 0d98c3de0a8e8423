/** The requester-side actions of the booking engine (app/actions/pic-actions.ts):
    the two availability calculators, each with its own cut-off rule, the WITA
    clock, and the admission of a new booking. */
module PicActions {
  import opened Types
  import opened Schema

  // ---------------------------------------------------------------------
  // Clock. An instant is a number of milliseconds since the epoch; Dafny's
  // division by a positive constant rounds down, as the UTC getters of a
  // JavaScript Date do, so negative instants are handled alike.
  // ---------------------------------------------------------------------

  const MS_PER_HOUR: int := 3600000
  const MS_PER_DAY: int := 86400000
  /** WITA is UTC+8. */
  const WITA_OFFSET: int := 8 * MS_PER_HOUR

  /** Date.getUTCHours of instant `t`. */
  function UtcHours(t: int): (h: nat)
    ensures h < 24
  {
    (t / MS_PER_HOUR) % 24
  }

  /** The day index of `Date.UTC(getUTCFullYear(), getUTCMonth(), getUTCDate())`. */
  function UtcDay(t: int): int {
    t / MS_PER_DAY
  }

  /** The hour-of-day of `t` is the hour count within its UTC day. */
  lemma UtcHoursWithinDay(t: int)
    ensures UtcHours(t) == (t % MS_PER_DAY) / MS_PER_HOUR
    ensures t == UtcDay(t) * MS_PER_DAY + t % MS_PER_DAY
  {
    var d, r := t / MS_PER_DAY, t % MS_PER_DAY;
    assert t == d * MS_PER_DAY + r;
    var q := r / MS_PER_HOUR;
    assert r == q * MS_PER_HOUR + r % MS_PER_HOUR;
    assert 0 <= q < 24;
    assert t == (d * 24 + q) * MS_PER_HOUR + r % MS_PER_HOUR;
    assert t / MS_PER_HOUR == d * 24 + q;
    assert (d * 24 + q) % 24 == q;
  }

  /** getWIBTime's result: the WITA hour and the instant shifted by +8 hours. */
  datatype WitaTime = WitaTime(hours: nat, date: int)

  /** getWIBTime: the wall clock of the UTC+8 zone. */
  function GetWIBTime(t: int): (w: WitaTime)
    ensures w.hours < 24
    ensures w.date == t + WITA_OFFSET
    ensures w.hours == ((t + WITA_OFFSET) / MS_PER_HOUR) % 24
  {
    var shifted := t + WITA_OFFSET;
    WitaTime(UtcHours(shifted), shifted)
  }

  /** The WITA hour runs eight hours ahead of the UTC hour, wrapping at midnight. */
  lemma WitaHoursShift(t: int)
    ensures GetWIBTime(t).hours == (UtcHours(t) + 8) % 24
  {
    var q := t / MS_PER_HOUR;
    assert t == q * MS_PER_HOUR + t % MS_PER_HOUR;
    assert t + WITA_OFFSET == (q + 8) * MS_PER_HOUR + t % MS_PER_HOUR;
    assert (t + WITA_OFFSET) / MS_PER_HOUR == q + 8;
    var a, r := q / 24, q % 24;
    assert q + 8 == a * 24 + (r + 8);
    if r + 8 < 24 {
      assert (q + 8) % 24 == r + 8;
    } else {
      assert q + 8 == (a + 1) * 24 + (r + 8 - 24);
      assert (q + 8) % 24 == r + 8 - 24;
    }
  }

  /** The calendar day in WITA: `toISOString().slice(0, 10)` of the shifted instant. */
  function WitaDay(t: int): int {
    UtcDay(GetWIBTime(t).date)
  }

  /** From 16:00 UTC on, the WITA date is already the next UTC date. */
  lemma WitaDayShift(t: int)
    ensures WitaDay(t) == UtcDay(t) + (if UtcHours(t) >= 16 then 1 else 0)
  {
    UtcHoursWithinDay(t);
    var d, r := UtcDay(t), t % MS_PER_DAY;
    assert t + WITA_OFFSET == d * MS_PER_DAY + (r + WITA_OFFSET);
    if r < 16 * MS_PER_HOUR {
      assert UtcHours(t) < 16;
      assert (t + WITA_OFFSET) / MS_PER_DAY == d;
    } else {
      assert UtcHours(t) >= 16;
      assert t + WITA_OFFSET == (d + 1) * MS_PER_DAY + (r + WITA_OFFSET - MS_PER_DAY);
      assert (t + WITA_OFFSET) / MS_PER_DAY == d + 1;
    }
  }

  // ---------------------------------------------------------------------
  // getAvailableRooms: exact-match removal, then UTC start-hour cut-offs.
  // ---------------------------------------------------------------------

  /** The UTC hour from which getAvailableRooms stops offering a session today. */
  function UtcCutoffHour(s: Session): nat {
    match s
    case SESSION_1 => 8
    case SESSION_2 => 13
    case FULLDAY => 8
  }

  /** The sessions are listed in enum order, each at most once. */
  predicate Ascending(sessions: seq<Session>) {
    forall i, j :: 0 <= i < j < |sessions| ==> Rank(sessions[i]) < Rank(sessions[j])
  }

  /** The first filter of getAvailableRooms: every session, in enum order,
      that is not itself in the booked list. No overlap rule is applied. */
  method UnbookedSessions(bookedSessions: seq<Session>) returns (availableSessions: seq<Session>)
    ensures forall s :: s in availableSessions <==> s !in bookedSessions
    ensures Ascending(availableSessions)
  {
    availableSessions := [];
    for i := 0 to |AllSessions|
      invariant forall s :: s in availableSessions <==> Rank(s) < i && s !in bookedSessions
      invariant forall k :: 0 <= k < |availableSessions| ==> Rank(availableSessions[k]) < i
      invariant Ascending(availableSessions)
    {
      var session := AllSessions[i];
      assert Rank(session) == i;
      if session !in bookedSessions {
        availableSessions := availableSessions + [session];
      }
    }
  }

  /** The second filter of getAvailableRooms, applied on today: keeps the
      sessions whose UTC cut-off hour has not come, in their order. */
  method DropStarted(sessions: seq<Session>, currentHour: int) returns (kept: seq<Session>)
    requires Ascending(sessions)
    ensures forall s :: s in kept <==> s in sessions && currentHour < UtcCutoffHour(s)
    ensures Ascending(kept)
  {
    kept := [];
    for i := 0 to |sessions|
      invariant forall s :: s in kept <==> s in sessions[..i] && currentHour < UtcCutoffHour(s)
      invariant forall k :: 0 <= k < |kept| ==> kept[k] in sessions[..i]
      invariant Ascending(kept)
    {
      var session := sessions[i];
      assert sessions[..i + 1] == sessions[..i] + [session];
      if currentHour < UtcCutoffHour(session) {
        assert forall k :: 0 <= k < |kept| ==> Rank(kept[k]) < Rank(session);
        kept := kept + [session];
      }
    }
    assert sessions[..|sessions|] == sessions;
  }

  /** The two filters of getAvailableRooms over the session list: drop every
      session that is itself booked, then, on today, drop those whose UTC
      cut-off hour has come. */
  method FilterSessions(bookedSessions: seq<Session>, isToday: bool, currentHour: int)
    returns (availableSessions: seq<Session>)
    ensures forall s :: s in availableSessions <==>
      s !in bookedSessions && !(isToday && currentHour >= UtcCutoffHour(s))
    ensures Ascending(availableSessions)
  {
    availableSessions := UnbookedSessions(bookedSessions);
    if isToday {
      availableSessions := DropStarted(availableSessions, currentHour);
    }
  }

  /** One entry of getAvailableRooms: the room and its offered sessions. */
  datatype RoomSessions = RoomSessions(room: Room, availableSessions: seq<Session>)

  /** getAvailableRooms offers `s` of `roomId` on `day` when no APPROVED booking
      holds exactly `s` and, on today, the UTC cut-off of `s` has not come. */
  predicate OfferedUtc(bookings: seq<Booking>, roomId: string, day: int, isToday: bool, currentHour: int, s: Session) {
    !HasApproved(bookings, roomId, day, s) && !(isToday && currentHour >= UtcCutoffHour(s))
  }

  /** getAvailableRooms: for every room, the sessions of `bookingDate` that no
      APPROVED booking holds exactly, minus, when `bookingDate` is the UTC
      today, the sessions whose UTC start-hour cut-off has passed. */
  method GetAvailableRooms(db: Database, bookingDate: int, now: int) returns (result: seq<RoomSessions>)
    ensures |result| == |db.rooms|
    ensures forall i :: 0 <= i < |result| ==> result[i].room == db.rooms[i]
    ensures forall i, s :: 0 <= i < |result| ==>
      (s in result[i].availableSessions <==>
        OfferedUtc(db.bookings, db.rooms[i].id, bookingDate, bookingDate == UtcDay(now), UtcHours(now), s))
    ensures forall i :: 0 <= i < |result| ==> Ascending(result[i].availableSessions)
  {
    var isToday := bookingDate == UtcDay(now);
    var currentHour := UtcHours(now);
    result := [];
    for i := 0 to |db.rooms|
      invariant |result| == i
      invariant forall m :: 0 <= m < i ==> result[m].room == db.rooms[m]
      invariant forall m, s :: 0 <= m < i ==>
        (s in result[m].availableSessions <==>
          OfferedUtc(db.bookings, db.rooms[m].id, bookingDate, isToday, currentHour, s))
      invariant forall m :: 0 <= m < i ==> Ascending(result[m].availableSessions)
    {
      var room := db.rooms[i];
      var bookedSessions := ApprovedSessions(db.bookings, room.id, bookingDate);
      var availableSessions := FilterSessions(bookedSessions, isToday, currentHour);
      result := result + [RoomSessions(room, availableSessions)];
    }
  }

  // ---------------------------------------------------------------------
  // getRoomAvailability: a status per session, overlap rules, WITA end-hour
  // cut-offs, FULLDAY cut at the end of SESSION_1.
  // ---------------------------------------------------------------------

  datatype Availability = TERSEDIA | TERPAKAI | DISABLED

  /** getSessionStatus: booked beats everything; otherwise a session of today
      whose end hour has come is DISABLED; otherwise it is free. */
  function GetSessionStatus(isBooked: bool, isToday: bool, currentHourWITA: int, sessionTime: SessionTime): (st: Availability)
    ensures isBooked ==> st == TERPAKAI
    ensures !isBooked ==> (st == DISABLED <==> isToday && currentHourWITA >= sessionTime.end)
    ensures st == TERSEDIA <==> !isBooked && !(isToday && currentHourWITA >= sessionTime.end)
  {
    if isBooked then TERPAKAI
    else if isToday && currentHourWITA >= sessionTime.end then DISABLED
    else TERSEDIA
  }

  datatype SessionAvailability = SessionAvailability(session1: Availability, session2: Availability, fullday: Availability)

  function StatusOf(a: SessionAvailability, s: Session): Availability {
    match s
    case SESSION_1 => a.session1
    case SESSION_2 => a.session2
    case FULLDAY => a.fullday
  }

  /** The `sessionAvailability` record of one room, from the sessions its
      APPROVED bookings of the day hold. */
  function RoomSessionAvailability(booked: seq<Session>, isToday: bool, currentHourWITA: int): SessionAvailability {
    var hasS1 := SESSION_1 in booked;
    var hasS2 := SESSION_2 in booked;
    var hasFD := FULLDAY in booked;
    SessionAvailability(
      if hasFD then TERPAKAI else GetSessionStatus(hasS1, isToday, currentHourWITA, SessionTimes(SESSION_1)),
      if hasFD then TERPAKAI else GetSessionStatus(hasS2, isToday, currentHourWITA, SessionTimes(SESSION_2)),
      if hasS1 || hasS2 then DISABLED
      else if hasFD then TERPAKAI
      else if isToday && currentHourWITA >= SessionTimes(SESSION_1).end then DISABLED
      else TERSEDIA)
  }

  /** The WITA hour from which getRoomAvailability shows an unbooked session of
      today as DISABLED: the end of the session, and for FULLDAY the end of SESSION_1. */
  function DisplayCutoffHour(s: Session): nat {
    match s
    case SESSION_1 => SessionTimes(SESSION_1).end
    case SESSION_2 => SessionTimes(SESSION_2).end
    case FULLDAY => SessionTimes(SESSION_1).end
  }

  /** The overlap rules of the status map: an approved FULLDAY takes both halves,
      an approved half disables FULLDAY even when FULLDAY is itself booked, and
      an unbooked FULLDAY of today is cut at 12 WITA. */
  lemma RoomAvailabilityOverlapRules(booked: seq<Session>, isToday: bool, hour: int)
    ensures var a := RoomSessionAvailability(booked, isToday, hour);
      && (FULLDAY in booked ==> a.session1 == TERPAKAI && a.session2 == TERPAKAI)
      && (SESSION_1 in booked || SESSION_2 in booked ==> a.fullday == DISABLED)
      && (booked == [] ==> (a.fullday == DISABLED <==> isToday && hour >= 12))
      && (booked == [] ==> (a.fullday == TERSEDIA <==> !(isToday && hour >= 12)))
  {
  }

  /** What each status means: a session is TERSEDIA exactly when no approved
      session overlaps it and its display cut-off has not come, and TERPAKAI
      exactly when it is taken by itself or, for a half, by FULLDAY. */
  lemma RoomAvailabilityExact(booked: seq<Session>, isToday: bool, hour: int, s: Session)
    ensures var st := StatusOf(RoomSessionAvailability(booked, isToday, hour), s);
      && (st == TERSEDIA <==>
            (forall t :: t in booked ==> !Overlaps(s, t)) && !(isToday && hour >= DisplayCutoffHour(s)))
      && (st == TERPAKAI <==>
            if s == FULLDAY then FULLDAY in booked && SESSION_1 !in booked && SESSION_2 !in booked
            else s in booked || FULLDAY in booked)
  {
  }

  /** No APPROVED booking of `roomId` on `day` holds a session overlapping `s`. */
  predicate NoApprovedOverlap(bookings: seq<Booking>, roomId: string, day: int, s: Session) {
    forall k ::
      0 <= k < |bookings| && bookings[k].status == APPROVED &&
      bookings[k].roomId == roomId && bookings[k].bookingDate == day
      ==> !Overlaps(s, bookings[k].session)
  }

  /** Checking the booked-session list against `s` is checking every APPROVED booking. */
  lemma NoApprovedOverlapBySessions(bookings: seq<Booking>, roomId: string, day: int, s: Session)
    ensures NoApprovedOverlap(bookings, roomId, day, s) <==>
      forall t :: t in ApprovedSessions(bookings, roomId, day) ==> !Overlaps(s, t)
  {
  }

  /** getRoomAvailability shows `s` of `roomId` on `day` as TERSEDIA exactly
      when no APPROVED booking overlaps it and, on today, its display cut-off
      has not come. */
  predicate ShownFree(bookings: seq<Booking>, roomId: string, day: int, isToday: bool, hourWITA: int, s: Session) {
    NoApprovedOverlap(bookings, roomId, day, s) && !(isToday && hourWITA >= DisplayCutoffHour(s))
  }

  /** One entry of getRoomAvailability. */
  datatype RoomAvailability = RoomAvailability(id: string, name: string, capacity: int, sessionAvailability: SessionAvailability)

  /** getRoomAvailability: every room with its status map for `bookingDate`,
      "today" being the WITA date of `now`. A session is shown TERSEDIA exactly
      when no APPROVED booking of that room and date holds an overlapping
      session and its display cut-off has not come. */
  function GetRoomAvailability(db: Database, bookingDate: int, now: int): (r: seq<RoomAvailability>)
    reads db
    ensures |r| == |db.rooms|
    ensures forall i :: 0 <= i < |r| ==>
      r[i].id == db.rooms[i].id && r[i].name == db.rooms[i].name && r[i].capacity == db.rooms[i].capacity
    ensures forall i, s :: 0 <= i < |r| ==>
      (StatusOf(r[i].sessionAvailability, s) == TERSEDIA <==>
        ShownFree(db.bookings, db.rooms[i].id, bookingDate, bookingDate == WitaDay(now), GetWIBTime(now).hours, s))
  {
    var isToday := bookingDate == WitaDay(now);
    var currentHourWITA := GetWIBTime(now).hours;
    var r := seq(|db.rooms|, i requires 0 <= i < |db.rooms| reads db =>
      RoomAvailability(db.rooms[i].id, db.rooms[i].name, db.rooms[i].capacity,
        RoomSessionAvailability(ApprovedSessions(db.bookings, db.rooms[i].id, bookingDate), isToday, currentHourWITA)));
    assert forall i, s :: 0 <= i < |r| ==>
      (StatusOf(r[i].sessionAvailability, s) == TERSEDIA <==>
        ShownFree(db.bookings, db.rooms[i].id, bookingDate, isToday, currentHourWITA, s)) by {
      forall i, s | 0 <= i < |r|
        ensures StatusOf(r[i].sessionAvailability, s) == TERSEDIA <==>
          ShownFree(db.bookings, db.rooms[i].id, bookingDate, isToday, currentHourWITA, s)
      {
        var booked := ApprovedSessions(db.bookings, db.rooms[i].id, bookingDate);
        assert r[i].sessionAvailability == RoomSessionAvailability(booked, isToday, currentHourWITA);
        RoomAvailabilityExact(booked, isToday, currentHourWITA, s);
        NoApprovedOverlapBySessions(db.bookings, db.rooms[i].id, bookingDate, s);
      }
    }
    r
  }

  // ---------------------------------------------------------------------
  // createBooking: ordered first-failure admission, then insert, then the
  // auto-approve status flip.
  // ---------------------------------------------------------------------

  /** The createBooking form; the requester's id comes from the session. */
  datatype BookingRequest = BookingRequest(
    roomId: string,
    bookingDate: int,
    session: Session,
    details: Details,
    foodIds: seq<string>,
    snackIds: seq<string>)

  /** The reasons createBooking refuses a request, in the order it checks them. */
  datatype AdmissionError =
    | PastDate
    | SessionStarted(session: Session)
    | DuplicateRequest
    | SessionTaken
    | PartiallyBooked
    | FullyBooked

  function AdmissionMessage(e: AdmissionError): string {
    match e
    case PastDate => "Cannot book for past dates."
    case SessionStarted(SESSION_1) => "SESSION_1 (08:00–12:00) has already started or passed."
    case SessionStarted(SESSION_2) => "SESSION_2 (13:00–16:00) has already started or passed."
    case SessionStarted(FULLDAY) => "FULLDAY (08:00–16:00) has already started or passed."
    case DuplicateRequest => "You already have a booking for this room, date, and session."
    case SessionTaken =>
      "This room is no longer available for the selected session. Please refresh and try another time."
    case PartiallyBooked =>
      "This room is partially booked during fullday hours. Please select a different date or session."
    case FullyBooked =>
      "This room is fully booked during this time. Please select a different date or session."
  }

  /** The WITA hour from which createBooking refuses a session of today: the
      end of a half session, the start of FULLDAY. */
  function TodayCutoffHour(s: Session): nat {
    match s
    case SESSION_1 => 12
    case SESSION_2 => 16
    case FULLDAY => 8
  }

  /** The requester already holds a PENDING or APPROVED booking of this room, date and session. */
  predicate HasOwnActive(bookings: seq<Booking>, userId: string, req: BookingRequest) {
    exists k :: 0 <= k < |bookings| && bookings[k].userId == userId &&
      bookings[k].roomId == req.roomId && bookings[k].bookingDate == req.bookingDate &&
      bookings[k].session == req.session && Active(bookings[k])
  }

  /** The checks of createBooking in their order; None means admitted. "Today"
      is the UTC date of `now`, the hour compared is the WITA hour. */
  function AdmissionCheck(bookings: seq<Booking>, userId: string, req: BookingRequest, now: int): Option<AdmissionError> {
    var today := UtcDay(now);
    var s := req.session;
    if req.bookingDate < today then Some(PastDate)
    else if req.bookingDate == today && GetWIBTime(now).hours >= TodayCutoffHour(s) then Some(SessionStarted(s))
    else if HasOwnActive(bookings, userId, req) then Some(DuplicateRequest)
    else if HasApproved(bookings, req.roomId, req.bookingDate, s) then Some(SessionTaken)
    else if s == FULLDAY &&
      (HasApproved(bookings, req.roomId, req.bookingDate, SESSION_1) ||
       HasApproved(bookings, req.roomId, req.bookingDate, SESSION_2)) then Some(PartiallyBooked)
    else if s != FULLDAY && HasApproved(bookings, req.roomId, req.bookingDate, FULLDAY) then Some(FullyBooked)
    else None
  }

  /** The first failing check decides: each reason is returned exactly when its
      own condition holds and every earlier check passed. */
  lemma AdmissionFirstFailure(bookings: seq<Booking>, userId: string, req: BookingRequest, now: int)
    ensures var e := AdmissionCheck(bookings, userId, req, now);
      var past := req.bookingDate < UtcDay(now);
      var started := req.bookingDate == UtcDay(now) && GetWIBTime(now).hours >= TodayCutoffHour(req.session);
      var duplicate := HasOwnActive(bookings, userId, req);
      var taken := HasApproved(bookings, req.roomId, req.bookingDate, req.session);
      && (e == Some(PastDate) <==> past)
      && (e == Some(SessionStarted(req.session)) <==> !past && started)
      && (e == Some(DuplicateRequest) <==> !past && !started && duplicate)
      && (e == Some(SessionTaken) <==> !past && !started && !duplicate && taken)
      && (e.Some? && e.value.SessionStarted? ==> e.value.session == req.session)
      && (e == Some(PartiallyBooked) ==> req.session == FULLDAY)
      && (e == Some(FullyBooked) ==> req.session != FULLDAY)
  {
  }

  /** Once the date, time and duplicate checks pass, a request is refused
      exactly when an APPROVED booking of the same room and date holds an
      overlapping session. */
  lemma AdmissionConflictIsOverlap(bookings: seq<Booking>, userId: string, req: BookingRequest, now: int)
    requires req.bookingDate >= UtcDay(now)
    requires !(req.bookingDate == UtcDay(now) && GetWIBTime(now).hours >= TodayCutoffHour(req.session))
    requires !HasOwnActive(bookings, userId, req)
    ensures AdmissionCheck(bookings, userId, req, now).Some? <==>
      exists k :: 0 <= k < |bookings| && bookings[k].status == APPROVED &&
        bookings[k].roomId == req.roomId && bookings[k].bookingDate == req.bookingDate &&
        Overlaps(bookings[k].session, req.session)
  {
  }

  /** A PENDING booking of another requester never changes the verdict:
      competing requests coexist until an approval decides between them. */
  lemma OtherPendingDoesNotBlock(bookings: seq<Booking>, userId: string, req: BookingRequest, now: int, other: Booking)
    requires other.status == PENDING && other.userId != userId
    ensures AdmissionCheck(bookings + [other], userId, req, now) == AdmissionCheck(bookings, userId, req, now)
  {
    var bs := bookings + [other];
    assert forall k :: 0 <= k < |bookings| ==> bs[k] == bookings[k];
    assert HasOwnActive(bs, userId, req) == HasOwnActive(bookings, userId, req) by {
      if HasOwnActive(bs, userId, req) {
        var k :| 0 <= k < |bs| && bs[k].userId == userId &&
          bs[k].roomId == req.roomId && bs[k].bookingDate == req.bookingDate &&
          bs[k].session == req.session && Active(bs[k]);
        assert k < |bookings|;
      }
    }
    forall s ensures HasApproved(bs, req.roomId, req.bookingDate, s) == HasApproved(bookings, req.roomId, req.bookingDate, s) {
      if HasApproved(bs, req.roomId, req.bookingDate, s) {
        var k :| 0 <= k < |bs| && HoldsApproved(bs[k], req.roomId, req.bookingDate, s);
        assert k < |bookings|;
      }
    }
  }

  /** Some row of `catalog` whose id is among `ids` has name `n`. */
  predicate SelectsName(catalog: seq<CatalogItem>, ids: seq<string>, n: string) {
    exists k :: 0 <= k < |catalog| && catalog[k].id in ids && catalog[k].name == n
  }

  /** `names[m]` is the name of row `idx[m]` of `catalog`, a row whose id is among `ids`. */
  predicate SelectionRows(catalog: seq<CatalogItem>, ids: seq<string>, idx: seq<int>, names: seq<string>) {
    && |idx| == |names|
    && forall m :: 0 <= m < |idx| ==>
         0 <= idx[m] < |catalog| && catalog[idx[m]].id in ids && names[m] == catalog[idx[m]].name
  }

  /** The positions in `idx` strictly ascend: each row is listed once, in table order. */
  predicate StrictlyAscending(idx: seq<int>) {
    forall m, m' :: 0 <= m < m' < |idx| ==> idx[m] < idx[m']
  }

  /** Every row of `catalog` whose id is among `ids` is listed in `idx`. */
  predicate SelectionCovers(catalog: seq<CatalogItem>, ids: seq<string>, idx: seq<int>) {
    forall k {:trigger k in idx} :: 0 <= k < |catalog| && catalog[k].id in ids ==> k in idx
  }

  /** `names` lists the selected rows of `catalog` one by one, in table order:
      `idx` holds, ascending, the positions of exactly the rows whose id is
      among `ids`, and `names[m]` is the name of row `idx[m]`. */
  predicate IsSelection(catalog: seq<CatalogItem>, ids: seq<string>, idx: seq<int>, names: seq<string>) {
    SelectionRows(catalog, ids, idx, names) && StrictlyAscending(idx) && SelectionCovers(catalog, ids, idx)
  }

  /** The positions of a selection of the rows after the first, as positions
      in the whole table. */
  ghost function Shifted(idx: seq<int>): (r: seq<int>)
    ensures |r| == |idx| && forall m :: 0 <= m < |idx| ==> r[m] == idx[m] + 1
  {
    seq(|idx|, m requires 0 <= m < |idx| => idx[m] + 1)
  }

  /** A selection of the rows after the first, shifted by one, selects the
      same rows of the whole table, none of them the first. */
  lemma SelectionShift(catalog: seq<CatalogItem>, ids: seq<string>, idx: seq<int>, rest: seq<string>)
    requires catalog != [] && IsSelection(catalog[1..], ids, idx, rest)
    ensures SelectionRows(catalog, ids, Shifted(idx), rest)
    ensures forall m :: 0 <= m < |idx| ==> Shifted(idx)[m] >= 1
    ensures StrictlyAscending(Shifted(idx))
    ensures forall k {:trigger k in Shifted(idx)} :: 1 <= k < |catalog| && catalog[k].id in ids ==> k in Shifted(idx)
  {
    var sh := Shifted(idx);
    forall m | 0 <= m < |idx| ensures catalog[sh[m]] == catalog[1..][idx[m]] {
    }
    forall k | 1 <= k < |catalog| && catalog[k].id in ids ensures k in sh {
      assert catalog[1..][k - 1] == catalog[k];
      assert k - 1 in idx;
      var m :| 0 <= m < |idx| && idx[m] == k - 1;
      assert sh[m] == k;
    }
  }

  /** Putting the selected first row in front keeps the rows and names paired. */
  lemma RowsCons(catalog: seq<CatalogItem>, ids: seq<string>, sh: seq<int>, rest: seq<string>)
    requires catalog != [] && catalog[0].id in ids && SelectionRows(catalog, ids, sh, rest)
    ensures SelectionRows(catalog, ids, [0] + sh, [catalog[0].name] + rest)
  {
    var idx' := [0] + sh;
    var names := [catalog[0].name] + rest;
    forall m | 0 <= m < |idx'|
      ensures 0 <= idx'[m] < |catalog| && catalog[idx'[m]].id in ids && names[m] == catalog[idx'[m]].name
    {
      if m > 0 {
        assert idx'[m] == sh[m - 1] && names[m] == rest[m - 1];
      }
    }
  }

  /** Position 0 in front of ascending positions past 0 keeps them ascending. */
  lemma AscendingCons(sh: seq<int>)
    requires StrictlyAscending(sh) && forall m :: 0 <= m < |sh| ==> sh[m] >= 1
    ensures StrictlyAscending([0] + sh)
  {
    var idx' := [0] + sh;
    forall m, m' | 0 <= m < m' < |idx'| ensures idx'[m] < idx'[m'] {
      assert idx'[m'] == sh[m' - 1];
      if m > 0 {
        assert idx'[m] == sh[m - 1];
      }
    }
  }

  /** The snapshot entry of one catalog row: its name when the row is selected. */
  function RowName(row: CatalogItem, ids: seq<string>): seq<string> {
    if row.id in ids then [row.name] else []
  }

  /** When the first row is selected, its name goes in front of the rest. */
  lemma SelectionTake(catalog: seq<CatalogItem>, ids: seq<string>, idx: seq<int>, rest: seq<string>)
    requires catalog != [] && catalog[0].id in ids && IsSelection(catalog[1..], ids, idx, rest)
    ensures IsSelection(catalog, ids, [0] + Shifted(idx), [catalog[0].name] + rest)
  {
    SelectionShift(catalog, ids, idx, rest);
    var sh := Shifted(idx);
    RowsCons(catalog, ids, sh, rest);
    AscendingCons(sh);
    forall k | 0 <= k < |catalog| && catalog[k].id in ids ensures k in [0] + sh {
      if k > 0 {
        assert k in sh;
      }
    }
  }

  /** When the first row is not selected, the rest's selection, shifted, is the whole one. */
  lemma SelectionSkip(catalog: seq<CatalogItem>, ids: seq<string>, idx: seq<int>, rest: seq<string>)
    requires catalog != [] && catalog[0].id !in ids && IsSelection(catalog[1..], ids, idx, rest)
    ensures IsSelection(catalog, ids, Shifted(idx), rest)
  {
    SelectionShift(catalog, ids, idx, rest);
    forall k | 0 <= k < |catalog| && catalog[k].id in ids ensures k in Shifted(idx) {
      assert k >= 1;
    }
  }

  /** The name snapshot of the selected catalog rows: `findMany({ id: { in: ids } })`
      mapped to names, one name per selected row, in table order. */
  function NameSnapshot(catalog: seq<CatalogItem>, ids: seq<string>): (names: seq<string>)
    ensures |names| <= |catalog|
    ensures forall n :: n in names <==> SelectsName(catalog, ids, n)
    ensures exists idx :: IsSelection(catalog, ids, idx, names)
  {
    if catalog == [] then
      assert IsSelection(catalog, ids, [], []);
      []
    else
      var rest := NameSnapshot(catalog[1..], ids);
      assert exists idx :: IsSelection(catalog, ids, idx, RowName(catalog[0], ids) + rest) by {
        var idx :| IsSelection(catalog[1..], ids, idx, rest);
        if catalog[0].id in ids {
          SelectionTake(catalog, ids, idx, rest);
          assert IsSelection(catalog, ids, [0] + Shifted(idx), RowName(catalog[0], ids) + rest);
        } else {
          SelectionSkip(catalog, ids, idx, rest);
          assert IsSelection(catalog, ids, Shifted(idx), RowName(catalog[0], ids) + rest);
        }
      }
      assert forall n :: SelectsName(catalog, ids, n) ==>
          (catalog[0].id in ids && catalog[0].name == n) || SelectsName(catalog[1..], ids, n) by {
        forall n | SelectsName(catalog, ids, n)
          ensures (catalog[0].id in ids && catalog[0].name == n) || SelectsName(catalog[1..], ids, n)
        {
          var k :| 0 <= k < |catalog| && catalog[k].id in ids && catalog[k].name == n;
          if k > 0 {
            assert catalog[1..][k - 1] == catalog[k];
          }
        }
      }
      assert forall n :: SelectsName(catalog[1..], ids, n) ==> SelectsName(catalog, ids, n) by {
        forall n | SelectsName(catalog[1..], ids, n) ensures SelectsName(catalog, ids, n) {
          var k :| 0 <= k < |catalog[1..]| && catalog[1..][k].id in ids && catalog[1..][k].name == n;
          assert catalog[k + 1] == catalog[1..][k];
        }
      }
      RowName(catalog[0], ids) + rest
  }

  /** Two selected rows with the same name give two entries: with the rows
      ("a", "A") and ("b", "A") both selected, the snapshot is ["A", "A"]. */
  lemma SnapshotKeepsRepeatedNames()
    ensures NameSnapshot([CatalogItem("a", "A"), CatalogItem("b", "A")], ["a", "b"]) == ["A", "A"]
  {
    var catalog := [CatalogItem("a", "A"), CatalogItem("b", "A")];
    var ids := ["a", "b"];
    assert catalog[1..][1..] == [];
    assert NameSnapshot(catalog[1..], ids) == ["A"];
  }

  /** The rows createBooking's insert references exist: the room (a foreign key
      of the booking) and every selected food and snack (foreign keys of the
      join rows). Otherwise the database refuses the insert. */
  predicate ReferencesResolve(rooms: seq<Room>, foods: seq<CatalogItem>, snacks: seq<CatalogItem>, req: BookingRequest) {
    && RoomExists(rooms, req.roomId)
    && (forall id :: id in req.foodIds ==> CatalogHas(foods, id))
    && (forall id :: id in req.snackIds ==> CatalogHas(snacks, id))
  }

  /** `config?.autoApprove`: a missing config row reads as off. */
  predicate AutoApproveOn(config: Option<SystemConfig>) {
    config.Some? && config.value.autoApprove
  }

  /** The booking row createBooking stores, with the given status. */
  function NewBooking(userId: string, req: BookingRequest, now: int,
                      foods: seq<CatalogItem>, snacks: seq<CatalogItem>, status: Status): Booking
  {
    Booking(req.roomId, userId, req.bookingDate, req.session, req.details,
            req.foodIds, req.snackIds, NameSnapshot(foods, req.foodIds), NameSnapshot(snacks, req.snackIds),
            status, None, now)
  }

  /** A request that passes every check can be added, as PENDING or as
      APPROVED, without breaking the exclusivity of APPROVED bookings. */
  lemma AdmittedKeepsExclusive(bookings: seq<Booking>, userId: string, req: BookingRequest, now: int, b: Booking)
    requires AdmissionCheck(bookings, userId, req, now).None?
    requires ApprovedExclusive(bookings)
    requires b.roomId == req.roomId && b.bookingDate == req.bookingDate && b.session == req.session
    ensures ApprovedExclusive(bookings + [b])
  {
  }

  /** createBooking: runs the checks in order and, on the first failure,
      returns its message and stores nothing; otherwise inserts one PENDING
      booking with the name snapshots and, when auto-approve is on, flips that
      booking (and no other) to APPROVED. */
  method CreateBooking(db: Database, userId: string, req: BookingRequest, now: int) returns (r: ActionResult<Booking>)
    requires db.Valid()
    modifies db
    ensures db.Valid()
    ensures db.rooms == old(db.rooms) && db.foods == old(db.foods) && db.snacks == old(db.snacks)
    ensures db.config == old(db.config)
    ensures AdmissionCheck(old(db.bookings), userId, req, now).Some? ==>
      r == Failure(AdmissionMessage(AdmissionCheck(old(db.bookings), userId, req, now).value)) &&
      db.bookings == old(db.bookings)
    ensures (AdmissionCheck(old(db.bookings), userId, req, now).None? &&
             !ReferencesResolve(db.rooms, db.foods, db.snacks, req)) ==>
      r == Failure(STORAGE_ERROR) && db.bookings == old(db.bookings)
    ensures (AdmissionCheck(old(db.bookings), userId, req, now).None? &&
             ReferencesResolve(db.rooms, db.foods, db.snacks, req)) ==>
      r == Success(NewBooking(userId, req, now, db.foods, db.snacks,
                              if AutoApproveOn(db.config) then APPROVED else PENDING)) &&
      db.bookings == old(db.bookings) + [r.data]
    ensures ApprovedExclusive(old(db.bookings)) ==> ApprovedExclusive(db.bookings)
  {
    var today := UtcDay(now);
    var isToday := req.bookingDate == today;
    if req.bookingDate < today {
      return ErrorResult(AdmissionMessage(PastDate));
    }
    var currentHourWITA := GetWIBTime(now).hours;
    if isToday && currentHourWITA >= TodayCutoffHour(req.session) {
      return ErrorResult(AdmissionMessage(SessionStarted(req.session)));
    }
    if HasOwnActive(db.bookings, userId, req) {
      return ErrorResult(AdmissionMessage(DuplicateRequest));
    }
    if HasApproved(db.bookings, req.roomId, req.bookingDate, req.session) {
      return ErrorResult(AdmissionMessage(SessionTaken));
    }
    if req.session == FULLDAY {
      if HasApproved(db.bookings, req.roomId, req.bookingDate, SESSION_1) ||
         HasApproved(db.bookings, req.roomId, req.bookingDate, SESSION_2) {
        return ErrorResult(AdmissionMessage(PartiallyBooked));
      }
    }
    if req.session == SESSION_1 || req.session == SESSION_2 {
      if HasApproved(db.bookings, req.roomId, req.bookingDate, FULLDAY) {
        return ErrorResult(AdmissionMessage(FullyBooked));
      }
    }
    if !ReferencesResolve(db.rooms, db.foods, db.snacks, req) {
      return ErrorResult(STORAGE_ERROR);
    }
    var booking := NewBooking(userId, req, now, db.foods, db.snacks, PENDING);
    ghost var before := db.bookings;
    if ApprovedExclusive(before) {
      AdmittedKeepsExclusive(before, userId, req, now, booking);
    }
    db.bookings := db.bookings + [booking];
    if AutoApproveOn(db.config) {
      var approvedBooking := booking.(status := APPROVED);
      if ApprovedExclusive(before) {
        AdmittedKeepsExclusive(before, userId, req, now, approvedBooking);
      }
      db.bookings := db.bookings[|db.bookings| - 1 := approvedBooking];
      assert db.bookings == before + [approvedBooking];
      return SuccessResult(approvedBooking);
    }
    return SuccessResult(booking);
  }

  /** The two "today" notions disagree: from 16:00 UTC the WITA date has moved
      on, yet createBooking still compares against the UTC date and the WITA
      hour is below 8, so on an empty table every session of the UTC date,
      already the WITA yesterday, is admitted. */
  lemma AdmitsWitaYesterday(now: int, userId: string, req: BookingRequest)
    requires UtcHours(now) >= 16
    requires req.bookingDate == UtcDay(now)
    ensures WitaDay(now) == req.bookingDate + 1
    ensures AdmissionCheck([], userId, req, now) == None
  {
    WitaDayShift(now);
    WitaHoursShift(now);
  }
}
