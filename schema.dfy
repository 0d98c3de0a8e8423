/** The rows the booking engine reads and writes (the Prisma models behind
    `prisma.room`, `prisma.booking`, `prisma.food`, `prisma.snack` and
    `prisma.systemConfig`), the fixed session table, and the invariant the
    approval flow protects: no two APPROVED bookings of one room and date hold
    the same or overlapping sessions. */
module Schema {
  import opened Types

  /** BookingSession, in the order `Object.values(BookingSession)` lists it. */
  datatype Session = SESSION_1 | SESSION_2 | FULLDAY

  /** BookingStatus. */
  datatype Status = PENDING | APPROVED | REJECTED

  const AllSessions: seq<Session> := [SESSION_1, SESSION_2, FULLDAY]

  /** Position of a session in AllSessions. */
  function Rank(s: Session): (k: nat)
    ensures k < |AllSessions| && AllSessions[k] == s
  {
    match s
    case SESSION_1 => 0
    case SESSION_2 => 1
    case FULLDAY => 2
  }

  /** Start and end hour of a session, local (WITA) wall-clock time. */
  datatype SessionTime = SessionTime(start: nat, end: nat)

  /** The `sessionTimes` table: SESSION_1 08-12, SESSION_2 13-16, FULLDAY 08-16. */
  function SessionTimes(s: Session): (t: SessionTime)
    ensures 8 <= t.start < t.end <= 16
  {
    match s
    case SESSION_1 => SessionTime(8, 12)
    case SESSION_2 => SessionTime(13, 16)
    case FULLDAY => SessionTime(8, 16)
  }

  /** Two sessions overlap when their hour intervals [start, end) intersect. */
  predicate Overlaps(a: Session, b: Session) {
    SessionTimes(a).start < SessionTimes(b).end && SessionTimes(b).start < SessionTimes(a).end
  }

  /** The overlap relation read off the time table: FULLDAY overlaps every
      session, each session overlaps itself, and the two halves are disjoint. */
  lemma OverlapTable(a: Session, b: Session)
    ensures Overlaps(a, b) <==> a == b || a == FULLDAY || b == FULLDAY
    ensures Overlaps(a, b) == Overlaps(b, a)
    ensures !Overlaps(SESSION_1, SESSION_2)
  {
  }

  /** Free-text fields of a booking that the engine only copies. */
  datatype Details = Details(
    letterNumber: string,
    agenda: string,
    description: string,
    meetingType: string,
    note: Option<string>,
    documentUrl: Option<string>)

  /** A booking row. `bookingDate` is a day index (midnight UTC of that day);
      `createdAt` is a millisecond timestamp. A booking's id is its position
      in the booking table. */
  datatype Booking = Booking(
    roomId: string,
    userId: string,
    bookingDate: int,
    session: Session,
    details: Details,
    foodIds: seq<string>,
    snackIds: seq<string>,
    foodNames: seq<string>,
    snackNames: seq<string>,
    status: Status,
    rejectionReason: Option<string>,
    createdAt: int)

  datatype Room = Room(id: string, name: string, description: string, capacity: int)

  /** A food or snack catalog row. */
  datatype CatalogItem = CatalogItem(id: string, name: string)

  /** The SystemConfig row with id 1. */
  datatype SystemConfig = SystemConfig(autoApprove: bool)

  /** PENDING or APPROVED: a booking that still claims its slot. */
  predicate Active(b: Booking) {
    b.status == PENDING || b.status == APPROVED
  }

  /** Booking `b` is an APPROVED booking of `session` in room `roomId` on day `day`. */
  predicate HoldsApproved(b: Booking, roomId: string, day: int, session: Session) {
    b.roomId == roomId && b.bookingDate == day && b.session == session && b.status == APPROVED
  }

  /** Some APPROVED booking holds `session` of `roomId` on `day`. */
  predicate HasApproved(bookings: seq<Booking>, roomId: string, day: int, session: Session) {
    exists k :: 0 <= k < |bookings| && HoldsApproved(bookings[k], roomId, day, session)
  }

  /** The core invariant: two distinct APPROVED bookings of the same room and
      date never hold equal or overlapping sessions. */
  predicate ApprovedExclusive(bookings: seq<Booking>) {
    forall i, j ::
      0 <= i < |bookings| && 0 <= j < |bookings| && i != j &&
      bookings[i].status == APPROVED && bookings[j].status == APPROVED &&
      bookings[i].roomId == bookings[j].roomId &&
      bookings[i].bookingDate == bookings[j].bookingDate
      ==> !Overlaps(bookings[i].session, bookings[j].session)
  }

  /** The sessions of the APPROVED bookings of `roomId` on `day`, in table
      order: the `bookings` include of both room queries, mapped to `session`. */
  function ApprovedSessions(bookings: seq<Booking>, roomId: string, day: int): (r: seq<Session>)
    ensures forall s :: s in r <==> HasApproved(bookings, roomId, day, s)
  {
    if bookings == [] then []
    else
      var rest := ApprovedSessions(bookings[1..], roomId, day);
      assert forall s :: HasApproved(bookings[1..], roomId, day, s) ==> HasApproved(bookings, roomId, day, s) by {
        forall s | HasApproved(bookings[1..], roomId, day, s) ensures HasApproved(bookings, roomId, day, s) {
          var k :| 0 <= k < |bookings[1..]| && HoldsApproved(bookings[1..][k], roomId, day, s);
          assert HoldsApproved(bookings[k + 1], roomId, day, s);
        }
      }
      assert forall s :: HasApproved(bookings, roomId, day, s) ==>
          HoldsApproved(bookings[0], roomId, day, s) || HasApproved(bookings[1..], roomId, day, s) by {
        forall s | HasApproved(bookings, roomId, day, s)
          ensures HoldsApproved(bookings[0], roomId, day, s) || HasApproved(bookings[1..], roomId, day, s)
        {
          var k :| 0 <= k < |bookings| && HoldsApproved(bookings[k], roomId, day, s);
          if k > 0 {
            assert HoldsApproved(bookings[1..][k - 1], roomId, day, s);
          }
        }
      }
      (if HoldsApproved(bookings[0], roomId, day, bookings[0].session) then [bookings[0].session] else []) + rest
  }

  /** Room ids are a primary key. */
  predicate UniqueRoomIds(rooms: seq<Room>) {
    forall i, j :: 0 <= i < |rooms| && 0 <= j < |rooms| && rooms[i].id == rooms[j].id ==> i == j
  }

  predicate RoomExists(rooms: seq<Room>, id: string) {
    exists k :: 0 <= k < |rooms| && rooms[k].id == id
  }

  predicate CatalogHas(catalog: seq<CatalogItem>, id: string) {
    exists k :: 0 <= k < |catalog| && catalog[k].id == id
  }

  /** Stands for an exception the database client throws (a violated foreign
      key, a missing row to delete); the action's promise is then rejected
      instead of resolving to an ActionResult. */
  const STORAGE_ERROR: string := "STORAGE_ERROR"

  /** The database the server actions run against (`prisma`). Each action is
      modelled as one atomic step on it. */
  class Database {
    var rooms: seq<Room>
    var bookings: seq<Booking>
    var foods: seq<CatalogItem>
    var snacks: seq<CatalogItem>
    /** The SystemConfig row with id 1, if it exists. */
    var config: Option<SystemConfig>

    ghost predicate Valid()
      reads this
    {
      UniqueRoomIds(rooms)
    }

    /** A database with the given rooms, catalog and configuration and no bookings. */
    constructor (rooms: seq<Room>, foods: seq<CatalogItem>, snacks: seq<CatalogItem>, config: Option<SystemConfig>)
      requires UniqueRoomIds(rooms)
      ensures Valid()
      ensures this.rooms == rooms && this.bookings == []
      ensures this.foods == foods && this.snacks == snacks && this.config == config
    {
      this.rooms := rooms;
      this.bookings := [];
      this.foods := foods;
      this.snacks := snacks;
      this.config := config;
    }
  }
}
