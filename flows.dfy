/** Properties of sequences of actions that span the requester-side actions
    (app/actions/pic-actions.ts) and the administrator-side actions
    (app/actions/admin-actions.ts). */
module Flows {
  import opened Types
  import opened Schema
  import opened PicActions
  import opened AdminActions

  /** Auto-approve rejects nothing and is not final: a half-session request
      admitted and auto-approved while another requester's FULLDAY request
      for the same room and date is PENDING leaves that request PENDING; when
      an administrator later approves it, the auto-approved booking is
      displaced with the fixed reason. */
  lemma AutoApprovedCanBeDisplaced(bookings: seq<Booking>, userId: string, req: BookingRequest, now: int,
                                   foods: seq<CatalogItem>, snacks: seq<CatalogItem>, p: nat)
    requires AdmissionCheck(bookings, userId, req, now).None?
    requires req.session != FULLDAY
    requires p < |bookings| && bookings[p].status == PENDING && bookings[p].session == FULLDAY
    requires bookings[p].roomId == req.roomId && bookings[p].bookingDate == req.bookingDate
    ensures var created := bookings + [NewBooking(userId, req, now, foods, snacks, APPROVED)];
      && created[p] == bookings[p]
      && ApproveCheck(created, p).None?
      && Approve(created, p)[|bookings|].status == REJECTED
      && Approve(created, p)[|bookings|].rejectionReason == Some(AUTO_REJECT_REASON)
  {
  }
}
