/**
 * The two conflict predicates the availability queries apply to a requested
 * inclusive day range [s, e].
 */
module Conflicts {
  import opened Entities

  /** An existing rental blocks [s, e]: `s <= r.EndDate + 1 && e >= r.StartDate`.
      The car is still busy the day after the rental ends; there is no buffer before it starts. */
  function RentalBlocks(r: Rental, s: Day, e: Day): (b: bool)
    ensures b <==> Overlaps(s, e, r.startDate, r.endDate + 1)
  {
    s <= r.endDate + 1 && e >= r.startDate
  }

  /** A service blocks [s, e] when [s, e] meets [Start, Start + Duration - 1]. */
  function ServiceBlocks(svc: Service, s: Day, e: Day): (b: bool)
    ensures b <==> Overlaps(s, e, svc.startDate, svc.startDate + svc.durationInDays - 1)
  {
    s <= svc.startDate + svc.durationInDays - 1 && e >= svc.startDate
  }

  /** Plain overlap of two inclusive ranges, with no grace day. */
  predicate Overlaps(aStart: Day, aEnd: Day, bStart: Day, bEnd: Day) {
    aStart <= bEnd && aEnd >= bStart
  }

  /** Two rentals occupy no common day. */
  predicate Disjoint(a: Rental, b: Rental) {
    a.endDate < b.startDate || b.endDate < a.startDate
  }

  /** The one-day turnaround: a request starting the day after the rental ends is blocked,
      one starting two days after is free, and one ending the day before it starts is free. */
  lemma RentalTurnaround(r: Rental, s: Day, e: Day)
    ensures e >= r.startDate ==> RentalBlocks(r, r.endDate + 1, e)
    ensures !RentalBlocks(r, r.endDate + 2, e)
    ensures !RentalBlocks(r, s, r.startDate - 1)
  {
  }

  /** The rental predicate is not symmetric: a stored [5, 7] admits a request for [2, 4],
      while a stored [2, 4] refuses a request for [5, 7]. So the order of two bookings decides whether
      both are stored (`Reservations.RegistrationOrderMatters`). */
  lemma RentalBlocksIsNotSymmetric()
    ensures !RentalBlocks(Rental(1, 1, 1, 5, 7), 2, 4)
    ensures RentalBlocks(Rental(2, 1, 1, 2, 4), 5, 7)
  {
  }

  /** Whatever the order of admission, a rental admitted against a stored one occupies different days. */
  lemma AdmittedIsDisjoint(stored: Rental, admitted: Rental)
    requires !RentalBlocks(stored, admitted.startDate, admitted.endDate)
    ensures Disjoint(stored, admitted) && Disjoint(admitted, stored)
  {
  }

  /** A two-day service starting on day d blocks every range that touches d or d + 1,
      and no range that ends on d - 1 or starts on d + 2. */
  lemma TwoDayServiceWindow(svc: Service, s: Day, e: Day)
    requires svc.durationInDays == DefaultServiceDays
    ensures s <= e && (s <= svc.startDate <= e || s <= svc.startDate + 1 <= e) ==> ServiceBlocks(svc, s, e)
    ensures s <= e && (svc.startDate <= s <= svc.startDate + 1) ==> ServiceBlocks(svc, s, e)
    ensures e == svc.startDate - 1 ==> !ServiceBlocks(svc, s, e)
    ensures s == svc.startDate + 2 ==> !ServiceBlocks(svc, s, e)
  {
  }
}
