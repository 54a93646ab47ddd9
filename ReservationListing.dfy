/** ReservationListResponseDto: the row a guest sees for one reservation in a
    listing, built by two static factories, and the "currently in use" flag.
    The clock is a parameter: `today` is LocalDate.now(), `now` LocalTime.now(). */
module ReservationListing {
  import opened Domain

  /** The DTO's fields. `status` is the enum whose display text the DTO carries. */
  datatype ReservationListRow = ReservationListRow(
    reservationId: nat,
    spaceName: string,
    spaceThumbImageUrl: string,
    date: int,
    startTime: Time,
    endTime: Time,
    price: int,
    guestCount: int,
    status: Status,
    usagePurpose: string,
    requestMessage: string,
    reviewId: Option<nat>,
    currentUsing: bool)

  /** isCurrentUsing: the reservation is today and now lies in [start, end). */
  predicate IsCurrentUsing(r: Reservation, today: int, now: Time) {
    r.date == today && !(now < r.start) && now < r.end
  }

  /** A point on the timeline: the date's midnight plus the time of day. */
  function Instant(date: int, t: Time): int {
    date * 86400 + t
  }

  /** The flag is exactly "the present instant lies in the reservation's
      half-open interval on the timeline": a reservation on another day can
      never contain it, because a time of day is below 86400 seconds. */
  lemma {:induction false} CurrentUsingIsInstantInInterval(r: Reservation, today: int, now: Time)
    ensures IsCurrentUsing(r, today, now)
        <==> Instant(r.date, r.start) <= Instant(today, now) < Instant(r.date, r.end)
  {
    if r.date < today {
      assert Instant(r.date, r.end) < (r.date + 1) * 86400 <= today * 86400;
    } else if r.date > today {
      assert Instant(today, now) < (today + 1) * 86400 <= r.date * 86400;
    }
  }

  /** Boundaries: the start instant is in use, the end instant is not, and no
      other date is ever in use. */
  lemma CurrentUsingBoundaries(r: Reservation, today: int)
    ensures r.start < r.end ==> (IsCurrentUsing(r, today, r.start) <==> r.date == today)
    ensures !IsCurrentUsing(r, today, r.end)
    ensures forall now: Time :: r.date != today ==> !IsCurrentUsing(r, today, now)
  {
  }

  /** of(reservation): the one-argument factory. `space` is the reservation's space. */
  function Of(r: Reservation, space: Space, today: int, now: Time): (row: ReservationListRow)
    requires space.id == r.spaceId
    ensures row.reservationId == r.id && row.spaceName == space.name
    ensures row.date == r.date && row.startTime == r.start && row.endTime == r.end
    ensures row.price == r.price && row.guestCount == r.guestCount && row.status == r.status
    ensures row.reviewId.None?
    ensures row.currentUsing <==> IsCurrentUsing(r, today, now)
  {
    ReservationListRow(r.id, space.name, space.thumbnailUrl, r.date, r.start, r.end,
      r.price, r.guestCount, r.status, r.usagePurpose, r.requestMessage,
      None, IsCurrentUsing(r, today, now))
  }

  /** of(reservation, reviewId): the two-argument factory; `reviewId` may be
      null. No listing here uses it; the lemma below relates it to the
      one-argument factory. */
  function OfWithReview(r: Reservation, space: Space, reviewId: Option<nat>): (row: ReservationListRow)
    requires space.id == r.spaceId
    ensures row.reservationId == r.id && row.spaceName == space.name
    ensures row.date == r.date && row.startTime == r.start && row.endTime == r.end
    ensures row.price == r.price && row.guestCount == r.guestCount && row.status == r.status
    ensures row.reviewId == reviewId
    ensures !row.currentUsing
  {
    ReservationListRow(r.id, space.name, space.thumbnailUrl, r.date, r.start, r.end,
      r.price, r.guestCount, r.status, r.usagePurpose, r.requestMessage,
      reviewId, false)
  }

  /** The two factories copy the same fields; they differ only in the review
      id, which only the second carries, and the in-use flag, which only the
      first computes. */
  lemma FactoriesDifferOnlyInReviewAndFlag(r: Reservation, space: Space, reviewId: Option<nat>, today: int, now: Time)
    requires space.id == r.spaceId
    ensures OfWithReview(r, space, reviewId)
         == Of(r, space, today, now).(reviewId := reviewId, currentUsing := false)
  {
  }
}
