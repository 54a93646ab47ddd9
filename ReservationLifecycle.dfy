/** Reservation creation checks, the status machine and the guest's
    reservation listings. The service that implements them is not part of this
    model: what is modelled is what the guest reservation controller's
    scenarios pin down. Where they are silent the model makes a choice and
    says so: the order in which failed creation checks are reported, and
    whether a cancel also soft-deletes the row. */
module ReservationLifecycle {
  import opened Domain
  import opened ReservationListing
  import Availability

  datatype ReservationError =
    | SpaceNotFound
    | InvalidCapacity
    | InvalidPrice
    | AvailableTimeNotFound
    | TimeUnavailable
    | ReservationNotFound
    | CannotCancelReservation

  /** The body of a reservation request. */
  datatype ReservationRequest = ReservationRequest(
    date: int, start: Time, end: Time, price: int, guestCount: int,
    usagePurpose: string, requestMessage: string)

  // ---------------------------------------------------------------------
  // Creation checks

  /** Whole hours booked. */
  function Hours(req: ReservationRequest): int {
    (req.end - req.start) / HOUR
  }

  /** A booking is not in the past: a later date, or today with a start hour
      after the current hour (the same rule as the slot list). */
  predicate NotPast(date: int, start: Time, today: int, now: Time) {
    date > today || (date == today && start / HOUR > now / HOUR)
  }

  /** The space has a window on the date that contains the non-empty
      [start, end), and the booking is not in the past. */
  predicate InOpenWindow(windows: seq<AvailableTime>, spaceId: nat, req: ReservationRequest, today: int, now: Time) {
    match FindWindow(windows, spaceId, req.date)
    case None => false
    case Some(w) => w.start <= req.start < req.end <= w.end && NotPast(req.date, req.start, today, now)
  }

  /** Some reservation holding its time on that space and date meets [start, end). */
  predicate Conflicts(rs: seq<Reservation>, spaceId: nat, date: int, start: int, end: int) {
    exists r :: r in rs && Blocks(r, spaceId, date) && Overlaps(start, end, r.start, r.end)
  }

  /** Every check the request fails: a request is accepted exactly when the
      set is empty. An unknown space fails that check alone, since the others
      need the space. */
  function Violations(spaces: seq<Space>, windows: seq<AvailableTime>, rs: seq<Reservation>,
                      spaceId: nat, req: ReservationRequest, today: int, now: Time): set<ReservationError>
  {
    match FindSpace(spaces, spaceId)
    case None => {SpaceNotFound}
    case Some(sp) =>
      (if req.guestCount > sp.maxCapacity then {InvalidCapacity} else {})
      + (if req.price != sp.pricePerHour * Hours(req) then {InvalidPrice} else {})
      + (if !InOpenWindow(windows, spaceId, req, today, now) then {AvailableTimeNotFound} else {})
      + (if Conflicts(rs, spaceId, req.date, req.start, req.end) then {TimeUnavailable} else {})
  }

  /** The order in which failed checks are reported. No scenario fails two
      checks at once, so this order is the model's choice. */
  const CheckOrder: seq<ReservationError> :=
    [SpaceNotFound, InvalidCapacity, InvalidPrice, AvailableTimeNotFound, TimeUnavailable]

  /** The position of the first check of `order` that failed, or |order| when none did. */
  function FirstFailed(v: set<ReservationError>, order: seq<ReservationError>): (k: nat)
    ensures k <= |order|
    ensures k < |order| ==> order[k] in v
    ensures forall j :: 0 <= j < k ==> order[j] !in v
  {
    if order == [] then 0
    else if order[0] in v then 0
    else FirstFailed(v, order[1..]) + 1
  }

  /** The first failed check is the one before which every check passed. */
  lemma FirstFailedIs(v: set<ReservationError>, order: seq<ReservationError>, k: nat)
    requires k < |order| && order[k] in v
    requires forall j :: 0 <= j < k ==> order[j] !in v
    ensures FirstFailed(v, order) == k
  {
  }

  /** The row a successful request stores: PENDING, host taken from the space. */
  function NewReservation(id: nat, guestId: nat, sp: Space, req: ReservationRequest): Reservation {
    Reservation(id, guestId, sp.hostId, sp.id, req.date, req.start, req.end, req.price,
      req.guestCount, Pending, req.usagePurpose, req.requestMessage, None)
  }

  /** An accepted request books only slots the availability query offers:
      every hour of an hour-aligned request is in the slot list of its date. */
  lemma AcceptedRequestUsesOfferedSlots(spaces: seq<Space>, windows: seq<AvailableTime>, rs: seq<Reservation>,
                                        spaceId: nat, req: ReservationRequest, today: int, now: Time, k: nat)
    requires Violations(spaces, windows, rs, spaceId, req, today, now) == {}
    requires (req.start - FindWindow(windows, spaceId, req.date).value.start) % HOUR == 0
    requires req.start + (k + 1) * HOUR <= req.end
    ensures Availability.AvailableTimes(windows, rs, spaceId, req.date, today, now).Success?
    ensures req.start + k * HOUR in Availability.AvailableTimes(windows, rs, spaceId, req.date, today, now).value
  {
    assert FindSpace(spaces, spaceId).Some?;
    assert InOpenWindow(windows, spaceId, req, today, now);
    assert !Conflicts(rs, spaceId, req.date, req.start, req.end);
    var w := FindWindow(windows, spaceId, req.date).value;
    var t := req.start + k * HOUR;
    Availability.AvailableTimesSpec(windows, rs, spaceId, req.date, today, now);
    assert (t - w.start) % HOUR == 0 by {
      assert t - w.start == (req.start - w.start) + k * HOUR;
    }
    forall r | r in rs && Blocks(r, spaceId, req.date) ensures !Overlaps(t, t + HOUR, r.start, r.end) {
      assert !Overlaps(req.start, req.end, r.start, r.end);
    }
    assert Availability.SlotFree(rs, spaceId, req.date, t);
  }

  // ---------------------------------------------------------------------
  // Status machine

  /** A guest may cancel only a PENDING reservation, which becomes REJECTED. */
  function GuestCancel(s: Status): (r: Result<Status, ReservationError>)
    ensures r.Success? <==> s == Pending
    ensures r.Success? ==> r.value == Rejected
    ensures r.Failure? ==> r.error == CannotCancelReservation
  {
    if s == Pending then Success(Rejected) else Failure(CannotCancelReservation)
  }

  /** The reservation's end instant has passed. */
  predicate Ended(r: Reservation, today: int, now: Time) {
    r.date < today || (r.date == today && r.end <= now)
  }

  /** The status a read reports: an ACCEPTED reservation whose end has passed
      reads as COMPLETED; no write takes place. */
  function ReadStatus(r: Reservation, today: int, now: Time): Status {
    if r.status == Accepted && Ended(r, today, now) then Completed else r.status
  }

  /** A read changes nothing but ACCEPTED into COMPLETED, and only once the end has passed. */
  lemma ReadStatusOnlyCompletesAccepted(r: Reservation, today: int, now: Time)
    ensures ReadStatus(r, today, now) != r.status
        <==> r.status == Accepted && Ended(r, today, now)
    ensures ReadStatus(r, today, now) != r.status ==> ReadStatus(r, today, now) == Completed
    ensures r.status in {Pending, Rejected, Completed} ==> ReadStatus(r, today, now) == r.status
  {
  }

  /** (d1, t1) is no later than (d2, t2). */
  predicate NoLater(d1: int, t1: Time, d2: int, t2: Time) {
    d1 < d2 || (d1 == d2 && t1 <= t2)
  }

  /** Read-time completion is stable: once reported COMPLETED, a later read
      reports COMPLETED too. */
  lemma ReadStatusStaysCompleted(r: Reservation, d1: int, t1: Time, d2: int, t2: Time)
    requires NoLater(d1, t1, d2, t2)
    requires ReadStatus(r, d1, t1) == Completed
    ensures ReadStatus(r, d2, t2) == Completed
  {
  }

  /** A reservation in use right now is never reported COMPLETED. */
  lemma InUseIsNotCompleted(r: Reservation, today: int, now: Time)
    requires IsCurrentUsing(r, today, now)
    ensures !Ended(r, today, now)
    ensures ReadStatus(r, today, now) == r.status
  {
  }

  // ---------------------------------------------------------------------
  // The reservation store

  predicate IdsDistinct(rs: seq<Reservation>) {
    forall i, j :: 0 <= i < j < |rs| ==> rs[i].id != rs[j].id
  }

  /** No two reservations that hold their time on the same space and date meet. */
  predicate NoDoubleBooking(rs: seq<Reservation>) {
    forall i, j :: 0 <= i < j < |rs| && Blocks(rs[i], rs[j].spaceId, rs[j].date) && Blocks(rs[j], rs[j].spaceId, rs[j].date)
      ==> !Overlaps(rs[i].start, rs[i].end, rs[j].start, rs[j].end)
  }

  /** The position of the reservation with that id. */
  function IndexOf(rs: seq<Reservation>, id: nat): (k: Option<nat>)
    ensures k.Some? ==> k.value < |rs| && rs[k.value].id == id
    ensures k.None? ==> forall i :: 0 <= i < |rs| ==> rs[i].id != id
  {
    if rs == [] then None
    else if rs[0].id == id then Some(0)
    else match IndexOf(rs[1..], id)
      case None => None
      case Some(k) => Some(k + 1)
  }

  /** The outcome of a guest's cancel request: RESERVATION_NOT_FOUND for an
      unknown id, another guest's reservation or a soft-deleted one;
      CANNOT_CANCEL_RESERVATION unless it is PENDING. */
  function CancelCheck(rs: seq<Reservation>, guestId: nat, reservationId: nat): (res: Result<Reservation, ReservationError>)
    ensures res.Success? ==> res.value in rs && res.value.id == reservationId
    ensures res.Success? <==>
      && FindReservation(rs, reservationId).Some?
      && FindReservation(rs, reservationId).value.guestId == guestId
      && FindReservation(rs, reservationId).value.Live()
      && FindReservation(rs, reservationId).value.status == Pending
    ensures res == Failure(CannotCancelReservation) <==>
      && FindReservation(rs, reservationId).Some?
      && FindReservation(rs, reservationId).value.guestId == guestId
      && FindReservation(rs, reservationId).value.Live()
      && FindReservation(rs, reservationId).value.status != Pending
    ensures res.Failure? ==> res.error in {ReservationNotFound, CannotCancelReservation}
  {
    match FindReservation(rs, reservationId)
    case None => Failure(ReservationNotFound)
    case Some(r) =>
      if r.guestId != guestId || !r.Live() then Failure(ReservationNotFound)
      else match GuestCancel(r.status)
        case Failure(e) => Failure(e)
        case Success(_) => Success(r)
  }

  class ReservationStore {
    const spaces: seq<Space>
    const windows: seq<AvailableTime>
    var reservations: seq<Reservation>
    var nextId: nat

    ghost predicate Valid()
      reads this
    {
      && (forall i :: 0 <= i < |reservations| ==> reservations[i].id < nextId)
      && IdsDistinct(reservations)
      && NoDoubleBooking(reservations)
    }

    constructor (spaces: seq<Space>, windows: seq<AvailableTime>)
      ensures Valid()
      ensures this.spaces == spaces && this.windows == windows && reservations == []
    {
      this.spaces := spaces;
      this.windows := windows;
      reservations := [];
      nextId := 1;
    }

    /** createReservation: store a PENDING reservation when no check fails. */
    method Create(guestId: nat, spaceId: nat, req: ReservationRequest, today: int, now: Time)
      returns (res: Result<nat, ReservationError>)
      requires Valid()
      modifies this`reservations, this`nextId
      ensures Valid()
      ensures res.Success? <==> Violations(spaces, windows, old(reservations), spaceId, req, today, now) == {}
      ensures res.Failure? ==>
        var k := FirstFailed(Violations(spaces, windows, old(reservations), spaceId, req, today, now), CheckOrder);
        k < |CheckOrder| && res.error == CheckOrder[k]
      ensures res.Failure? ==> reservations == old(reservations)
      ensures res.Success? ==> res.value == old(nextId) && FindSpace(spaces, spaceId).Some?
      ensures res.Success? ==>
        reservations == old(reservations) + [NewReservation(res.value, guestId, FindSpace(spaces, spaceId).value, req)]
    {
      ghost var v := Violations(spaces, windows, reservations, spaceId, req, today, now);
      var found := FindSpace(spaces, spaceId);
      if found.None? {
        FirstFailedIs(v, CheckOrder, 0);
        return Failure(SpaceNotFound);
      }
      var sp := found.value;
      if req.guestCount > sp.maxCapacity {
        FirstFailedIs(v, CheckOrder, 1);
        return Failure(InvalidCapacity);
      }
      if req.price != sp.pricePerHour * Hours(req) {
        FirstFailedIs(v, CheckOrder, 2);
        return Failure(InvalidPrice);
      }
      if !InOpenWindow(windows, spaceId, req, today, now) {
        FirstFailedIs(v, CheckOrder, 3);
        return Failure(AvailableTimeNotFound);
      }
      if Conflicts(reservations, spaceId, req.date, req.start, req.end) {
        FirstFailedIs(v, CheckOrder, 4);
        return Failure(TimeUnavailable);
      }
      var r := NewReservation(nextId, guestId, sp, req);
      ghost var before := reservations;
      reservations := reservations + [r];
      nextId := nextId + 1;
      res := Success(r.id);
      forall i | 0 <= i < |before| && Blocks(before[i], r.spaceId, r.date)
        ensures !Overlaps(before[i].start, before[i].end, r.start, r.end)
      {
        assert before[i] in before;
      }
    }

    /** cancelReservation: a PENDING reservation of the guest becomes REJECTED.
        Whether the row is also soft-deleted is not pinned down, so its
        deletion stamp is left open; every other field and row is unchanged. */
    method Cancel(guestId: nat, reservationId: nat) returns (res: Result<Reservation, ReservationError>)
      requires Valid()
      modifies this`reservations
      ensures Valid()
      ensures res == CancelCheck(old(reservations), guestId, reservationId)
      ensures res.Failure? ==> reservations == old(reservations)
      ensures |reservations| == |old(reservations)|
      ensures forall i :: 0 <= i < |reservations| && old(reservations)[i].id != reservationId
                ==> reservations[i] == old(reservations)[i]
      ensures res.Success? ==>
        forall i :: 0 <= i < |reservations| && old(reservations)[i].id == reservationId ==>
          reservations[i].(deletedAt := old(reservations)[i].deletedAt) == old(reservations)[i].(status := Rejected)
    {
      res := CancelCheck(reservations, guestId, reservationId);
      if res.Success? {
        var k := IndexOf(reservations, reservationId).value;
        ghost var before := reservations;
        reservations := reservations[k := reservations[k].(status := Rejected)];
        assert forall i :: 0 <= i < |before| && before[i].id == reservationId ==> i == k;
        forall i, j | 0 <= i < j < |reservations| && Blocks(reservations[i], reservations[j].spaceId, reservations[j].date)
                      && Blocks(reservations[j], reservations[j].spaceId, reservations[j].date)
          ensures !Overlaps(reservations[i].start, reservations[i].end, reservations[j].start, reservations[j].end)
        {
          assert i != k && j != k;
        }
      }
    }
  }

  // ---------------------------------------------------------------------
  // Guest listings

  /** The reservation detail view: the live reservation with that id, as a
      read reports it, or RESERVATION_NOT_FOUND. */
  function Detail(rs: seq<Reservation>, reservationId: nat, today: int, now: Time): (res: Result<Reservation, ReservationError>)
    ensures res.Success? <==> FindReservation(rs, reservationId).Some? && FindReservation(rs, reservationId).value.Live()
    ensures res.Success? ==>
      exists r :: r in rs && r.id == reservationId && r.Live() && res.value == AsRead(r, today, now)
    ensures res.Success? ==> res.value.status == ReadStatus(FindReservation(rs, reservationId).value, today, now)
    ensures res.Failure? ==> res.error == ReservationNotFound
  {
    match FindReservation(rs, reservationId)
    case None => Failure(ReservationNotFound)
    case Some(r) => if r.Live() then Success(AsRead(r, today, now)) else Failure(ReservationNotFound)
  }

  /** The list row of one reservation, with its space's name and thumbnail. */
  function ListRow(r: Reservation, spaces: seq<Space>, today: int, now: Time): ReservationListRow
    requires FindSpace(spaces, r.spaceId).Some?
  {
    Of(r, FindSpace(spaces, r.spaceId).value, today, now)
  }

  /** The list rows of the given reservations, one each and in order. */
  function ListRows(rs: seq<Reservation>, spaces: seq<Space>, today: int, now: Time): (rows: seq<ReservationListRow>)
    requires SpacesKnown(rs, spaces)
    ensures |rows| == |rs|
    ensures forall i :: 0 <= i < |rs| ==> rows[i] == ListRow(rs[i], spaces, today, now)
  {
    seq(|rs|, i requires 0 <= i < |rs| => ListRow(rs[i], spaces, today, now))
  }

  /** The reservation as a read reports it. */
  function AsRead(r: Reservation, today: int, now: Time): Reservation {
    r.(status := ReadStatus(r, today, now))
  }

  function AsReadAll(rs: seq<Reservation>, today: int, now: Time): (out: seq<Reservation>)
    ensures |out| == |rs|
    ensures forall i :: 0 <= i < |rs| ==> out[i] == AsRead(rs[i], today, now)
  {
    seq(|rs|, i requires 0 <= i < |rs| => AsRead(rs[i], today, now))
  }

  /** The rows a guest's listing may show: their own, live and not rejected. */
  predicate GuestVisible(r: Reservation, guestId: nat) {
    r.guestId == guestId && r.Live() && r.status != Rejected
  }

  /** The selection of the "current" listing: visible and not yet ended. */
  function IsUpcoming(guestId: nat, today: int, now: Time): Reservation -> bool {
    r => GuestVisible(r, guestId) && !Ended(r, today, now)
  }

  /** The selection of the "past" listing: visible and ended. */
  function IsFinished(guestId: nat, today: int, now: Time): Reservation -> bool {
    r => GuestVisible(r, guestId) && Ended(r, today, now)
  }

  /** The selection of the by-status listing: the guest's live rows whose
      status, as a read reports it, is the one asked for. */
  function HasStatus(guestId: nat, status: Status, today: int, now: Time): Reservation -> bool {
    (r: Reservation) => r.guestId == guestId && r.Live() && ReadStatus(r, today, now) == status
  }

  function Upcoming(rs: seq<Reservation>, guestId: nat, today: int, now: Time): seq<Reservation> {
    Filter(rs, IsUpcoming(guestId, today, now))
  }

  function Finished(rs: seq<Reservation>, guestId: nat, today: int, now: Time): seq<Reservation> {
    Filter(rs, IsFinished(guestId, today, now))
  }

  /** A listing that finds nothing is RESERVATION_NOT_FOUND, not an empty list. */
  function NonEmpty(rows: seq<ReservationListRow>): Result<seq<ReservationListRow>, ReservationError> {
    if rows == [] then Failure(ReservationNotFound) else Success(rows)
  }

  /** The "current" listing. */
  function CurrentListing(rs: seq<Reservation>, spaces: seq<Space>, guestId: nat, today: int, now: Time)
    : Result<seq<ReservationListRow>, ReservationError>
    requires SpacesKnown(rs, spaces)
  {
    NonEmpty(ListRows(Upcoming(rs, guestId, today, now), spaces, today, now))
  }

  /** The "past" listing, with read-time completion applied. */
  function PastListing(rs: seq<Reservation>, spaces: seq<Space>, guestId: nat, today: int, now: Time)
    : Result<seq<ReservationListRow>, ReservationError>
    requires SpacesKnown(rs, spaces)
  {
    NonEmpty(ListRows(AsReadAll(Finished(rs, guestId, today, now), today, now), spaces, today, now))
  }

  /** The by-status listing of the guest's live reservations, with read-time
      completion applied. */
  function StatusListing(rs: seq<Reservation>, spaces: seq<Space>, guestId: nat, status: Status, today: int, now: Time)
    : Result<seq<ReservationListRow>, ReservationError>
    requires SpacesKnown(rs, spaces)
  {
    NonEmpty(ListRows(AsReadAll(Filter(rs, HasStatus(guestId, status, today, now)), today, now), spaces, today, now))
  }

  /** A listing is RESERVATION_NOT_FOUND exactly when its selection is
      empty: the current one when every visible reservation of the guest has
      ended, the past one when none has. No row of a past listing reads
      ACCEPTED any more. */
  lemma ListingsSplitAtTheEnd(rs: seq<Reservation>, spaces: seq<Space>, guestId: nat, today: int, now: Time)
    requires SpacesKnown(rs, spaces)
    ensures CurrentListing(rs, spaces, guestId, today, now).Failure?
        <==> (forall r :: r in rs && GuestVisible(r, guestId) ==> Ended(r, today, now))
    ensures PastListing(rs, spaces, guestId, today, now).Failure?
        <==> (forall r :: r in rs && GuestVisible(r, guestId) ==> !Ended(r, today, now))
    ensures PastListing(rs, spaces, guestId, today, now).Success? ==>
      forall row :: row in PastListing(rs, spaces, guestId, today, now).value ==> row.status != Accepted
  {
    var up := Upcoming(rs, guestId, today, now);
    var fin := Finished(rs, guestId, today, now);
    if CurrentListing(rs, spaces, guestId, today, now).Failure? {
      assert |up| == 0;
    } else {
      assert up[0] in up;
    }
    if PastListing(rs, spaces, guestId, today, now).Failure? {
      assert |fin| == 0;
    } else {
      assert fin[0] in fin;
      var rows := PastListing(rs, spaces, guestId, today, now).value;
      forall row | row in rows ensures row.status != Accepted {
        var i :| 0 <= i < |rows| && rows[i] == row;
        assert fin[i] in fin;
      }
    }
  }

  /** The rows of a selection are the list rows of the selected
      reservations, in table order. */
  lemma SelectionRows(rs: seq<Reservation>, spaces: seq<Space>, q: Reservation -> bool, today: int, now: Time)
    requires SpacesKnown(rs, spaces)
    ensures SpacesKnown(Filter(rs, q), spaces)
    ensures var rows, f := ListRows(Filter(rs, q), spaces, today, now), Picked(rs, q, 0);
      |rows| == |f| && forall k :: 0 <= k < |f| ==> rows[k] == ListRow(rs[f[k]], spaces, today, now)
  {
    assert rs[0..] == rs;
    FilterPicks(rs, q, 0);
  }

  /** A row is in the rows of a selection exactly when it is the list row of
      a selected reservation. */
  lemma SelectionMembers(rs: seq<Reservation>, spaces: seq<Space>, q: Reservation -> bool, today: int, now: Time)
    requires SpacesKnown(rs, spaces)
    ensures SpacesKnown(Filter(rs, q), spaces)
    ensures forall row :: (row in ListRows(Filter(rs, q), spaces, today, now)
      <==> exists r :: r in rs && q(r) && row == ListRow(r, spaces, today, now))
  {
    var sel := Filter(rs, q);
    var rows := ListRows(sel, spaces, today, now);
    forall row | row in rows ensures exists r :: r in rs && q(r) && row == ListRow(r, spaces, today, now) {
      var k :| 0 <= k < |rows| && rows[k] == row;
      assert sel[k] in sel;
    }
    forall r | r in rs && q(r) ensures ListRow(r, spaces, today, now) in rows {
      assert r in sel;
      var k :| 0 <= k < |sel| && sel[k] == r;
      assert rows[k] == ListRow(r, spaces, today, now);
    }
  }

  /** The same two facts for the selection as a read reports it: each row
      is the list row of the selected reservation with its read-time status. */
  lemma ReadSelectionRows(rs: seq<Reservation>, spaces: seq<Space>, q: Reservation -> bool, today: int, now: Time)
    requires SpacesKnown(rs, spaces)
    ensures SpacesKnown(AsReadAll(Filter(rs, q), today, now), spaces)
    ensures var rows, f := ListRows(AsReadAll(Filter(rs, q), today, now), spaces, today, now), Picked(rs, q, 0);
      |rows| == |f| && forall k :: 0 <= k < |f| ==> rows[k] == ListRow(AsRead(rs[f[k]], today, now), spaces, today, now)
  {
    assert rs[0..] == rs;
    FilterPicks(rs, q, 0);
  }

  lemma ReadSelectionMembers(rs: seq<Reservation>, spaces: seq<Space>, q: Reservation -> bool, today: int, now: Time)
    requires SpacesKnown(rs, spaces)
    ensures SpacesKnown(AsReadAll(Filter(rs, q), today, now), spaces)
    ensures forall row :: (row in ListRows(AsReadAll(Filter(rs, q), today, now), spaces, today, now)
      <==> exists r :: r in rs && q(r) && row == ListRow(AsRead(r, today, now), spaces, today, now))
  {
    var sel := Filter(rs, q);
    var rows := ListRows(AsReadAll(sel, today, now), spaces, today, now);
    forall row | row in rows ensures exists r :: r in rs && q(r) && row == ListRow(AsRead(r, today, now), spaces, today, now) {
      var k :| 0 <= k < |rows| && rows[k] == row;
      assert sel[k] in sel;
    }
    forall r | r in rs && q(r) ensures ListRow(AsRead(r, today, now), spaces, today, now) in rows {
      assert r in sel;
      var k :| 0 <= k < |sel| && sel[k] == r;
      assert rows[k] == ListRow(AsRead(r, today, now), spaces, today, now);
    }
  }

  /** A successful current listing shows the list rows of exactly the
      guest's visible, unended reservations, in table order. */
  lemma CurrentListingRows(rs: seq<Reservation>, spaces: seq<Space>, guestId: nat, today: int, now: Time)
    requires SpacesKnown(rs, spaces)
    ensures var res, f := CurrentListing(rs, spaces, guestId, today, now), Picked(rs, IsUpcoming(guestId, today, now), 0);
      res.Success? ==>
        (|res.value| == |f| && forall k :: 0 <= k < |f| ==> res.value[k] == ListRow(rs[f[k]], spaces, today, now))
    ensures var res := CurrentListing(rs, spaces, guestId, today, now);
      res.Success? ==>
        forall row :: (row in res.value
          <==> exists r :: r in rs && IsUpcoming(guestId, today, now)(r) && row == ListRow(r, spaces, today, now))
  {
    SelectionRows(rs, spaces, IsUpcoming(guestId, today, now), today, now);
    SelectionMembers(rs, spaces, IsUpcoming(guestId, today, now), today, now);
  }

  /** A successful past listing shows, in table order, the list rows of
      exactly the guest's visible, ended reservations, each as a read
      reports it. */
  lemma PastListingRows(rs: seq<Reservation>, spaces: seq<Space>, guestId: nat, today: int, now: Time)
    requires SpacesKnown(rs, spaces)
    ensures var res, f := PastListing(rs, spaces, guestId, today, now), Picked(rs, IsFinished(guestId, today, now), 0);
      res.Success? ==>
        (|res.value| == |f|
         && forall k :: 0 <= k < |f| ==> res.value[k] == ListRow(AsRead(rs[f[k]], today, now), spaces, today, now))
    ensures var res := PastListing(rs, spaces, guestId, today, now);
      res.Success? ==>
        forall row :: (row in res.value
          <==> exists r :: r in rs && IsFinished(guestId, today, now)(r) && row == ListRow(AsRead(r, today, now), spaces, today, now))
  {
    ReadSelectionRows(rs, spaces, IsFinished(guestId, today, now), today, now);
    ReadSelectionMembers(rs, spaces, IsFinished(guestId, today, now), today, now);
  }

  /** A successful by-status listing shows, in table order, the list rows
      of exactly the guest's live reservations whose read-time status is the
      one asked for, each as a read reports it. */
  lemma StatusListingRows(rs: seq<Reservation>, spaces: seq<Space>, guestId: nat, status: Status, today: int, now: Time)
    requires SpacesKnown(rs, spaces)
    ensures var res, f := StatusListing(rs, spaces, guestId, status, today, now), Picked(rs, HasStatus(guestId, status, today, now), 0);
      res.Success? ==>
        (|res.value| == |f|
         && forall k :: 0 <= k < |f| ==> res.value[k] == ListRow(AsRead(rs[f[k]], today, now), spaces, today, now))
    ensures var res := StatusListing(rs, spaces, guestId, status, today, now);
      res.Success? ==>
        forall row :: (row in res.value
          <==> exists r :: r in rs && HasStatus(guestId, status, today, now)(r) && row == ListRow(AsRead(r, today, now), spaces, today, now))
    ensures var res := StatusListing(rs, spaces, guestId, status, today, now);
      res.Success? ==> forall row :: row in res.value ==> row.status == status
  {
    ReadSelectionRows(rs, spaces, HasStatus(guestId, status, today, now), today, now);
    ReadSelectionMembers(rs, spaces, HasStatus(guestId, status, today, now), today, now);
  }

  // ---------------------------------------------------------------------
  // The guest controller's scenarios. Fixture: guest 10, host 20, one space
  // of capacity 3 at 15000 per hour, windows 01:00-23:00 on yesterday, today
  // and tomorrow.

  function FixtureSpace(spaceId: nat): Space {
    Space(spaceId, 20, "space1", "https://example.img", 3, 15000, 0.0)
  }

  function Request(date: int, start: Time, end: Time, price: int, guestCount: int): ReservationRequest {
    ReservationRequest(date, start, end, price, guestCount, "BARISTA_TRAINING", "")
  }

  /** Four guests for a capacity of three: only INVALID_CAPACITY. */
  lemma ScenarioOverCapacity(spaceId: nat, today: int, now: Time)
    ensures Violations([FixtureSpace(spaceId)], Availability.FixtureWindows(spaceId, today), [], spaceId,
                       Request(today + 1, 46800, 50400, 15000, 4), today, now) == {InvalidCapacity}
  {
  }

  /** 30000 for one hour at 15000 per hour: only INVALID_PRICE. */
  lemma ScenarioWrongPrice(spaceId: nat, today: int, now: Time)
    ensures Violations([FixtureSpace(spaceId)], Availability.FixtureWindows(spaceId, today), [], spaceId,
                       Request(today + 1, 46800, 50400, 30000, 2), today, now) == {InvalidPrice}
  {
  }

  /** Yesterday, although yesterday has a window: only AVAILABLE_TIME_NOT_FOUND. */
  lemma ScenarioPastDate(spaceId: nat, today: int, now: Time)
    ensures Violations([FixtureSpace(spaceId)], Availability.FixtureWindows(spaceId, today), [], spaceId,
                       Request(today - 1, 46800, 50400, 15000, 2), today, now) == {AvailableTimeNotFound}
  {
  }

  /** Today from the hour before the current one to the hour after it: only
      AVAILABLE_TIME_NOT_FOUND. The request must end by 23:00, where today's
      window closes, and may start before the window opens at 01:00. */
  lemma ScenarioPastTime(spaceId: nat, today: int, now: Time)
    requires 1 <= now / HOUR <= 22
    ensures Violations([FixtureSpace(spaceId)], Availability.FixtureWindows(spaceId, today), [], spaceId,
                       Request(today, (now / HOUR - 1) * HOUR, (now / HOUR + 1) * HOUR, 30000, 2), today, now)
         == {AvailableTimeNotFound}
  {
    var h := now / HOUR;
    assert Hours(Request(today, (h - 1) * HOUR, (h + 1) * HOUR, 30000, 2)) == 2;
  }

  /** A completed reservation 12:00-16:00 tomorrow against a request 15:00-17:00: only TIME_UNAVAILABLE. */
  lemma ScenarioOverlap(spaceId: nat, today: int, now: Time)
    ensures
      var existing := Reservation(1, 10, 20, spaceId, today + 1, 43200, 57600, 60000, 2, Completed, "BARISTA_TRAINING", "", None);
      Violations([FixtureSpace(spaceId)], Availability.FixtureWindows(spaceId, today), [existing], spaceId,
                 Request(today + 1, 54000, 61200, 30000, 2), today, now) == {TimeUnavailable}
  {
    var existing := Reservation(1, 10, 20, spaceId, today + 1, 43200, 57600, 60000, 2, Completed, "BARISTA_TRAINING", "", None);
    assert existing in [existing];
  }

  /** An unknown space: only SPACE_NOT_FOUND. */
  lemma ScenarioUnknownSpace(spaceId: nat, today: int, now: Time)
    ensures Violations([FixtureSpace(spaceId)], Availability.FixtureWindows(spaceId, today), [], spaceId + 100,
                       Request(today + 1, 54000, 61200, 30000, 2), today, now) == {SpaceNotFound}
  {
  }

  /** Tomorrow 15:00-17:00, 30000, two guests: accepted. */
  lemma ScenarioAccepted(spaceId: nat, today: int, now: Time)
    ensures Violations([FixtureSpace(spaceId)], Availability.FixtureWindows(spaceId, today), [], spaceId,
                       Request(today + 1, 54000, 61200, 30000, 2), today, now) == {}
  {
  }

  function GuestReservation(id: nat, spaceId: nat, date: int, start: Time, end: Time, status: Status): Reservation {
    Reservation(id, 10, 20, spaceId, date, start, end, 15000, 2, status, "BARISTA_TRAINING", "", None)
  }

  /** The current listing drops today's reservation that ended at the current
      hour and lists the one starting the next hour. */
  lemma ScenarioCurrentDropsEnded(spaceId: nat, today: int, now: Time)
    requires 1 <= now / HOUR <= 21
    ensures
      var h := now / HOUR;
      var ended := GuestReservation(1, spaceId, today, (h - 1) * HOUR, h * HOUR, Completed);
      var next := GuestReservation(2, spaceId, today, (h + 1) * HOUR, (h + 2) * HOUR, Accepted);
      CurrentListing([ended, next], [FixtureSpace(spaceId)], 10, today, now)
        == Success([Of(next, FixtureSpace(spaceId), today, now)])
  {
    var h := now / HOUR;
    var ended := GuestReservation(1, spaceId, today, (h - 1) * HOUR, h * HOUR, Completed);
    var next := GuestReservation(2, spaceId, today, (h + 1) * HOUR, (h + 2) * HOUR, Accepted);
    assert h * HOUR <= now < (h + 1) * HOUR;
    assert Ended(ended, today, now) && !Ended(next, today, now);
    var keep := IsUpcoming(10, today, now);
    assert [ended, next][1..] == [next];
    assert Filter([next], keep) == [next] by { FilterKeepsAll([next], keep); }
    assert Filter([ended, next], keep) == [next];
    var rows := ListRows([next], [FixtureSpace(spaceId)], today, now);
    assert rows[0] == Of(next, FixtureSpace(spaceId), today, now);
    assert rows == [Of(next, FixtureSpace(spaceId), today, now)];
  }

  /** A reservation from the hour before to the hour after now is listed as in use. */
  lemma ScenarioCurrentInUse(spaceId: nat, today: int, now: Time)
    requires 1 <= now / HOUR <= 22
    ensures
      var h := now / HOUR;
      var r := GuestReservation(1, spaceId, today, (h - 1) * HOUR, (h + 1) * HOUR, Completed);
      var listing := CurrentListing([r], [FixtureSpace(spaceId)], 10, today, now);
      listing.Success? && listing.value[0].currentUsing
  {
    var h := now / HOUR;
    var r := GuestReservation(1, spaceId, today, (h - 1) * HOUR, (h + 1) * HOUR, Completed);
    assert Upcoming([r], 10, today, now) == [r];
  }

  /** With no reservation, both listings are RESERVATION_NOT_FOUND. */
  lemma ScenarioEmptyListings(spaces: seq<Space>, guestId: nat, today: int, now: Time)
    ensures CurrentListing([], spaces, guestId, today, now) == Failure(ReservationNotFound)
    ensures PastListing([], spaces, guestId, today, now) == Failure(ReservationNotFound)
  {
  }

  /** An accepted reservation of yesterday is listed as past, reading COMPLETED. */
  lemma ScenarioPastReadsCompleted(spaceId: nat, today: int, now: Time)
    ensures
      var r := GuestReservation(1, spaceId, today - 1, 46800, 50400, Accepted);
      var listing := PastListing([r], [FixtureSpace(spaceId)], 10, today, now);
      listing.Success? && listing.value[0].status == Completed
  {
    var r := GuestReservation(1, spaceId, today - 1, 46800, 50400, Accepted);
    assert Finished([r], 10, today, now) == [r];
  }

  /** Cancel: unknown id, an ACCEPTED reservation, a PENDING one. */
  lemma ScenarioCancel(spaceId: nat, today: int)
    ensures
      var accepted := GuestReservation(1, spaceId, today + 1, 46800, 50400, Accepted);
      var pending := GuestReservation(2, spaceId, today + 1, 46800, 50400, Pending);
      && CancelCheck([accepted, pending], 10, 100) == Failure(ReservationNotFound)
      && CancelCheck([accepted, pending], 10, 1) == Failure(CannotCancelReservation)
      && CancelCheck([accepted, pending], 10, 2) == Success(pending)
  {
  }

  /** A rejected reservation shows in the REJECTED listing; with none, RESERVATION_NOT_FOUND. */
  lemma ScenarioRejectedListing(spaceId: nat, today: int, now: Time)
    ensures
      var r := GuestReservation(1, spaceId, today + 1, 46800, 50400, Rejected);
      var listing := StatusListing([r], [FixtureSpace(spaceId)], 10, Rejected, today, now);
      && listing.Success? && listing.value[0].reservationId == 1 && listing.value[0].status == Rejected
      && StatusListing([], [FixtureSpace(spaceId)], 10, Rejected, today, now) == Failure(ReservationNotFound)
  {
    var r := GuestReservation(1, spaceId, today + 1, 46800, 50400, Rejected);
    FilterKeepsAll([r], HasStatus(10, Rejected, today, now));
  }

  /** The detail view finds a stored reservation by its id; an unknown id is RESERVATION_NOT_FOUND. */
  lemma ScenarioDetail(spaceId: nat, today: int, now: Time)
    ensures
      var r := GuestReservation(7, spaceId, today + 1, 12 * HOUR, 16 * HOUR, Completed);
      && Detail([r], 7, today, now) == Success(r)
      && Detail([], 1, today, now) == Failure(ReservationNotFound)
  {
  }

  /** Yesterday's ACCEPTED 13:00-14:00 reservation reads as COMPLETED on every
      guest read path: the detail view, the COMPLETED listing and the past
      listing show it so, and the ACCEPTED listing no longer finds it. */
  lemma ScenarioEveryReadCompletes(spaceId: nat, today: int, now: Time)
    ensures
      var r := GuestReservation(1, spaceId, today - 1, 13 * HOUR, 14 * HOUR, Accepted);
      var sp := [FixtureSpace(spaceId)];
      var done := StatusListing([r], sp, 10, Completed, today, now);
      var past := PastListing([r], sp, 10, today, now);
      && Detail([r], 1, today, now) == Success(r.(status := Completed))
      && done.Success? && |done.value| == 1 && done.value[0].status == Completed
      && past.Success? && past.value[0].status == Completed
      && StatusListing([r], sp, 10, Accepted, today, now) == Failure(ReservationNotFound)
  {
    var r := GuestReservation(1, spaceId, today - 1, 13 * HOUR, 14 * HOUR, Accepted);
    FilterKeepsAll([r], HasStatus(10, Completed, today, now));
    FilterKeepsAll([r], IsFinished(10, today, now));
    assert Filter([r], HasStatus(10, Accepted, today, now)) == [];
  }

  /** A soft-deleted reservation is not found by the detail view, as it is
      not by a cancel. */
  lemma ScenarioDeletedDetail(spaceId: nat, today: int, now: Time, deletedAt: int)
    ensures
      var r := GuestReservation(7, spaceId, today + 1, 12 * HOUR, 16 * HOUR, Pending).(deletedAt := Some(deletedAt));
      && Detail([r], 7, today, now) == Failure(ReservationNotFound)
      && CancelCheck([r], 10, 7) == Failure(ReservationNotFound)
  {
  }
}
