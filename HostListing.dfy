/** The host's side of the reservations: the list of the host's spaces and
    the paged listings of confirmed reservations on one date, for all of the
    host's spaces or for one of them. The service that implements them is not
    part of this model; the behaviour here is the one the host reservation
    controller's scenarios pin down: only ACCEPTED and live rows, ordered by
    start time, cut into pages of a requested size. */
module HostListing {
  import opened Domain
  import opened ReservationListing

  datatype HostListingError = SpaceNotFound | NoPermission | ReservationNotFound | NoHostSpace

  /** One row of a host listing. */
  datatype HostRow = HostRow(
    reservationId: nat,
    guestId: nat,
    spaceName: string,
    status: Status,
    startTime: Time,
    endTime: Time,
    guestCount: int,
    currentlyInUse: bool)

  /** One page of a listing, with the paging metadata the response carries. */
  datatype HostPage = HostPage(reservations: seq<HostRow>, totalPage: nat, last: bool)

  /** An entry of the host's space list. */
  datatype SpaceName = SpaceName(spaceId: nat, spaceName: string)

  // ---------------------------------------------------------------------
  // The host's spaces

  function OwnedBy(hostId: nat): Space -> bool {
    (sp: Space) => sp.hostId == hostId
  }

  /** The host's spaces in table order, or NO_HOST_SPACE when there are none. */
  function HostSpaces(spaces: seq<Space>, hostId: nat): (res: Result<seq<SpaceName>, HostListingError>)
    ensures res.Failure? <==> forall sp :: sp in spaces ==> sp.hostId != hostId
    ensures res.Failure? ==> res.error == NoHostSpace
    ensures res.Success? ==> forall e :: e in res.value <==>
      exists sp :: sp in spaces && sp.hostId == hostId && e == SpaceName(sp.id, sp.name)
  {
    var owned := Filter(spaces, OwnedBy(hostId));
    if owned == [] then
      Failure(NoHostSpace)
    else
      assert owned[0] in spaces;
      var names := seq(|owned|, i requires 0 <= i < |owned| => SpaceName(owned[i].id, owned[i].name));
      assert forall e :: e in names <==> exists sp :: sp in spaces && sp.hostId == hostId && e == SpaceName(sp.id, sp.name) by {
        forall e ensures e in names ==> exists sp :: sp in spaces && sp.hostId == hostId && e == SpaceName(sp.id, sp.name) {
          if e in names {
            var i :| 0 <= i < |names| && names[i] == e;
            assert owned[i] in owned;
          }
        }
        forall sp | sp in spaces && sp.hostId == hostId ensures SpaceName(sp.id, sp.name) in names {
          assert sp in owned;
          var i :| 0 <= i < |owned| && owned[i] == sp;
          assert names[i] == SpaceName(sp.id, sp.name);
        }
      }
      Success(names)
  }

  /** The host's spaces are listed in table order: entry k names the k-th
      of the host's spaces as the table holds them. */
  lemma HostSpacesInTableOrder(spaces: seq<Space>, hostId: nat)
    ensures var res, f := HostSpaces(spaces, hostId), Picked(spaces, OwnedBy(hostId), 0);
      res.Success? ==>
        (|res.value| == |f| && forall k :: 0 <= k < |f| ==> res.value[k] == SpaceName(spaces[f[k]].id, spaces[f[k]].name))
  {
    assert spaces[0..] == spaces;
    FilterPicks(spaces, OwnedBy(hostId), 0);
  }

  // ---------------------------------------------------------------------
  // Selection and order

  /** The rows a host listing may show: the host's, on that date, ACCEPTED and live. */
  predicate Confirmed(r: Reservation, hostId: nat, date: int) {
    r.hostId == hostId && r.date == date && r.status == Accepted && r.Live()
  }

  function ConfirmedOn(hostId: nat, date: int): Reservation -> bool {
    (r: Reservation) => Confirmed(r, hostId, date)
  }

  function ConfirmedOnSpace(hostId: nat, spaceId: nat, date: int): Reservation -> bool {
    (r: Reservation) => Confirmed(r, hostId, date) && r.spaceId == spaceId
  }

  predicate SortedByStart(s: seq<Reservation>) {
    forall i, j :: 0 <= i < j < |s| ==> s[i].start <= s[j].start
  }

  /** Insert before the first row that does not start earlier. */
  function InsertByStart(r: Reservation, s: seq<Reservation>): seq<Reservation> {
    if s == [] || r.start <= s[0].start then [r] + s
    else [s[0]] + InsertByStart(r, s[1..])
  }

  /** Insertion sort on the start time; a row is placed before the rows it
      ties with that came after it, so ties keep table order. */
  function SortByStart(s: seq<Reservation>): seq<Reservation> {
    if s == [] then [] else InsertByStart(s[0], SortByStart(s[1..]))
  }

  lemma {:induction false} InsertByStartCounts(r: Reservation, s: seq<Reservation>)
    ensures multiset(InsertByStart(r, s)) == multiset(s) + multiset{r}
  {
    if s != [] && r.start > s[0].start {
      InsertByStartCounts(r, s[1..]);
      assert s == [s[0]] + s[1..];
    }
  }

  /** No row of `s` starts before `b`. */
  predicate StartsFrom(s: seq<Reservation>, b: int) {
    forall k :: 0 <= k < |s| ==> b <= s[k].start
  }

  lemma SortedCons(x: Reservation, t: seq<Reservation>)
    requires SortedByStart(t) && StartsFrom(t, x.start)
    ensures SortedByStart([x] + t)
  {
    var out := [x] + t;
    forall i, j | 0 <= i < j < |out| ensures out[i].start <= out[j].start {
      assert out[j] == t[j - 1];
      if i > 0 { assert out[i] == t[i - 1]; }
    }
  }

  lemma {:induction false} InsertByStartFrom(r: Reservation, s: seq<Reservation>, b: int)
    requires StartsFrom(s, b) && b <= r.start
    ensures StartsFrom(InsertByStart(r, s), b)
  {
    if s != [] && r.start > s[0].start {
      InsertByStartFrom(r, s[1..], b);
      var out := InsertByStart(r, s);
      forall k | 0 <= k < |out| ensures b <= out[k].start {
        if k > 0 { assert out[k] == InsertByStart(r, s[1..])[k - 1]; }
      }
    }
  }

  lemma {:induction false} InsertByStartSorted(r: Reservation, s: seq<Reservation>)
    requires SortedByStart(s)
    ensures SortedByStart(InsertByStart(r, s))
  {
    if s == [] || r.start <= s[0].start {
      SortedCons(r, s);
    } else {
      InsertByStartSorted(r, s[1..]);
      InsertByStartFrom(r, s[1..], s[0].start);
      SortedCons(s[0], InsertByStart(r, s[1..]));
    }
  }

  /** The sort orders by start time and neither adds nor drops a row. */
  lemma {:induction false} SortByStartSpec(s: seq<Reservation>)
    ensures SortedByStart(SortByStart(s))
    ensures multiset(SortByStart(s)) == multiset(s)
  {
    if s != [] {
      SortByStartSpec(s[1..]);
      InsertByStartSorted(s[0], SortByStart(s[1..]));
      InsertByStartCounts(s[0], SortByStart(s[1..]));
      assert s == [s[0]] + s[1..];
    }
  }

  lemma SortSingle(r: Reservation)
    ensures SortByStart([r]) == [r]
  {
    assert [r][1..] == [];
  }

  /** The rows of a listing before paging. */
  function Selected(rs: seq<Reservation>, p: Reservation -> bool): seq<Reservation> {
    SortByStart(Filter(rs, p))
  }

  /** The selection holds exactly the rows that satisfy the condition, in start order. */
  lemma SelectedSpec(rs: seq<Reservation>, p: Reservation -> bool)
    ensures SortedByStart(Selected(rs, p))
    ensures |Selected(rs, p)| == |Filter(rs, p)|
    ensures forall r :: r in Selected(rs, p) <==> r in rs && p(r)
  {
    SortByStartSpec(Filter(rs, p));
    assert |multiset(Selected(rs, p))| == |multiset(Filter(rs, p))|;
    forall r ensures r in Selected(rs, p) <==> r in Filter(rs, p) {
      assert r in Selected(rs, p) <==> r in multiset(Selected(rs, p));
    }
  }

  // ---------------------------------------------------------------------
  // Paging

  /** The number of pages: the ceiling of n / size. */
  function TotalPages(n: nat, size: nat): (t: nat)
    requires size > 0
    ensures t * size >= n
    ensures t == 0 || (t - 1) * size < n
  {
    (n + size - 1) / size
  }

  /** The rows of page `page`: positions page*size up to (page+1)*size, clipped to the list. */
  function PageSlice<T>(s: seq<T>, page: nat, size: nat): (p: seq<T>)
    requires size > 0
    ensures |p| <= size
    ensures forall k :: 0 <= k < |p| ==> page * size + k < |s| && p[k] == s[page * size + k]
  {
    if page * size >= |s| then []
    else if (page + 1) * size >= |s| then s[page * size..]
    else s[page * size..(page + 1) * size]
  }

  lemma MulMono(a: int, b: int, c: nat)
    requires a <= b
    ensures a * c <= b * c
  {
    assert b * c - a * c == (b - a) * c;
  }

  /** Row page*size + k, for k below the page size, is shown on page `page`
      at position k, and that page is one of the TotalPages pages. */
  lemma PageHoldsRow<T>(s: seq<T>, size: nat, page: nat, k: nat)
    requires size > 0 && k < size && page * size + k < |s|
    ensures page < TotalPages(|s|, size)
    ensures |PageSlice(s, page, size)| > k
    ensures PageSlice(s, page, size)[k] == s[page * size + k]
  {
    assert (page + 1) * size == page * size + size;
    var t := TotalPages(|s|, size);
    if page >= t {
      MulMono(t, page, size);
    }
  }

  /** Each page before the last is full, the last holds the remainder, and
      the pages after it are empty. */
  lemma PageLengths<T>(s: seq<T>, size: nat, page: nat)
    requires size > 0
    ensures page + 1 < TotalPages(|s|, size) ==> |PageSlice(s, page, size)| == size
    ensures page + 1 == TotalPages(|s|, size) ==> |PageSlice(s, page, size)| == |s| - page * size
    ensures page >= TotalPages(|s|, size) ==> PageSlice(s, page, size) == []
  {
    var t := TotalPages(|s|, size);
    assert (page + 1) * size == page * size + size;
    if page + 1 < t {
      MulMono(page + 1, t - 1, size);
    } else if page + 1 == t {
      assert page * size < |s|;
    } else {
      MulMono(t, page, size);
    }
  }

  // ---------------------------------------------------------------------
  // The listings

  function Row(r: Reservation, spaces: seq<Space>, today: int, now: Time): (row: HostRow)
    requires FindSpace(spaces, r.spaceId).Some?
    ensures row.reservationId == r.id && row.status == r.status
    ensures row.startTime == r.start && row.endTime == r.end
    ensures row.currentlyInUse <==> IsCurrentUsing(r, today, now)
  {
    HostRow(r.id, r.guestId, FindSpace(spaces, r.spaceId).value.name, r.status, r.start, r.end,
      r.guestCount, IsCurrentUsing(r, today, now))
  }

  function Rows(rs: seq<Reservation>, spaces: seq<Space>, today: int, now: Time): (rows: seq<HostRow>)
    requires SpacesKnown(rs, spaces)
    ensures |rows| == |rs|
    ensures forall i :: 0 <= i < |rs| ==> rows[i] == Row(rs[i], spaces, today, now)
  {
    seq(|rs|, i requires 0 <= i < |rs| => Row(rs[i], spaces, today, now))
  }

  /** One page of the selection; an empty page is RESERVATION_NOT_FOUND. */
  function Paged(sel: seq<Reservation>, spaces: seq<Space>, page: nat, size: nat, today: int, now: Time)
    : Result<HostPage, HostListingError>
    requires size > 0
    requires SpacesKnown(sel, spaces)
  {
    var content := PageSlice(sel, page, size);
    var t := TotalPages(|sel|, size);
    if content == [] then Failure(ReservationNotFound)
    else
      assert forall r :: r in content ==> r in sel;
      Success(HostPage(Rows(content, spaces, today, now), t, page + 1 >= t))
  }

  /** The confirmed reservations of all the host's spaces on one date. */
  function ByDate(rs: seq<Reservation>, spaces: seq<Space>, hostId: nat, date: int,
                  page: nat, size: nat, today: int, now: Time): Result<HostPage, HostListingError>
    requires size > 0
    requires SpacesKnown(rs, spaces)
  {
    SelectedSpec(rs, ConfirmedOn(hostId, date));
    Paged(Selected(rs, ConfirmedOn(hostId, date)), spaces, page, size, today, now)
  }

  /** The confirmed reservations of one of the host's spaces on one date:
      SPACE_NOT_FOUND for an unknown space, NO_PERMISSION for another host's. */
  function ByDateAndSpace(rs: seq<Reservation>, spaces: seq<Space>, hostId: nat, spaceId: nat, date: int,
                          page: nat, size: nat, today: int, now: Time): Result<HostPage, HostListingError>
    requires size > 0
    requires SpacesKnown(rs, spaces)
  {
    match FindSpace(spaces, spaceId)
    case None => Failure(SpaceNotFound)
    case Some(sp) =>
      if sp.hostId != hostId then Failure(NoPermission)
      else
        SelectedSpec(rs, ConfirmedOnSpace(hostId, spaceId, date));
        Paged(Selected(rs, ConfirmedOnSpace(hostId, spaceId, date)), spaces, page, size, today, now)
  }

  /** A page fails exactly when it lies beyond the last page; otherwise it
      carries the page count, says whether it is the last, and shows the
      selection's rows page*size, page*size + 1, ... in order. */
  lemma PagedSpec(sel: seq<Reservation>, spaces: seq<Space>, page: nat, size: nat, today: int, now: Time)
    requires size > 0
    requires SpacesKnown(sel, spaces)
    ensures Paged(sel, spaces, page, size, today, now).Failure? <==> page >= TotalPages(|sel|, size)
    ensures Paged(sel, spaces, page, size, today, now).Success? ==>
      var p := Paged(sel, spaces, page, size, today, now).value;
      && p.totalPage == TotalPages(|sel|, size)
      && (p.last <==> page + 1 == p.totalPage)
      && |p.reservations| == |PageSlice(sel, page, size)|
      && forall k :: 0 <= k < |p.reservations| ==>
           page * size + k < |sel| && p.reservations[k] == Row(sel[page * size + k], spaces, today, now)
  {
    PageLengths(sel, size, page);
  }

  /** A selection that fits in one page is shown whole, as the only page. */
  lemma OnePage(sel: seq<Reservation>, spaces: seq<Space>, size: nat, today: int, now: Time)
    requires 0 < |sel| <= size
    requires SpacesKnown(sel, spaces)
    ensures Paged(sel, spaces, 0, size, today, now) == Success(HostPage(Rows(sel, spaces, today, now), 1, true))
  {
    assert PageSlice(sel, 0, size) == sel;
    assert TotalPages(|sel|, size) == 1 by {
      var t := TotalPages(|sel|, size);
      if t >= 2 { MulMono(1, t - 1, size); }
    }
  }

  /** A page holds reservations of the selection only. */
  lemma PageSliceFromSelection<T>(s: seq<T>, page: nat, size: nat)
    requires size > 0
    ensures forall x :: x in PageSlice(s, page, size) ==> x in s
  {
    var p := PageSlice(s, page, size);
    forall x | x in p ensures x in s {
      var k :| 0 <= k < |p| && p[k] == x;
      var j := page * size + k;
      assert j < |s| && s[j] == x;
    }
  }

  /** Every row of a page is the row of a reservation of the selection. */
  lemma PagedRowsFromSelection(sel: seq<Reservation>, spaces: seq<Space>, page: nat, size: nat, today: int, now: Time)
    requires size > 0
    requires SpacesKnown(sel, spaces)
    ensures Paged(sel, spaces, page, size, today, now).Success? ==>
      forall row :: row in Paged(sel, spaces, page, size, today, now).value.reservations ==>
        exists r :: r in sel && row == Row(r, spaces, today, now)
    ensures sel == [] ==> Paged(sel, spaces, page, size, today, now) == Failure(ReservationNotFound)
  {
    var content := PageSlice(sel, page, size);
    PageSliceFromSelection(sel, page, size);
    if content != [] {
      var rows := Rows(content, spaces, today, now);
      forall row | row in rows ensures exists r :: r in sel && row == Row(r, spaces, today, now) {
        var k :| 0 <= k < |rows| && rows[k] == row;
        assert content[k] in content;
      }
    }
  }

  /** The by-date listing shows only the host's confirmed, live reservations of
      that date, whichever page is asked for, and is RESERVATION_NOT_FOUND when
      there are none. */
  lemma ByDateShowsOnlyConfirmed(rs: seq<Reservation>, spaces: seq<Space>, hostId: nat, date: int,
                                 page: nat, size: nat, today: int, now: Time)
    requires size > 0
    requires SpacesKnown(rs, spaces)
    ensures ByDate(rs, spaces, hostId, date, page, size, today, now).Success? ==>
      forall row :: row in ByDate(rs, spaces, hostId, date, page, size, today, now).value.reservations ==>
        exists r :: r in rs && Confirmed(r, hostId, date) && row == Row(r, spaces, today, now)
    ensures (forall r :: r in rs ==> !Confirmed(r, hostId, date)) ==>
      ByDate(rs, spaces, hostId, date, page, size, today, now) == Failure(ReservationNotFound)
  {
    var sel := Selected(rs, ConfirmedOn(hostId, date));
    SelectedSpec(rs, ConfirmedOn(hostId, date));
    PagedRowsFromSelection(sel, spaces, page, size, today, now);
    if sel != [] {
      assert sel[0] in sel;
    }
  }

  /** The space-scoped listing shows only that space's confirmed reservations,
      and only to its owner. */
  lemma ByDateAndSpaceShowsOnlyThatSpace(rs: seq<Reservation>, spaces: seq<Space>, hostId: nat, spaceId: nat,
                                         date: int, page: nat, size: nat, today: int, now: Time)
    requires size > 0
    requires SpacesKnown(rs, spaces)
    ensures ByDateAndSpace(rs, spaces, hostId, spaceId, date, page, size, today, now).Success? ==>
      && FindSpace(spaces, spaceId).Some? && FindSpace(spaces, spaceId).value.hostId == hostId
      && forall row :: row in ByDateAndSpace(rs, spaces, hostId, spaceId, date, page, size, today, now).value.reservations ==>
           exists r :: r in rs && Confirmed(r, hostId, date) && r.spaceId == spaceId && row == Row(r, spaces, today, now)
  {
    if FindSpace(spaces, spaceId).Some? && FindSpace(spaces, spaceId).value.hostId == hostId {
      var sel := Selected(rs, ConfirmedOnSpace(hostId, spaceId, date));
      SelectedSpec(rs, ConfirmedOnSpace(hostId, spaceId, date));
      PagedRowsFromSelection(sel, spaces, page, size, today, now);
    }
  }

  // ---------------------------------------------------------------------
  // The host controller's scenarios. Fixture: guest 10, host 20 owning
  // space 1 and space 2 (in that order), another host 30 owning space 3;
  // the date asked for is tomorrow.

  function Space1(): Space { Space(1, 20, "space1", "https://example.img", 5, 15000, 0.0) }
  function Space2(): Space { Space(2, 20, "space2", "https://example2.img", 10, 20000, 0.0) }
  function OtherSpace(): Space { Space(3, 30, "other", "https://other.img", 5, 10000, 0.0) }
  function Fixture(): seq<Space> { [Space1(), Space2(), OtherSpace()] }

  function Booking(id: nat, spaceId: nat, date: int, startHour: int, endHour: int, status: Status): Reservation
    requires 0 <= startHour <= endHour < 24
  {
    Reservation(id, 10, 20, spaceId, date, startHour * HOUR, endHour * HOUR, 30000, 3, status,
      "COOKING_PRACTICE", "", None)
  }

  /** The host's two spaces are listed in order; a host without spaces gets NO_HOST_SPACE. */
  lemma ScenarioHostSpaces()
    ensures HostSpaces(Fixture(), 20) == Success([SpaceName(1, "space1"), SpaceName(2, "space2")])
    ensures HostSpaces([], 20) == Failure(NoHostSpace)
  {
    var owned := Filter(Fixture(), OwnedBy(20));
    assert Fixture()[1..] == [Space2(), OtherSpace()];
    assert Fixture()[1..][1..] == [OtherSpace()];
    assert Filter([OtherSpace()], OwnedBy(20)) == [];
    assert Filter([Space2(), OtherSpace()], OwnedBy(20)) == [Space2()];
    assert owned == [Space1(), Space2()];
    assert HostSpaces(Fixture(), 20).Success?;
    assert |HostSpaces(Fixture(), 20).value| == 2;
    assert HostSpaces(Fixture(), 20).value[0] == SpaceName(1, "space1");
    assert HostSpaces(Fixture(), 20).value[1] == SpaceName(2, "space2");
    assert HostSpaces(Fixture(), 20).value == [SpaceName(1, "space1"), SpaceName(2, "space2")];
    assert HostSpaces([], 20) == Failure(NoHostSpace);
  }

  /** 10:00-12:00 on space 1 and 14:00-16:00 on space 2: both, in that order. */
  lemma ScenarioByDate(today: int, now: Time)
    ensures
      var r1 := Booking(1, 1, today + 1, 10, 12, Accepted);
      var r2 := Booking(2, 2, today + 1, 14, 16, Accepted);
      var res := ByDate([r1, r2], Fixture(), 20, today + 1, 0, 10, today, now);
      && res.Success? && |res.value.reservations| == 2
      && res.value.reservations[0].reservationId == 1 && res.value.reservations[0].spaceName == "space1"
      && res.value.reservations[1].reservationId == 2 && res.value.reservations[1].spaceName == "space2"
  {
    var r1 := Booking(1, 1, today + 1, 10, 12, Accepted);
    var r2 := Booking(2, 2, today + 1, 14, 16, Accepted);
    FilterKeepsAll([r1, r2], ConfirmedOn(20, today + 1));
    assert [r1, r2][1..] == [r2];
    assert SortByStart([r2]) == [r2];
    assert Selected([r1, r2], ConfirmedOn(20, today + 1)) == [r1, r2];
  }

  /** The paging fixture: n confirmed one-hour bookings on space 1, starting at 9 + i % 8 o'clock. */
  function Batch(n: nat, date: int): seq<Reservation> {
    seq(n, i requires 0 <= i < n => Booking(i + 1, 1, date, 9 + i % 8, 10 + i % 8, Accepted))
  }

  /** Fifteen bookings, pages of ten: ten rows and not last, then five rows and last; two pages. */
  lemma ScenarioPaging(today: int, now: Time)
    ensures
      var p0 := ByDate(Batch(15, today + 1), Fixture(), 20, today + 1, 0, 10, today, now);
      var p1 := ByDate(Batch(15, today + 1), Fixture(), 20, today + 1, 1, 10, today, now);
      && p0.Success? && |p0.value.reservations| == 10 && p0.value.totalPage == 2 && !p0.value.last
      && p1.Success? && |p1.value.reservations| == 5 && p1.value.totalPage == 2 && p1.value.last
  {
    var b := Batch(15, today + 1);
    FilterKeepsAll(b, ConfirmedOn(20, today + 1));
    SelectedSpec(b, ConfirmedOn(20, today + 1));
    PageLengths(Selected(b, ConfirmedOn(20, today + 1)), 10, 0);
    PageLengths(Selected(b, ConfirmedOn(20, today + 1)), 10, 1);
  }

  /** An ACCEPTED and a PENDING booking: only the ACCEPTED one is listed. */
  lemma ScenarioOnlyAccepted(today: int, now: Time)
    ensures
      var accepted := Booking(1, 1, today + 1, 10, 12, Accepted);
      var pending := Booking(2, 1, today + 1, 14, 16, Pending);
      var res := ByDate([accepted, pending], Fixture(), 20, today + 1, 0, 10, today, now);
      && res.Success? && |res.value.reservations| == 1
      && res.value.reservations[0].reservationId == 1 && res.value.reservations[0].status == Accepted
  {
    var accepted := Booking(1, 1, today + 1, 10, 12, Accepted);
    var pending := Booking(2, 1, today + 1, 14, 16, Pending);
    assert [accepted, pending][1..] == [pending];
    assert Filter([accepted, pending], ConfirmedOn(20, today + 1)) == [accepted];
    SortSingle(accepted);
    assert Selected([accepted, pending], ConfirmedOn(20, today + 1)) == [accepted];
    OnePage([accepted], Fixture(), 10, today, now);
  }

  /** With no booking, both listings are RESERVATION_NOT_FOUND. */
  lemma ScenarioNoneConfirmed(today: int, now: Time)
    ensures ByDate([], Fixture(), 20, today + 1, 0, 10, today, now) == Failure(ReservationNotFound)
    ensures ByDateAndSpace([], Fixture(), 20, 1, today + 1, 0, 10, today, now) == Failure(ReservationNotFound)
  {
  }

  /** The in-use fixture: today, from the hour before the current one to
      hh+1:59:59, where hh is the current hour. */
  function InUseBooking(today: int, h: int): Reservation
    requires 1 <= h <= 22
  {
    Reservation(1, 10, 20, 1, today, (h - 1) * HOUR, (h + 1) * HOUR + 3599, 30000, 3, Accepted,
      "COOKING_PRACTICE", "", None)
  }

  /** That booking is listed, flagged in use. */
  lemma ScenarioInUse(today: int, now: Time)
    requires 1 <= now / HOUR <= 22
    ensures
      var res := ByDate([InUseBooking(today, now / HOUR)], Fixture(), 20, today, 0, 10, today, now);
      && res.Success? && |res.value.reservations| == 1
      && res.value.reservations[0].reservationId == 1 && res.value.reservations[0].currentlyInUse
  {
    var r := InUseBooking(today, now / HOUR);
    assert IsCurrentUsing(r, today, now);
    FilterKeepsAll([r], ConfirmedOn(20, today));
    SortSingle(r);
    assert Selected([r], ConfirmedOn(20, today)) == [r];
    OnePage([r], Fixture(), 10, today, now);
  }

  /** Scoped to space 1, the booking on space 2 is not listed. */
  lemma ScenarioBySpace(today: int, now: Time)
    ensures
      var r1 := Booking(1, 1, today + 1, 10, 12, Accepted);
      var r2 := Booking(2, 2, today + 1, 14, 16, Accepted);
      var res := ByDateAndSpace([r1, r2], Fixture(), 20, 1, today + 1, 0, 10, today, now);
      && res.Success? && |res.value.reservations| == 1
      && res.value.reservations[0].reservationId == 1 && res.value.reservations[0].spaceName == "space1"
  {
    var r1 := Booking(1, 1, today + 1, 10, 12, Accepted);
    var r2 := Booking(2, 2, today + 1, 14, 16, Accepted);
    assert [r1, r2][1..] == [r2];
    assert Filter([r1, r2], ConfirmedOnSpace(20, 1, today + 1)) == [r1];
    SortSingle(r1);
    assert Selected([r1, r2], ConfirmedOnSpace(20, 1, today + 1)) == [r1];
    OnePage([r1], Fixture(), 10, today, now);
  }

  /** Twelve bookings on space 1, pages of ten: ten rows, two pages, not last. */
  lemma ScenarioSpacePaging(today: int, now: Time)
    ensures
      var p0 := ByDateAndSpace(Batch(12, today + 1), Fixture(), 20, 1, today + 1, 0, 10, today, now);
      p0.Success? && |p0.value.reservations| == 10 && p0.value.totalPage == 2 && !p0.value.last
  {
    var b := Batch(12, today + 1);
    FilterKeepsAll(b, ConfirmedOnSpace(20, 1, today + 1));
    SelectedSpec(b, ConfirmedOnSpace(20, 1, today + 1));
    PageLengths(Selected(b, ConfirmedOnSpace(20, 1, today + 1)), 10, 0);
  }

  /** An unknown space is SPACE_NOT_FOUND; another host's space is NO_PERMISSION. */
  lemma ScenarioSpaceErrors(today: int, now: Time)
    ensures ByDateAndSpace([], Fixture(), 20, 999, today + 1, 0, 10, today, now) == Failure(SpaceNotFound)
    ensures ByDateAndSpace([], Fixture(), 20, 3, today + 1, 0, 10, today, now) == Failure(NoPermission)
  {
  }

  /** A soft-deleted confirmed booking is not listed. */
  lemma ScenarioSoftDeleted(today: int, now: Time, deletedAt: int)
    ensures
      var normal := Booking(1, 1, today + 1, 10, 12, Accepted);
      var deleted := Booking(2, 1, today + 1, 14, 16, Accepted).(deletedAt := Some(deletedAt));
      var res := ByDate([normal, deleted], Fixture(), 20, today + 1, 0, 10, today, now);
      && res.Success? && |res.value.reservations| == 1 && res.value.reservations[0].reservationId == 1
  {
    var normal := Booking(1, 1, today + 1, 10, 12, Accepted);
    var deleted := Booking(2, 1, today + 1, 14, 16, Accepted).(deletedAt := Some(deletedAt));
    assert [normal, deleted][1..] == [deleted];
    assert Filter([normal, deleted], ConfirmedOn(20, today + 1)) == [normal];
    SortSingle(normal);
    assert Selected([normal, deleted], ConfirmedOn(20, today + 1)) == [normal];
    OnePage([normal], Fixture(), 10, today, now);
  }
}
