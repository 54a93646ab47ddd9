/** GuestReviewService: the guest's reviewable reservations and written
    reviews, review creation and update, and the space's average rating kept
    as the mean of the ratings of its live reviews. */
module GuestReviews {
  import opened Domain
  import opened ReviewEntity

  datatype ReviewFailure =
    | ReservationNotFound   // no reservation with that id
    | NotReservationGuest   // the reservation is another guest's
    | AlreadyReviewed       // a live review of the reservation exists
    | ReviewNotFound        // no live review with that id
    | AccessDenied          // the review is another guest's

  /** A create request; an absent image list is `None`. */
  datatype CreateRequest = CreateRequest(reservationId: nat, rating: int, content: string, imageUrls: Option<seq<string>>)

  /** An update request; an absent image list is `None`. */
  datatype UpdateRequest = UpdateRequest(rating: int, content: string, imageUrls: Option<seq<string>>)

  /** An absent list stores no image. */
  function UrlsOf(urls: Option<seq<string>>): seq<string> {
    match urls
    case None => []
    case Some(u) => u
  }

  // ---------------------------------------------------------------------
  // Average rating

  function Sum(xs: seq<int>): int {
    if xs == [] then 0 else xs[0] + Sum(xs[1..])
  }

  /** The average of the ratings, or 0.0 for none (exact, not a double). */
  function Mean(xs: seq<int>): real {
    if xs == [] then 0.0 else Sum(xs) as real / |xs| as real
  }

  lemma {:induction false} SumBounds(xs: seq<int>, lo: int, hi: int)
    requires forall i :: 0 <= i < |xs| ==> lo <= xs[i] <= hi
    ensures lo * |xs| <= Sum(xs) <= hi * |xs|
  {
    if xs != [] {
      SumBounds(xs[1..], lo, hi);
      assert lo * |xs| == lo + lo * |xs[1..]|;
      assert hi * |xs| == hi + hi * |xs[1..]|;
    }
  }

  /** Dividing a total that lies in [lo * n, hi * n] by n > 0 gives a value in [lo, hi]. */
  lemma DivBounds(total: int, n: int, lo: int, hi: int)
    requires n > 0 && lo * n <= total <= hi * n
    ensures lo as real <= total as real / n as real <= hi as real
  {
    ScaleBound(lo, n, total);
    ScaleBound(-hi, n, -total);
  }

  /** The real-number step of DivBounds, for the lower bound. */
  lemma ScaleBound(lo: int, n: int, total: int)
    requires n > 0 && lo * n <= total
    ensures lo as real <= total as real / n as real
  {
    var q := total as real / n as real;
    assert q * n as real == total as real;
    assert (lo * n) as real == lo as real * n as real;
  }

  /** The mean of ratings that all lie in [lo, hi] lies in [lo, hi]. */
  lemma MeanBounds(xs: seq<int>, lo: int, hi: int)
    requires xs != []
    requires forall i :: 0 <= i < |xs| ==> lo <= xs[i] <= hi
    ensures lo as real <= Mean(xs) <= hi as real
  {
    SumBounds(xs, lo, hi);
    DivBounds(Sum(xs), |xs|, lo, hi);
  }

  /** The ratings of the space's live reviews, in table order. */
  function LiveRatings(rows: seq<ReviewRow>, spaceId: nat): seq<int> {
    if rows == [] then []
    else (if rows[0].Live() && rows[0].spaceId == spaceId then [rows[0].rating] else [])
         + LiveRatings(rows[1..], spaceId)
  }

  lemma {:induction false} LiveRatingsConcat(a: seq<ReviewRow>, b: seq<ReviewRow>, spaceId: nat)
    ensures LiveRatings(a + b, spaceId) == LiveRatings(a, spaceId) + LiveRatings(b, spaceId)
  {
    if a == [] {
      assert a + b == b;
    } else {
      LiveRatingsConcat(a[1..], b, spaceId);
      var h := if a[0].Live() && a[0].spaceId == spaceId then [a[0].rating] else [];
      assert (a + b)[0] == a[0] && (a + b)[1..] == a[1..] + b;
      assert LiveRatings(a + b, spaceId) == h + (LiveRatings(a[1..], spaceId) + LiveRatings(b, spaceId));
      assert h + (LiveRatings(a[1..], spaceId) + LiveRatings(b, spaceId))
          == (h + LiveRatings(a[1..], spaceId)) + LiveRatings(b, spaceId);
    }
  }

  /** A deleted review drops out of its space's average, as if the row were gone. */
  lemma DeletedReviewLeavesAverage(rows: seq<ReviewRow>, k: nat, now: int, spaceId: nat)
    requires k < |rows|
    ensures LiveRatings(Deleted(rows, k, now), spaceId) == LiveRatings(rows[..k] + rows[k + 1..], spaceId)
  {
    var d := Deleted(rows, k, now);
    assert d == rows[..k] + [d[k]] + rows[k + 1..];
    LiveRatingsConcat(rows[..k] + [d[k]], rows[k + 1..], spaceId);
    LiveRatingsConcat(rows[..k], [d[k]], spaceId);
    LiveRatingsConcat(rows[..k], rows[k + 1..], spaceId);
    assert LiveRatings([d[k]], spaceId) == [];
  }

  /** Changing one review's rating or content leaves every other space's average as it was. */
  lemma EditLeavesOtherSpaces(rows: seq<ReviewRow>, k: nat, rating: int, content: string, spaceId: nat)
    requires k < |rows| && rows[k].spaceId != spaceId
    ensures LiveRatings(rows[k := rows[k].(rating := rating, content := content)], spaceId) == LiveRatings(rows, spaceId)
  {
    var e := rows[k := rows[k].(rating := rating, content := content)];
    assert e == rows[..k] + [e[k]] + rows[k + 1..];
    assert rows == rows[..k] + [rows[k]] + rows[k + 1..];
    LiveRatingsConcat(rows[..k] + [e[k]], rows[k + 1..], spaceId);
    LiveRatingsConcat(rows[..k], [e[k]], spaceId);
    LiveRatingsConcat(rows[..k] + [rows[k]], rows[k + 1..], spaceId);
    LiveRatingsConcat(rows[..k], [rows[k]], spaceId);
  }

  /** A new live review adds its rating to its own space's average and to no other. */
  lemma NewReviewJoinsAverage(rows: seq<ReviewRow>, row: ReviewRow, spaceId: nat)
    requires row.Live()
    ensures LiveRatings(rows + [row], spaceId)
         == LiveRatings(rows, spaceId) + (if row.spaceId == spaceId then [row.rating] else [])
  {
    LiveRatingsConcat(rows, [row], spaceId);
  }

  /** The space table with that space's average replaced. */
  function SetAvg(spaces: seq<Space>, spaceId: nat, avg: real): (out: seq<Space>)
    ensures |out| == |spaces|
    ensures forall i :: 0 <= i < |spaces| ==>
      out[i] == if spaces[i].id == spaceId then spaces[i].(avgRating := avg) else spaces[i]
  {
    seq(|spaces|, i requires 0 <= i < |spaces| =>
      if spaces[i].id == spaceId then spaces[i].(avgRating := avg) else spaces[i])
  }

  /** After the replacement the space reads the new average; every lookup
      finds the same space as before, with only that average changed. */
  lemma {:induction false} SetAvgSpec(spaces: seq<Space>, spaceId: nat, avg: real, id: nat)
    ensures FindSpace(SetAvg(spaces, spaceId, avg), id).Some? == FindSpace(spaces, id).Some?
    ensures FindSpace(spaces, id).Some? ==>
      FindSpace(SetAvg(spaces, spaceId, avg), id).value
        == if id == spaceId then FindSpace(spaces, id).value.(avgRating := avg) else FindSpace(spaces, id).value
  {
    if spaces != [] {
      SetAvgSpec(spaces[1..], spaceId, avg, id);
      assert SetAvg(spaces, spaceId, avg)[1..] == SetAvg(spaces[1..], spaceId, avg);
    }
  }

  // ---------------------------------------------------------------------
  // Checks

  /** createReview's checks, with the owner test comparing id values. */
  function CreateCheck(reservations: seq<Reservation>, rows: seq<ReviewRow>, guestId: nat, reservationId: nat)
    : (res: Result<Reservation, ReviewFailure>)
    ensures FindReservation(reservations, reservationId).None? <==> res == Failure(ReservationNotFound)
    ensures res.Success? <==>
      && FindReservation(reservations, reservationId).Some?
      && FindReservation(reservations, reservationId).value.guestId == guestId
      && !HasReview(rows, reservationId)
    ensures res.Success? ==> res.value == FindReservation(reservations, reservationId).value
    ensures res == Failure(NotReservationGuest) <==>
      FindReservation(reservations, reservationId).Some? && FindReservation(reservations, reservationId).value.guestId != guestId
    ensures res == Failure(AlreadyReviewed) <==>
      && FindReservation(reservations, reservationId).Some?
      && FindReservation(reservations, reservationId).value.guestId == guestId
      && HasReview(rows, reservationId)
  {
    match FindReservation(reservations, reservationId)
    case None => Failure(ReservationNotFound)
    case Some(r) =>
      if r.guestId != guestId then Failure(NotReservationGuest)
      else if HasReview(rows, r.id) then Failure(AlreadyReviewed)
      else Success(r)
  }

  /** updateReview's checks, with the owner test comparing id values: the
      position of the review to update. */
  function UpdateCheck(rows: seq<ReviewRow>, guestId: nat, reviewId: nat): (res: Result<nat, ReviewFailure>)
    ensures res.Success? <==> FindLive(rows, reviewId).Some? && rows[FindLive(rows, reviewId).value].guestId == guestId
    ensures res.Success? ==> res.value == FindLive(rows, reviewId).value
    ensures FindLive(rows, reviewId).None? <==> res == Failure(ReviewNotFound)
    ensures res == Failure(AccessDenied) <==>
      FindLive(rows, reviewId).Some? && rows[FindLive(rows, reviewId).value].guestId != guestId
  {
    match FindLive(rows, reviewId)
    case None => Failure(ReviewNotFound)
    case Some(k) =>
      if rows[k].guestId != guestId then Failure(AccessDenied) else Success(k)
  }

  // ---------------------------------------------------------------------
  // The owner tests as written compare two boxed Long objects with != , which
  // compares references. Two separately boxed Longs are the same object only
  // when both come from the Long cache, which holds -128..127.

  /** `a == b` on two separately boxed Long values. */
  predicate BoxedSame(a: int, b: int) {
    a == b && -128 <= a <= 127
  }

  function CreateCheckAsWritten(reservations: seq<Reservation>, rows: seq<ReviewRow>, guestId: nat, reservationId: nat)
    : Result<Reservation, ReviewFailure>
  {
    match FindReservation(reservations, reservationId)
    case None => Failure(ReservationNotFound)
    case Some(r) =>
      if !BoxedSame(r.guestId, guestId) then Failure(NotReservationGuest)
      else if HasReview(rows, r.id) then Failure(AlreadyReviewed)
      else Success(r)
  }

  function UpdateCheckAsWritten(rows: seq<ReviewRow>, guestId: nat, reviewId: nat): Result<nat, ReviewFailure> {
    match FindLive(rows, reviewId)
    case None => Failure(ReviewNotFound)
    case Some(k) =>
      if !BoxedSame(rows[k].guestId, guestId) then Failure(AccessDenied) else Success(k)
  }

  /** Guest 200 reviewing their own reservation is refused as if it were
      another guest's, and so is their update of their own review. */
  lemma BoxedOwnerTestRefusesOwner()
    ensures
      var r := Reservation(1, 200, 20, 1, 0, 36000, 39600, 15000, 2, Completed, "", "", None);
      && CreateCheckAsWritten([r], [], 200, 1) == Failure(NotReservationGuest)
      && CreateCheck([r], [], 200, 1) == Success(r)
    ensures
      var row := ReviewRow(7, 1, 1, 200, 5, "good", None, None);
      && UpdateCheckAsWritten([row], 200, 7) == Failure(AccessDenied)
      && UpdateCheck([row], 200, 7) == Success(0)
  {
    var row := ReviewRow(7, 1, 1, 200, 5, "good", None, None);
    assert !HasReview([], 1);
    assert FindLive([row], 7) == Some(0);
  }

  /** The two tests agree on ids in the cache range, and the value test lets
      every owner through. */
  lemma OwnerTestsAgreeOnSmallIds(reservations: seq<Reservation>, rows: seq<ReviewRow>, guestId: nat, reservationId: nat)
    requires guestId <= 127
    ensures CreateCheckAsWritten(reservations, rows, guestId, reservationId) == CreateCheck(reservations, rows, guestId, reservationId)
  {
  }

  // ---------------------------------------------------------------------
  // Listings

  datatype ReviewableSpace = ReviewableSpace(
    reservationId: nat, spaceName: string, date: int, startTime: Time, endTime: Time,
    guestCount: int, thumbnailUrl: string)

  /** The guest's live COMPLETED reservations that have no live review. */
  function Reviewable(rows: seq<ReviewRow>, guestId: nat): Reservation -> bool {
    (r: Reservation) => r.guestId == guestId && r.status == Completed && r.Live() && !HasReview(rows, r.id)
  }

  function Card(r: Reservation, spaces: seq<Space>): ReviewableSpace
    requires FindSpace(spaces, r.spaceId).Some?
  {
    var sp := FindSpace(spaces, r.spaceId).value;
    ReviewableSpace(r.id, sp.name, r.date, r.start, r.end, r.guestCount, sp.thumbnailUrl)
  }

  /** One card per reservation, in order. */
  function Cards(rs: seq<Reservation>, spaces: seq<Space>): (cards: seq<ReviewableSpace>)
    requires SpacesKnown(rs, spaces)
    ensures |cards| == |rs| && forall i :: 0 <= i < |rs| ==> cards[i] == Card(rs[i], spaces)
    ensures forall c :: c in cards <==> exists r :: r in rs && c == Card(r, spaces)
  {
    var cards := seq(|rs|, i requires 0 <= i < |rs| => Card(rs[i], spaces));
    assert forall c :: c in cards ==> exists r :: r in rs && c == Card(r, spaces) by {
      forall c | c in cards ensures exists r :: r in rs && c == Card(r, spaces) {
        var i :| 0 <= i < |cards| && cards[i] == c;
        assert rs[i] in rs;
      }
    }
    assert forall r :: r in rs ==> Card(r, spaces) in cards by {
      forall r | r in rs ensures Card(r, spaces) in cards {
        var i :| 0 <= i < |rs| && rs[i] == r;
        assert cards[i] == Card(r, spaces);
      }
    }
    cards
  }

  /** getReviewableSpaces. */
  function ReviewableSpaces(reservations: seq<Reservation>, spaces: seq<Space>, rows: seq<ReviewRow>, guestId: nat)
    : (cards: seq<ReviewableSpace>)
    requires SpacesKnown(reservations, spaces)
    ensures forall c :: c in cards <==>
      exists r :: r in reservations && Reviewable(rows, guestId)(r) && c == Card(r, spaces)
  {
    Cards(Filter(reservations, Reviewable(rows, guestId)), spaces)
  }

  /** The cards follow the reservations' table order: card k is the k-th
      reviewable reservation as the table holds them. */
  lemma ReviewableSpacesInTableOrder(reservations: seq<Reservation>, spaces: seq<Space>, rows: seq<ReviewRow>, guestId: nat)
    requires SpacesKnown(reservations, spaces)
    ensures var cards, f := ReviewableSpaces(reservations, spaces, rows, guestId), Picked(reservations, Reviewable(rows, guestId), 0);
      |cards| == |f| && forall k :: 0 <= k < |f| ==> cards[k] == Card(reservations[f[k]], spaces)
  {
    assert reservations[0..] == reservations;
    FilterPicks(reservations, Reviewable(rows, guestId), 0);
  }

  /** Once a live review of a reservation is stored, the reservation is no
      longer offered for review. */
  lemma ReviewedReservationNotOffered(reservations: seq<Reservation>, spaces: seq<Space>, rows: seq<ReviewRow>,
                                      guestId: nat, row: ReviewRow)
    requires SpacesKnown(reservations, spaces)
    requires row.Live()
    ensures forall c :: c in ReviewableSpaces(reservations, spaces, rows + [row], guestId) ==>
      c.reservationId != row.reservationId
  {
    assert (rows + [row])[|rows|] == row;
    assert HasReview(rows + [row], row.reservationId);
  }

  datatype WrittenReview = WrittenReview(
    spaceName: string, thumbnailUrl: string, rating: int, content: string,
    hostComment: Option<string>)

  /** The rows a review's space is known for. */
  predicate ReviewSpacesKnown(rows: seq<ReviewRow>, spaces: seq<Space>) {
    forall i :: 0 <= i < |rows| ==> FindSpace(spaces, rows[i].spaceId).Some?
  }

  function Written(row: ReviewRow, spaces: seq<Space>): WrittenReview
    requires FindSpace(spaces, row.spaceId).Some?
  {
    var sp := FindSpace(spaces, row.spaceId).value;
    WrittenReview(sp.name, sp.thumbnailUrl, row.rating, row.content,
      match row.hostComment case None => None case Some(c) => Some(c.content))
  }

  /** A live review of the guest. */
  predicate Mine(row: ReviewRow, guestId: nat) {
    row.Live() && row.guestId == guestId
  }

  /** getWrittenReviews: the guest's live reviews, in table order. */
  function WrittenReviews(rows: seq<ReviewRow>, spaces: seq<Space>, guestId: nat): (out: seq<WrittenReview>)
    requires ReviewSpacesKnown(rows, spaces)
    ensures |out| <= |rows|
    ensures forall w :: w in out ==>
      exists i :: 0 <= i < |rows| && Mine(rows[i], guestId) && w == Written(rows[i], spaces)
    ensures forall i :: 0 <= i < |rows| && Mine(rows[i], guestId) ==> Written(rows[i], spaces) in out
  {
    if rows == [] then []
    else
      var rest := WrittenReviews(rows[1..], spaces, guestId);
      WrittenReviewsOfTail(rows, spaces, guestId, rest);
      if Mine(rows[0], guestId) then [Written(rows[0], spaces)] + rest else rest
  }

  function MineOf(guestId: nat): ReviewRow -> bool {
    (row: ReviewRow) => Mine(row, guestId)
  }

  /** The listing is the guest's live reviews as the table selects them,
      one entry each. */
  lemma {:induction false} WrittenReviewsOfSelection(rows: seq<ReviewRow>, spaces: seq<Space>, guestId: nat)
    requires ReviewSpacesKnown(rows, spaces)
    ensures var out, sel := WrittenReviews(rows, spaces, guestId), Filter(rows, MineOf(guestId));
      |out| == |sel| && forall k :: 0 <= k < |sel| ==> sel[k] in rows && out[k] == Written(sel[k], spaces)
  {
    if rows != [] {
      assert ReviewSpacesKnown(rows[1..], spaces) by {
        forall i | 0 <= i < |rows[1..]| ensures FindSpace(spaces, rows[1..][i].spaceId).Some? {
          assert rows[1..][i] == rows[i + 1];
        }
      }
      WrittenReviewsOfSelection(rows[1..], spaces, guestId);
      var out, sel := WrittenReviews(rows, spaces, guestId), Filter(rows, MineOf(guestId));
      var rest, sel1 := WrittenReviews(rows[1..], spaces, guestId), Filter(rows[1..], MineOf(guestId));
      if Mine(rows[0], guestId) {
        assert out == [Written(rows[0], spaces)] + rest && sel == [rows[0]] + sel1;
        forall k | 0 <= k < |sel| ensures sel[k] in rows && out[k] == Written(sel[k], spaces) {
          if k > 0 {
            assert sel[k] == sel1[k - 1] && out[k] == rest[k - 1];
          }
        }
      } else {
        assert out == rest && sel == sel1;
      }
    }
  }

  /** The listing keeps table order: entry k is the k-th of the guest's live
      reviews as the table holds them. */
  lemma WrittenReviewsInTableOrder(rows: seq<ReviewRow>, spaces: seq<Space>, guestId: nat)
    requires ReviewSpacesKnown(rows, spaces)
    ensures var out, f := WrittenReviews(rows, spaces, guestId), Picked(rows, MineOf(guestId), 0);
      |out| == |f| && forall k :: 0 <= k < |f| ==> out[k] == Written(rows[f[k]], spaces)
  {
    assert rows[0..] == rows;
    FilterPicks(rows, MineOf(guestId), 0);
    WrittenReviewsOfSelection(rows, spaces, guestId);
  }

  /** The listing of the table without its first row, read against the whole table. */
  lemma WrittenReviewsOfTail(rows: seq<ReviewRow>, spaces: seq<Space>, guestId: nat, rest: seq<WrittenReview>)
    requires rows != [] && ReviewSpacesKnown(rows, spaces) && ReviewSpacesKnown(rows[1..], spaces)
    requires forall w :: w in rest ==>
      exists j :: 0 <= j < |rows[1..]| && Mine(rows[1..][j], guestId) && w == Written(rows[1..][j], spaces)
    requires forall j :: 0 <= j < |rows[1..]| && Mine(rows[1..][j], guestId) ==> Written(rows[1..][j], spaces) in rest
    ensures forall w :: w in rest ==>
      exists i :: 0 <= i < |rows| && Mine(rows[i], guestId) && w == Written(rows[i], spaces)
    ensures forall i :: 1 <= i < |rows| && Mine(rows[i], guestId) ==> Written(rows[i], spaces) in rest
  {
    forall w | w in rest
      ensures exists i :: 0 <= i < |rows| && Mine(rows[i], guestId) && w == Written(rows[i], spaces)
    {
      var j :| 0 <= j < |rows[1..]| && Mine(rows[1..][j], guestId) && w == Written(rows[1..][j], spaces);
      assert rows[j + 1] == rows[1..][j];
    }
    forall i | 1 <= i < |rows| && Mine(rows[i], guestId) ensures Written(rows[i], spaces) in rest {
      assert rows[1..][i - 1] == rows[i];
    }
  }

  // ---------------------------------------------------------------------
  // The service

  /** A new review built from the reservation: live, with no host comment. */
  function NewReview(id: nat, r: Reservation, rating: int, content: string): (row: ReviewRow)
    ensures row.Live() && row.id == id && row.reservationId == r.id && row.spaceId == r.spaceId
    ensures row.guestId == r.guestId && row.rating == rating && row.content == content && row.hostComment.None?
  {
    ReviewRow(id, r.id, r.spaceId, r.guestId, rating, content, None, None)
  }

  /** What the service's tables keep true between calls: review ids are
      distinct and below the next id, image ids are below the next image id,
      each reservation has at most one live review, and every reservation
      and review refers to a known space. */
  predicate Inv(reservations: seq<Reservation>, spaces: seq<Space>, rows: seq<ReviewRow>, nextReviewId: nat,
                images: seq<ReviewImage>, nextImageId: nat)
  {
    && (forall i, j :: 0 <= i < j < |rows| ==> rows[i].id != rows[j].id)
    && (forall i :: 0 <= i < |rows| ==> rows[i].id < nextReviewId)
    && (forall i :: 0 <= i < |images| ==> images[i].id < nextImageId)
    && OneLivePerReservation(rows)
    && SpacesKnown(reservations, spaces)
    && ReviewSpacesKnown(rows, spaces)
  }

  /** Refreshing an average keeps every space the tables refer to. */
  lemma SetAvgKeepsSpaces(reservations: seq<Reservation>, spaces: seq<Space>, rows: seq<ReviewRow>, spaceId: nat, avg: real)
    requires SpacesKnown(reservations, spaces) && ReviewSpacesKnown(rows, spaces)
    ensures SpacesKnown(reservations, SetAvg(spaces, spaceId, avg))
    ensures ReviewSpacesKnown(rows, SetAvg(spaces, spaceId, avg))
  {
    forall r | r in reservations ensures FindSpace(SetAvg(spaces, spaceId, avg), r.spaceId).Some? {
      SetAvgSpec(spaces, spaceId, avg, r.spaceId);
    }
    forall i | 0 <= i < |rows| ensures FindSpace(SetAvg(spaces, spaceId, avg), rows[i].spaceId).Some? {
      SetAvgSpec(spaces, spaceId, avg, rows[i].spaceId);
    }
  }

  /** New image rows take ids from the next image id on. */
  lemma NewImagesKeepIds(images: seq<ReviewImage>, nextImageId: nat, reviewId: nat, urls: seq<string>)
    requires forall i :: 0 <= i < |images| ==> images[i].id < nextImageId
    ensures var out := images + NewImages(nextImageId, reviewId, urls);
      forall i :: 0 <= i < |out| ==> out[i].id < nextImageId + |urls|
  {
  }

  /** A successful create keeps the invariant: the tables after the create,
      given as `rows'`, `spaces'` and `images'`, satisfy it again. */
  lemma CreateKeepsInv(reservations: seq<Reservation>, spaces: seq<Space>, rows: seq<ReviewRow>, nextReviewId: nat,
                       images: seq<ReviewImage>, nextImageId: nat, r: Reservation, rating: int, content: string, urls: seq<string>,
                       spaces': seq<Space>, rows': seq<ReviewRow>, images': seq<ReviewImage>)
    requires Inv(reservations, spaces, rows, nextReviewId, images, nextImageId)
    requires r in reservations && !HasReview(rows, r.id)
    requires rows' == rows + [NewReview(nextReviewId, r, rating, content)]
    requires spaces' == SetAvg(spaces, r.spaceId, Mean(LiveRatings(rows', r.spaceId)))
    requires images' == images + NewImages(nextImageId, nextReviewId, urls)
    ensures Inv(reservations, spaces', rows', nextReviewId + 1, images', nextImageId + |urls|)
  {
    assert OneLivePerReservation(rows') by {
      forall i | 0 <= i < |rows| && rows[i].Live() ensures rows[i].reservationId != r.id {
        assert !HasReview(rows, r.id);
      }
    }
    assert ReviewSpacesKnown(rows', spaces);
    SetAvgKeepsSpaces(reservations, spaces, rows', r.spaceId, Mean(LiveRatings(rows', r.spaceId)));
    NewImagesKeepIds(images, nextImageId, nextReviewId, urls);
  }

  /** A successful update keeps the invariant: the tables after the update,
      given as `rows'`, `spaces'` and `images'`, satisfy it again. */
  lemma UpdateKeepsInv(reservations: seq<Reservation>, spaces: seq<Space>, rows: seq<ReviewRow>, nextReviewId: nat,
                       images: seq<ReviewImage>, nextImageId: nat, k: nat, rating: int, content: string, now: int,
                       urls: seq<string>, spaces': seq<Space>, rows': seq<ReviewRow>, images': seq<ReviewImage>)
    requires Inv(reservations, spaces, rows, nextReviewId, images, nextImageId)
    requires k < |rows|
    requires rows' == rows[k := rows[k].(rating := rating, content := content)]
    requires spaces' == SetAvg(spaces, rows[k].spaceId, Mean(LiveRatings(rows', rows[k].spaceId)))
    requires images' == DeleteByReviewId(images, rows[k].id, now) + NewImages(nextImageId, rows[k].id, urls)
    ensures Inv(reservations, spaces', rows', nextReviewId, images', nextImageId + |urls|)
  {
    assert OneLivePerReservation(rows') by {
      forall a, b | 0 <= a < b < |rows'| && rows'[a].Live() && rows'[b].Live()
        ensures rows'[a].reservationId != rows'[b].reservationId
      {
        assert rows[a].Live() && rows[b].Live();
      }
    }
    assert ReviewSpacesKnown(rows', spaces) by {
      forall j | 0 <= j < |rows'| ensures FindSpace(spaces, rows'[j].spaceId).Some? {
        assert rows'[j].spaceId == rows[j].spaceId;
      }
    }
    SetAvgKeepsSpaces(reservations, spaces, rows', rows[k].spaceId, Mean(LiveRatings(rows', rows[k].spaceId)));
    NewImagesKeepIds(DeleteByReviewId(images, rows[k].id, now), nextImageId, rows[k].id, urls);
  }

  /** The image rows createReview saves, one per URL, in order. */
  method ImageRows(firstId: nat, reviewId: nat, urls: seq<string>) returns (added: seq<ReviewImage>)
    ensures |added| == |urls|
    ensures forall i :: 0 <= i < |urls| ==> added[i] == ReviewImage(firstId + i, reviewId, urls[i], None)
  {
    added := [];
    var i := 0;
    while i < |urls|
      invariant 0 <= i <= |urls|
      invariant |added| == i
      invariant forall j :: 0 <= j < i ==> added[j] == ReviewImage(firstId + j, reviewId, urls[j], None)
    {
      added := added + [ReviewImage(firstId + i, reviewId, urls[i], None)];
      i := i + 1;
    }
  }

  class GuestReviewService {
    const reservations: seq<Reservation>
    var spaces: seq<Space>
    var reviews: seq<Review>
    var images: seq<ReviewImage>
    var nextReviewId: nat
    var nextImageId: nat

    ghost predicate Valid()
      reads this, reviews
    {
      Inv(reservations, spaces, Rows(reviews), nextReviewId, images, nextImageId)
    }

    constructor (reservations: seq<Reservation>, spaces: seq<Space>)
      requires SpacesKnown(reservations, spaces)
      ensures Valid()
      ensures this.reservations == reservations && this.spaces == spaces
      ensures reviews == [] && images == []
    {
      this.reservations := reservations;
      this.spaces := spaces;
      reviews := [];
      images := [];
      nextReviewId := 1;
      nextImageId := 1;
    }

    /** createReview: store a live review built from the reservation and the
        request, one image row per URL in order, and refresh the space's average. */
    method CreateReview(guestId: nat, req: CreateRequest) returns (res: Result<nat, ReviewFailure>)
      requires Valid()
      modifies this
      ensures Valid()
      ensures var check := old(CreateCheck(reservations, Rows(reviews), guestId, req.reservationId));
        res.Failure? <==> check.Failure?
      ensures var check := old(CreateCheck(reservations, Rows(reviews), guestId, req.reservationId));
        res.Failure? ==> res.error == check.error && Rows(reviews) == old(Rows(reviews))
                         && images == old(images) && spaces == old(spaces)
      ensures var check := old(CreateCheck(reservations, Rows(reviews), guestId, req.reservationId));
        res.Success? ==>
          && res.value == old(nextReviewId)
          && Rows(reviews) == old(Rows(reviews)) + [NewReview(res.value, check.value, req.rating, req.content)]
          && images == old(images) + NewImages(old(nextImageId), res.value, UrlsOf(req.imageUrls))
          && spaces == SetAvg(old(spaces), check.value.spaceId, Mean(LiveRatings(Rows(reviews), check.value.spaceId)))
    {
      var check := CreateCheck(reservations, Rows(reviews), guestId, req.reservationId);
      if check.Failure? {
        return Failure(check.error);
      }
      var r, urls := check.value, UrlsOf(req.imageUrls);
      ghost var rows0, spaces0, images0 := Rows(reviews), spaces, images;
      assert Inv(reservations, spaces0, rows0, nextReviewId, images0, nextImageId);
      var id := Store(r, req.rating, req.content, urls);
      CreateKeepsInv(reservations, spaces0, rows0, id, images0, old(nextImageId), r, req.rating, req.content, urls,
                     spaces, Rows(reviews), images);
      res := Success(id);
    }

    /** The writes of a create that passed its checks. */
    method Store(r: Reservation, rating: int, content: string, urls: seq<string>) returns (id: nat)
      modifies this`reviews, this`nextReviewId, this`images, this`nextImageId, this`spaces
      ensures id == old(nextReviewId) && nextReviewId == id + 1
      ensures Rows(reviews) == old(Rows(reviews)) + [NewReview(id, r, rating, content)]
      ensures images == old(images) + NewImages(old(nextImageId), id, urls)
      ensures nextImageId == old(nextImageId) + |urls|
      ensures spaces == SetAvg(old(spaces), r.spaceId, Mean(LiveRatings(Rows(reviews), r.spaceId)))
    {
      ghost var rows0 := Rows(reviews);
      var firstImageId := nextImageId;
      id := nextReviewId;
      var review := new Review(id, r.id, r.spaceId, r.guestId, rating, content);
      var rows1 := Rows(reviews) + [review.Row()];
      assert rows1 == rows0 + [NewReview(id, r, rating, content)];
      var added := ImageRows(firstImageId, id, urls);
      assert added == NewImages(firstImageId, id, urls);

      reviews, nextReviewId, images, nextImageId, spaces :=
        reviews + [review],
        id + 1,
        images + added,
        firstImageId + |urls|,
        SetAvg(spaces, r.spaceId, Mean(LiveRatings(rows1, r.spaceId)));
      assert Rows(reviews) == rows1;
    }

    /** updateRating and updateContent on the k-th review: that row's rating
        and content change, and no other review changes. */
    method Edit(k: nat, rating: int, content: string)
      requires k < |reviews|
      requires forall i, j :: 0 <= i < j < |reviews| ==> reviews[i].id != reviews[j].id
      modifies reviews[k]
      ensures Rows(reviews) == old(Rows(reviews))[k := old(Rows(reviews))[k].(rating := rating, content := content)]
    {
      ghost var rows0 := Rows(reviews);
      var review := reviews[k];
      review.UpdateRating(rating);
      review.UpdateContent(content);
      forall j | 0 <= j < |reviews| && j != k ensures reviews[j].Row() == rows0[j] {
        if j < k {
          assert reviews[j].id != reviews[k].id;
        } else {
          assert reviews[k].id != reviews[j].id;
        }
      }
    }

    /** updateReview: replace the review's images, set its rating and content,
        and refresh the space's average; nothing changes when a check fails. */
    method UpdateReview(guestId: nat, reviewId: nat, req: UpdateRequest, now: int) returns (res: Result<(), ReviewFailure>)
      requires Valid()
      modifies this`images, this`nextImageId, this`spaces, reviews
      ensures Valid()
      ensures var check := old(UpdateCheck(Rows(reviews), guestId, reviewId));
        res.Failure? <==> check.Failure?
      ensures var check := old(UpdateCheck(Rows(reviews), guestId, reviewId));
        res.Failure? ==> res.error == check.error && Rows(reviews) == old(Rows(reviews))
                         && images == old(images) && spaces == old(spaces)
      ensures var check := old(UpdateCheck(Rows(reviews), guestId, reviewId));
        res.Success? ==>
          var before := old(Rows(reviews))[check.value];
          && Rows(reviews) == old(Rows(reviews))[check.value := before.(rating := req.rating, content := req.content)]
          && images == DeleteByReviewId(old(images), reviewId, now) + NewImages(old(nextImageId), reviewId, UrlsOf(req.imageUrls))
          && spaces == SetAvg(old(spaces), before.spaceId, Mean(LiveRatings(Rows(reviews), before.spaceId)))
    {
      var check := UpdateCheck(Rows(reviews), guestId, reviewId);
      if check.Failure? {
        return Failure(check.error);
      }
      var k, urls := check.value, UrlsOf(req.imageUrls);
      ghost var rows0, spaces0, images0, nextImageId0 := Rows(reviews), spaces, images, nextImageId;
      assert Inv(reservations, spaces0, rows0, nextReviewId, images0, nextImageId0);
      assert forall i, j :: 0 <= i < j < |reviews| ==> reviews[i].id != reviews[j].id by {
        forall i, j | 0 <= i < j < |reviews| ensures reviews[i].id != reviews[j].id {
          assert rows0[i].id != rows0[j].id;
        }
      }
      Apply(k, req.rating, req.content, urls, now);
      UpdateKeepsInv(reservations, spaces0, rows0, nextReviewId, images0, nextImageId0, k, req.rating, req.content, now, urls,
                     spaces, Rows(reviews), images);
      res := Success(());
    }

    /** The writes of an update of the k-th review that passed its checks. */
    method Apply(k: nat, rating: int, content: string, urls: seq<string>, now: int)
      requires k < |reviews|
      requires forall i, j :: 0 <= i < j < |reviews| ==> reviews[i].id != reviews[j].id
      modifies this`images, this`nextImageId, this`spaces, reviews
      ensures var before := old(Rows(reviews))[k];
        && Rows(reviews) == old(Rows(reviews))[k := before.(rating := rating, content := content)]
        && images == DeleteByReviewId(old(images), before.id, now) + NewImages(old(nextImageId), before.id, urls)
        && nextImageId == old(nextImageId) + |urls|
        && spaces == SetAvg(old(spaces), before.spaceId, Mean(LiveRatings(Rows(reviews), before.spaceId)))
    {
      ghost var rows0 := Rows(reviews);
      var reviewId, spaceId := reviews[k].id, reviews[k].spaceId;
      Edit(k, rating, content);
      var rows1 := Rows(reviews);
      var firstImageId := nextImageId;
      images, nextImageId, spaces :=
        DeleteByReviewId(images, reviewId, now) + NewImages(firstImageId, reviewId, urls),
        firstImageId + |urls|,
        SetAvg(spaces, spaceId, Mean(LiveRatings(rows1, spaceId)));
      assert Rows(reviews) == rows1;
    }
  }

  /** After an update the review shows exactly the request's URLs, and every
      other review's images are untouched. */
  lemma UpdatedReviewImages(images: seq<ReviewImage>, firstId: nat, reviewId: nat, req: UpdateRequest, now: int, other: nat)
    ensures ImagesOf(DeleteByReviewId(images, reviewId, now) + NewImages(firstId, reviewId, UrlsOf(req.imageUrls)), reviewId)
         == UrlsOf(req.imageUrls)
    ensures other != reviewId ==>
      ImagesOf(DeleteByReviewId(images, reviewId, now) + NewImages(firstId, reviewId, UrlsOf(req.imageUrls)), other)
        == ImagesOf(images, other)
  {
    ReplaceImagesSpec(images, firstId, reviewId, UrlsOf(req.imageUrls), now, other);
  }

  /** Two reviews of 5 and 4 give the space an average of 4.5; with none it is 0.0. */
  lemma AverageExample(spaceId: nat)
    ensures LiveRatings([ReviewRow(1, 1, spaceId, 10, 5, "", None, None),
                         ReviewRow(2, 2, spaceId, 10, 4, "", None, None),
                         ReviewRow(3, 3, spaceId, 10, 1, "", Some(0), None)], spaceId) == [5, 4]
    ensures Mean([5, 4]) == 4.5
    ensures Mean(LiveRatings([], spaceId)) == 0.0
  {
    var rows := [ReviewRow(1, 1, spaceId, 10, 5, "", None, None),
                 ReviewRow(2, 2, spaceId, 10, 4, "", None, None),
                 ReviewRow(3, 3, spaceId, 10, 1, "", Some(0), None)];
    assert rows[1..] == [rows[1], rows[2]];
    assert rows[1..][1..] == [rows[2]];
    assert rows[1..][1..][1..] == [];
    assert LiveRatings(rows[1..][1..], spaceId) == [];
    assert LiveRatings(rows[1..], spaceId) == [4];
    assert LiveRatings(rows, spaceId) == [5] + [4];
    assert [5, 4][1..] == [4] && [4][1..] == [];
    assert Sum([5, 4]) == 9;
  }
}
