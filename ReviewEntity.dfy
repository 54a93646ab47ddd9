/** The Review entity and its image rows. A review is updated in place
    (rating, content) and deleted softly: deletion stamps `deletedAt` and keeps
    the row, and every review or image query sees live rows only. */
module ReviewEntity {
  import opened Domain

  /** The single host comment a review may carry. */
  datatype HostComment = HostComment(hostId: nat, content: string)

  /** A snapshot of a review's columns. */
  datatype ReviewRow = ReviewRow(
    id: nat,
    reservationId: nat,
    spaceId: nat,
    guestId: nat,
    rating: int,
    content: string,
    deletedAt: Option<int>,
    hostComment: Option<HostComment>)
  {
    predicate Live() { deletedAt.None? }
  }

  class Review {
    const id: nat
    const reservationId: nat
    const spaceId: nat
    const guestId: nat
    var rating: int
    var content: string
    var deletedAt: Option<int>
    var hostComment: Option<HostComment>

    /** The builder: reservation, space and guest are fixed for the review's life. */
    constructor (id: nat, reservationId: nat, spaceId: nat, guestId: nat, rating: int, content: string)
      ensures Row() == ReviewRow(id, reservationId, spaceId, guestId, rating, content, None, None)
    {
      this.id := id;
      this.reservationId := reservationId;
      this.spaceId := spaceId;
      this.guestId := guestId;
      this.rating := rating;
      this.content := content;
      deletedAt := None;
      hostComment := None;
    }

    function Row(): ReviewRow
      reads this
    {
      ReviewRow(id, reservationId, spaceId, guestId, rating, content, deletedAt, hostComment)
    }

    /** updateRating: the rating changes and nothing else. */
    method UpdateRating(rating: int)
      modifies this`rating
      ensures Row() == old(Row()).(rating := rating)
    {
      this.rating := rating;
    }

    /** updateContent: the content changes and nothing else. */
    method UpdateContent(content: string)
      modifies this`content
      ensures Row() == old(Row()).(content := content)
    {
      this.content := content;
    }

    /** Deletion is an UPDATE that stamps the deletion time; the row stays. */
    method Delete(now: int)
      modifies this`deletedAt
      ensures Row() == old(Row()).(deletedAt := Some(now))
      ensures !Row().Live()
    {
      deletedAt := Some(now);
    }
  }

  /** The review table as rows. */
  function Rows(rs: seq<Review>): (rows: seq<ReviewRow>)
    reads rs
    ensures |rows| == |rs|
    ensures forall i :: 0 <= i < |rs| ==> rows[i] == rs[i].Row()
  {
    seq(|rs|, i reads rs requires 0 <= i < |rs| => rs[i].Row())
  }

  // ---------------------------------------------------------------------
  // Queries. Every query of the review table sees live rows only.

  /** existsByReservationId: a live review of that reservation exists. */
  predicate HasReview(rows: seq<ReviewRow>, reservationId: nat) {
    exists i :: 0 <= i < |rows| && rows[i].Live() && rows[i].reservationId == reservationId
  }

  /** The position of the live review with that id. */
  function FindLive(rows: seq<ReviewRow>, id: nat): (k: Option<nat>)
    ensures k.Some? ==> k.value < |rows| && rows[k.value].id == id && rows[k.value].Live()
    ensures k.None? ==> forall i :: 0 <= i < |rows| && rows[i].id == id ==> !rows[i].Live()
  {
    if rows == [] then None
    else if rows[0].id == id && rows[0].Live() then Some(0)
    else match FindLive(rows[1..], id)
      case None => None
      case Some(k) => Some(k + 1)
  }

  /** The row with its deletion stamped at `now`. */
  function Deleted(rows: seq<ReviewRow>, k: nat, now: int): seq<ReviewRow>
    requires k < |rows|
  {
    rows[k := rows[k].(deletedAt := Some(now))]
  }

  /** A deleted review is invisible to the duplicate check: after deleting row
      k, a review of a reservation exists exactly when some other live row
      is of it. */
  lemma DeletedReviewInvisible(rows: seq<ReviewRow>, k: nat, now: int, reservationId: nat)
    requires k < |rows|
    ensures HasReview(Deleted(rows, k, now), reservationId)
        <==> exists i :: 0 <= i < |rows| && i != k && rows[i].Live() && rows[i].reservationId == reservationId
  {
    var d := Deleted(rows, k, now);
    if HasReview(d, reservationId) {
      var i :| 0 <= i < |d| && d[i].Live() && d[i].reservationId == reservationId;
      assert i != k && rows[i] == d[i];
    }
    if exists i :: 0 <= i < |rows| && i != k && rows[i].Live() && rows[i].reservationId == reservationId {
      var i :| 0 <= i < |rows| && i != k && rows[i].Live() && rows[i].reservationId == reservationId;
      assert d[i] == rows[i];
    }
  }

  /** At most one live review per reservation. */
  predicate OneLivePerReservation(rows: seq<ReviewRow>) {
    forall i, j :: 0 <= i < j < |rows| && rows[i].Live() && rows[j].Live()
      ==> rows[i].reservationId != rows[j].reservationId
  }

  /** Deleting a review keeps the rule, and frees its reservation for a new review. */
  lemma DeleteKeepsOneLive(rows: seq<ReviewRow>, k: nat, now: int)
    requires k < |rows| && OneLivePerReservation(rows)
    ensures OneLivePerReservation(Deleted(rows, k, now))
    ensures rows[k].Live() ==> !HasReview(Deleted(rows, k, now), rows[k].reservationId)
  {
    var d := Deleted(rows, k, now);
    if rows[k].Live() {
      DeletedReviewInvisible(rows, k, now, rows[k].reservationId);
      forall i | 0 <= i < |rows| && i != k && rows[i].Live()
        ensures rows[i].reservationId != rows[k].reservationId
      {
        if i < k {
          assert rows[i].reservationId != rows[k].reservationId;
        } else {
          assert rows[k].reservationId != rows[i].reservationId;
        }
      }
    }
  }

  // ---------------------------------------------------------------------
  // Image rows

  /** A ReviewImage row; like reviews, images are deleted softly. */
  datatype ReviewImage = ReviewImage(id: nat, reviewId: nat, url: string, deletedAt: Option<int>)

  /** The review's images: the URLs of its live image rows, in table order. */
  function ImagesOf(images: seq<ReviewImage>, reviewId: nat): seq<string> {
    if images == [] then []
    else (if images[0].reviewId == reviewId && images[0].deletedAt.None? then [images[0].url] else [])
         + ImagesOf(images[1..], reviewId)
  }

  /** deleteByReviewId: each live image of the review is deleted softly at `now`. */
  function DeleteByReviewId(images: seq<ReviewImage>, reviewId: nat, now: int): (out: seq<ReviewImage>)
    ensures |out| == |images|
    ensures forall i :: 0 <= i < |images| ==>
      out[i] == if images[i].reviewId == reviewId && images[i].deletedAt.None?
                then images[i].(deletedAt := Some(now)) else images[i]
  {
    seq(|images|, i requires 0 <= i < |images| =>
      if images[i].reviewId == reviewId && images[i].deletedAt.None?
      then images[i].(deletedAt := Some(now)) else images[i])
  }

  /** One new image row per URL, in order, with ids from `firstId` on. */
  function NewImages(firstId: nat, reviewId: nat, urls: seq<string>): (out: seq<ReviewImage>)
    ensures |out| == |urls|
    ensures forall i :: 0 <= i < |urls| ==> out[i] == ReviewImage(firstId + i, reviewId, urls[i], None)
  {
    seq(|urls|, i requires 0 <= i < |urls| => ReviewImage(firstId + i, reviewId, urls[i], None))
  }

  lemma {:induction false} ImagesOfConcat(a: seq<ReviewImage>, b: seq<ReviewImage>, reviewId: nat)
    ensures ImagesOf(a + b, reviewId) == ImagesOf(a, reviewId) + ImagesOf(b, reviewId)
  {
    if a != [] {
      ImagesOfConcat(a[1..], b, reviewId);
      assert (a + b)[0] == a[0] && (a + b)[1..] == a[1..] + b;
    } else {
      assert a + b == b;
    }
  }

  /** After deleteByReviewId the review has no image; another review keeps its images. */
  lemma {:induction false} DeleteByReviewIdSpec(images: seq<ReviewImage>, reviewId: nat, now: int, other: nat)
    ensures ImagesOf(DeleteByReviewId(images, reviewId, now), reviewId) == []
    ensures other != reviewId ==> ImagesOf(DeleteByReviewId(images, reviewId, now), other) == ImagesOf(images, other)
  {
    if images != [] {
      DeleteByReviewIdSpec(images[1..], reviewId, now, other);
      assert DeleteByReviewId(images, reviewId, now)[1..] == DeleteByReviewId(images[1..], reviewId, now);
    }
  }

  /** New rows for a review show exactly their URLs, in order, and none for another review. */
  lemma {:induction false} NewImagesSpec(firstId: nat, reviewId: nat, urls: seq<string>, other: nat)
    ensures ImagesOf(NewImages(firstId, reviewId, urls), reviewId) == urls
    ensures other != reviewId ==> ImagesOf(NewImages(firstId, reviewId, urls), other) == []
    decreases |urls|
  {
    if urls != [] {
      NewImagesSpec(firstId + 1, reviewId, urls[1..], other);
      assert NewImages(firstId, reviewId, urls)[1..] == NewImages(firstId + 1, reviewId, urls[1..]);
    }
  }

  /** Replacing a review's images (delete its rows, append the new ones)
      leaves it with exactly the new URLs, and every other review's images
      as they were. */
  lemma ReplaceImagesSpec(images: seq<ReviewImage>, firstId: nat, reviewId: nat, urls: seq<string>, now: int, other: nat)
    ensures ImagesOf(DeleteByReviewId(images, reviewId, now) + NewImages(firstId, reviewId, urls), reviewId) == urls
    ensures other != reviewId ==>
      ImagesOf(DeleteByReviewId(images, reviewId, now) + NewImages(firstId, reviewId, urls), other) == ImagesOf(images, other)
  {
    ImagesOfConcat(DeleteByReviewId(images, reviewId, now), NewImages(firstId, reviewId, urls), reviewId);
    ImagesOfConcat(DeleteByReviewId(images, reviewId, now), NewImages(firstId, reviewId, urls), other);
    DeleteByReviewIdSpec(images, reviewId, now, other);
    NewImagesSpec(firstId, reviewId, urls, other);
  }
}
