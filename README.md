# Booking-domain core of beour-be, modelled in Dafny

beour-be is the back end of a space-rental service. Hosts list spaces with
bookable time windows. Guests reserve hours, hosts confirm or reject them,
and guests review the spaces they used. This project models the core of
that domain and proves its rules:

- **Reservations** (`Domain`, `Availability`, `ReservationLifecycle`,
  `HostListing`, `ReservationListing`):
  - the hourly slots a space offers on a date;
  - the checks a reservation request must pass;
  - the status machine: PENDING, ACCEPTED, REJECTED, and COMPLETED at read time;
  - the guest's cancel;
  - the guest's current, past and by-status listings;
  - the host's date listings, ordered by start time and paged;
  - the "currently in use" flag of a listing row.

  The reservation services are not part of this model. Their behaviour is
  taken from the two reservation controller test classes.
- **Reviews** (`ReviewEntity`, `GuestReviews`):
  - the `Review` entity, updated in place and soft-deleted;
  - its image rows;
  - `GuestReviewService`: reviewable reservations, written reviews,
    creating and updating a review, and the space's average rating. The
    average is kept equal to the mean of the ratings of the space's live
    reviews.
- **Account recovery** (`Login`): `LoginService` finds a login id and resets
  a password to a fresh 10-character temporary one.

`ReservationStore`, `Review`, `GuestReviewService` and `LoginService` are
classes whose methods update their fields in place. Each method's
postcondition states the whole new state, in terms of the pure functions
beside it. Lemmas prove what those functions promise. Clocks (`today`,
`now`), the random draws and the password encoder are parameters.

Times are seconds since midnight (`Time`, below 86400). Dates are day
numbers. A soft delete is a `deletedAt: Option<int>` stamp. Review and
review-image queries see live rows only. Reservation queries leave out
soft-deleted rows in the availability and overlap checks, the listings, the
cancel and the detail view; `createReview` looks its reservation up with a
plain `findById`, which does not. The account-recovery lookups find
withdrawn users too and then refuse them.

On the guest's read paths (the detail view and the current, past and
by-status listings) an ACCEPTED reservation whose end has passed reads as
COMPLETED.

## Model

| member | source | states |
|---|---|---|
| Domain.FindReservation | src/main/java/com/beour/review/guest/service/GuestReviewService.java:70-71 | findById: a found reservation is in the table with that id; none is found only when no row has that id |
| Domain.FilterPicks | src/main/java/com/beour/review/domain/repository/ReviewRepository.java:12 | a derived list query keeps table order: its k-th row is the k-th matching row of the table |
| Domain.FindSingle | src/main/java/com/beour/user/repository/UserRepository.java:15 | a single-result query finds nothing exactly when no row matches, fails exactly when two rows match, and otherwise returns a matching row of the table |
| Domain.FindSingleAt | src/main/java/com/beour/user/repository/UserRepository.java:15 | when exactly one row matches, the single-result query returns that row |
| ReservationListing.CurrentUsingIsInstantInInterval | src/main/java/com/beour/reservation/guest/dto/ReservationListResponseDto.java:85-92 | isCurrentUsing holds exactly when the present instant (today, now) lies in the half-open interval [date+start, date+end) on the timeline |
| ReservationListing.CurrentUsingBoundaries | src/main/java/com/beour/reservation/guest/dto/ReservationListResponseDto.java:85-92 | the start time of a reservation dated today is in use, the end time never is, and no other date is ever in use |
| ReservationListing.Of | src/main/java/com/beour/reservation/guest/dto/ReservationListResponseDto.java:51-66 | the one-argument factory copies id, space name, date, times, price, guest count and status, carries no review id, and flags in-use exactly by isCurrentUsing |
| ReservationListing.OfWithReview | src/main/java/com/beour/reservation/guest/dto/ReservationListResponseDto.java:68-83 | the two-argument factory copies the same fields, carries the given (possibly null) review id and never flags in-use |
| ReservationListing.FactoriesDifferOnlyInReviewAndFlag | src/main/java/com/beour/reservation/guest/dto/ReservationListResponseDto.java:51-83 | the two factories agree on every field except the review id and the in-use flag |
| Availability.OfferMembers | src/test/java/com/beour/reservation/guest/controller/ReservationGuestControllerTest.java:395-427 | the filtered slot list holds exactly the candidates that are after the current hour (today) and meet no reservation holding its time |
| Availability.OfferIncreasing | src/test/java/com/beour/reservation/guest/controller/ReservationGuestControllerTest.java:364-381 | filtering keeps the slots in ascending order |
| Availability.CandidateMember | src/test/java/com/beour/reservation/guest/controller/ReservationGuestControllerTest.java:364-381 | a slot start is a candidate exactly when it is hour-aligned from the window start and the hour ends inside the window |
| Availability.AvailableTimesSpec | src/test/java/com/beour/reservation/guest/controller/ReservationGuestControllerTest.java:352-463 | the query fails exactly for a past date or a date without a window; otherwise it lists, ascending, exactly the hour-aligned free slots of the window after the current hour |
| Availability.OfferDropsPrefix | src/test/java/com/beour/reservation/guest/controller/ReservationGuestControllerTest.java:395-427 | when the first k candidates are refused and the rest offered, the list is the candidates from k on |
| Availability.ScenarioReservationBlocksEarlyHours | src/test/java/com/beour/reservation/guest/controller/ReservationGuestControllerTest.java:395-427 | a completed reservation 01:00-05:00 tomorrow leaves the slots 05:00 to 22:00 |
| Availability.ScenarioRejectedReservationBlocksNothing | src/test/java/com/beour/reservation/guest/controller/ReservationGuestControllerTest.java:429-463 | the same reservation, rejected, leaves every slot 01:00 to 22:00 |
| Availability.ScenarioToday | src/test/java/com/beour/reservation/guest/controller/ReservationGuestControllerTest.java:364-381 | today offers the hours after the current one up to 22:00 |
| Availability.ScenarioPastDate | src/test/java/com/beour/reservation/guest/controller/ReservationGuestControllerTest.java:352-362 | a past date is AVAILABLE_TIME_NOT_FOUND even when it has a window |
| Availability.ScenarioNoWindow | src/test/java/com/beour/reservation/guest/controller/ReservationGuestControllerTest.java:383-393 | a date without a window is AVAILABLE_TIME_NOT_FOUND |
| ReservationLifecycle.FirstFailed | src/test/java/com/beour/reservation/guest/controller/ReservationGuestControllerTest.java:155-325 | the reported check is a failed one and every check before it in the reporting order passed |
| ReservationLifecycle.AcceptedRequestUsesOfferedSlots | src/test/java/com/beour/reservation/guest/controller/ReservationGuestControllerTest.java:327-350 | every hour of an accepted, hour-aligned request is a slot the availability query offers for that date |
| ReservationLifecycle.GuestCancel | src/test/java/com/beour/reservation/guest/controller/ReservationGuestControllerTest.java:600-655 | a cancel succeeds exactly on PENDING, yielding REJECTED; any other status is CANNOT_CANCEL_RESERVATION |
| ReservationLifecycle.ReadStatusOnlyCompletesAccepted | src/test/java/com/beour/reservation/guest/controller/ReservationGuestControllerTest.java:562-587 | a read changes a status only from ACCEPTED to COMPLETED once the end has passed; PENDING, REJECTED and COMPLETED read as stored |
| ReservationLifecycle.ReadStatusStaysCompleted | src/test/java/com/beour/reservation/guest/controller/ReservationGuestControllerTest.java:562-587 | once a read reports COMPLETED, every later read does too |
| ReservationLifecycle.InUseIsNotCompleted | src/test/java/com/beour/reservation/guest/controller/ReservationGuestControllerTest.java:509-538 | a reservation in use right now has not ended and reads with its stored status |
| ReservationLifecycle.CancelCheck | src/test/java/com/beour/reservation/guest/controller/ReservationGuestControllerTest.java:589-655 | success exactly for the guest's live PENDING reservation with that id; CANNOT_CANCEL_RESERVATION exactly for the guest's live reservation in another status; every other case is RESERVATION_NOT_FOUND |
| ReservationLifecycle.ReservationStore.Create | src/test/java/com/beour/reservation/guest/controller/ReservationGuestControllerTest.java:155-350 | creation succeeds exactly when no check fails, storing one PENDING row with the next id and the space's host; otherwise it reports the first failed check and stores nothing |
| ReservationLifecycle.ReservationStore.Cancel | src/test/java/com/beour/reservation/guest/controller/ReservationGuestControllerTest.java:589-655 | the outcome is the cancel check; on success only that row changes, to REJECTED; the store invariants are kept |
| ReservationLifecycle.Detail | src/test/java/com/beour/reservation/guest/controller/ReservationGuestControllerTest.java:705-741 | the detail view succeeds exactly for a live stored id and returns that reservation as a read reports it, with its read-time status; otherwise RESERVATION_NOT_FOUND |
| ReservationLifecycle.ListingsSplitAtTheEnd | src/test/java/com/beour/reservation/guest/controller/ReservationGuestControllerTest.java:465-587 | the current listing is empty exactly when the guest has no visible unended reservation, the past listing exactly when none has ended; past rows never read ACCEPTED |
| ReservationLifecycle.CurrentListingRows | src/test/java/com/beour/reservation/guest/controller/ReservationGuestControllerTest.java:465-550 | a successful current listing holds a row exactly for each of the guest's visible, unended reservations, one per reservation and in table order |
| ReservationLifecycle.PastListingRows | src/test/java/com/beour/reservation/guest/controller/ReservationGuestControllerTest.java:551-587 | a successful past listing holds a row exactly for each of the guest's visible, ended reservations, with its read-time status, in table order |
| ReservationLifecycle.StatusListingRows | src/test/java/com/beour/reservation/guest/controller/ReservationGuestControllerTest.java:658-703 | a successful by-status listing holds a row exactly for each of the guest's live reservations whose read-time status is the one asked for, each as a read reports it, in table order; every row shows that status |
| ReservationLifecycle.ScenarioOverCapacity | src/test/java/com/beour/reservation/guest/controller/ReservationGuestControllerTest.java:155-179 | four guests for a capacity of three fail only INVALID_CAPACITY |
| ReservationLifecycle.ScenarioWrongPrice | src/test/java/com/beour/reservation/guest/controller/ReservationGuestControllerTest.java:181-205 | a price that is not hours times the hourly price fails only INVALID_PRICE |
| ReservationLifecycle.ScenarioPastDate | src/test/java/com/beour/reservation/guest/controller/ReservationGuestControllerTest.java:207-231 | yesterday fails only AVAILABLE_TIME_NOT_FOUND |
| ReservationLifecycle.ScenarioPastTime | src/test/java/com/beour/reservation/guest/controller/ReservationGuestControllerTest.java:233-258 | today from the hour before the current one fails only AVAILABLE_TIME_NOT_FOUND |
| ReservationLifecycle.ScenarioOverlap | src/test/java/com/beour/reservation/guest/controller/ReservationGuestControllerTest.java:260-299 | a request meeting a completed reservation fails only TIME_UNAVAILABLE |
| ReservationLifecycle.ScenarioUnknownSpace | src/test/java/com/beour/reservation/guest/controller/ReservationGuestControllerTest.java:301-325 | an unknown space fails only SPACE_NOT_FOUND |
| ReservationLifecycle.ScenarioAccepted | src/test/java/com/beour/reservation/guest/controller/ReservationGuestControllerTest.java:327-350 | a valid request tomorrow fails no check |
| ReservationLifecycle.ScenarioCurrentDropsEnded | src/test/java/com/beour/reservation/guest/controller/ReservationGuestControllerTest.java:465-507 | the current listing drops a reservation of today that already ended |
| ReservationLifecycle.ScenarioCurrentInUse | src/test/java/com/beour/reservation/guest/controller/ReservationGuestControllerTest.java:509-538 | a reservation around the current hour is listed and flagged in use |
| ReservationLifecycle.ScenarioEmptyListings | src/test/java/com/beour/reservation/guest/controller/ReservationGuestControllerTest.java:540-560 | with no reservation both listings are RESERVATION_NOT_FOUND |
| ReservationLifecycle.ScenarioPastReadsCompleted | src/test/java/com/beour/reservation/guest/controller/ReservationGuestControllerTest.java:562-587 | an ACCEPTED reservation of yesterday is listed as past, reading COMPLETED |
| ReservationLifecycle.ScenarioCancel | src/test/java/com/beour/reservation/guest/controller/ReservationGuestControllerTest.java:589-655 | cancel of an unknown id, of an ACCEPTED and of a PENDING reservation |
| ReservationLifecycle.ScenarioRejectedListing | src/test/java/com/beour/reservation/guest/controller/ReservationGuestControllerTest.java:657-703 | a rejected reservation appears in the REJECTED listing; with none it is RESERVATION_NOT_FOUND |
| ReservationLifecycle.ScenarioDetail | src/test/java/com/beour/reservation/guest/controller/ReservationGuestControllerTest.java:705-741 | the detail view finds a stored reservation; an unknown id is RESERVATION_NOT_FOUND |
| ReservationLifecycle.ScenarioEveryReadCompletes | src/test/java/com/beour/reservation/guest/controller/ReservationGuestControllerTest.java:562-587 | yesterday's ACCEPTED reservation reads COMPLETED in the detail view, the COMPLETED listing and the past listing, and the ACCEPTED listing no longer finds it |
| ReservationLifecycle.ScenarioDeletedDetail | src/test/java/com/beour/reservation/guest/controller/ReservationGuestControllerTest.java:733-741 | a soft-deleted reservation is RESERVATION_NOT_FOUND for the detail view, as for a cancel |
| HostListing.HostSpaces | src/test/java/com/beour/reservation/host/controller/ReservationHostControllerTest.java:143-170 | NO_HOST_SPACE exactly when the host owns no space; otherwise exactly the host's spaces |
| HostListing.HostSpacesInTableOrder | src/test/java/com/beour/reservation/host/controller/ReservationHostControllerTest.java:143-170 | the host's spaces are listed in the order the space table holds them |
| HostListing.InsertByStartCounts | src/test/java/com/beour/reservation/host/controller/ReservationHostControllerTest.java:182-234 | inserting adds exactly that row |
| HostListing.InsertByStartSorted | src/test/java/com/beour/reservation/host/controller/ReservationHostControllerTest.java:182-234 | inserting into a start-ordered list keeps it ordered |
| HostListing.SortByStartSpec | src/test/java/com/beour/reservation/host/controller/ReservationHostControllerTest.java:182-234 | the sort orders by start time and is a permutation of its input |
| HostListing.SelectedSpec | src/test/java/com/beour/reservation/host/controller/ReservationHostControllerTest.java:182-234 | the selection is start-ordered and holds exactly the rows satisfying the condition, as many as the filter |
| HostListing.TotalPages | src/test/java/com/beour/reservation/host/controller/ReservationHostControllerTest.java:236-283 | the page count is the ceiling of rows over page size |
| HostListing.PageSlice | src/test/java/com/beour/reservation/host/controller/ReservationHostControllerTest.java:236-283 | a page holds at most a page of rows, each the row at its absolute position |
| HostListing.PageHoldsRow | src/test/java/com/beour/reservation/host/controller/ReservationHostControllerTest.java:236-283 | row page*size+k lies on page `page`, at position k, and that page is below the page count |
| HostListing.PageLengths | src/test/java/com/beour/reservation/host/controller/ReservationHostControllerTest.java:236-283 | each page before the last is full, the last holds the remainder, and pages beyond it are empty |
| HostListing.Row | src/test/java/com/beour/reservation/host/controller/ReservationHostControllerTest.java:349-381 | a host row copies id, status and times and flags in-use exactly by isCurrentUsing |
| HostListing.PagedSpec | src/test/java/com/beour/reservation/host/controller/ReservationHostControllerTest.java:236-283 | a page fails exactly beyond the last page; otherwise it is the slice, with the page count and the last-page flag |
| HostListing.OnePage | src/test/java/com/beour/reservation/host/controller/ReservationHostControllerTest.java:182-234 | a selection that fits in one page is shown whole, as the last of one page |
| HostListing.PagedRowsFromSelection | src/test/java/com/beour/reservation/host/controller/ReservationHostControllerTest.java:334-347 | every shown row comes from the selection; an empty selection is RESERVATION_NOT_FOUND |
| HostListing.ByDateShowsOnlyConfirmed | src/test/java/com/beour/reservation/host/controller/ReservationHostControllerTest.java:285-332 | the by-date listing shows only the host's live ACCEPTED reservations of that date, on any page; with none it is RESERVATION_NOT_FOUND |
| HostListing.ByDateAndSpaceShowsOnlyThatSpace | src/test/java/com/beour/reservation/host/controller/ReservationHostControllerTest.java:383-547 | the space listing succeeds only for a known space the host owns, and shows only that space's live ACCEPTED reservations of the date |
| HostListing.ScenarioHostSpaces | src/test/java/com/beour/reservation/host/controller/ReservationHostControllerTest.java:143-170 | the host's two spaces in order; a host without spaces gets NO_HOST_SPACE |
| HostListing.ScenarioByDate | src/test/java/com/beour/reservation/host/controller/ReservationHostControllerTest.java:182-234 | bookings on both spaces are listed in start order |
| HostListing.ScenarioPaging | src/test/java/com/beour/reservation/host/controller/ReservationHostControllerTest.java:236-283 | fifteen bookings in pages of ten: ten rows then five, two pages, the second last |
| HostListing.ScenarioOnlyAccepted | src/test/java/com/beour/reservation/host/controller/ReservationHostControllerTest.java:285-332 | a PENDING booking is not listed |
| HostListing.ScenarioNoneConfirmed | src/test/java/com/beour/reservation/host/controller/ReservationHostControllerTest.java:334-347 | no booking is RESERVATION_NOT_FOUND |
| HostListing.ScenarioInUse | src/test/java/com/beour/reservation/host/controller/ReservationHostControllerTest.java:349-381 | a booking around the current hour is flagged in use |
| HostListing.ScenarioBySpace | src/test/java/com/beour/reservation/host/controller/ReservationHostControllerTest.java:383-431 | scoped to one space, the other space's booking is not listed |
| HostListing.ScenarioSpacePaging | src/test/java/com/beour/reservation/host/controller/ReservationHostControllerTest.java:433-469 | twelve bookings in pages of ten: ten rows, two pages, not last |
| HostListing.ScenarioSpaceErrors | src/test/java/com/beour/reservation/host/controller/ReservationHostControllerTest.java:471-531 | an unknown space is SPACE_NOT_FOUND, another host's space NO_PERMISSION |
| HostListing.ScenarioSoftDeleted | src/test/java/com/beour/reservation/host/controller/ReservationHostControllerTest.java:549-597 | a soft-deleted confirmed booking is not listed |
| ReviewEntity.Review.constructor | src/main/java/com/beour/review/domain/entity/Review.java:24-48 | a new review is live, has no host comment, and takes the given reservation, space, guest, rating and content |
| ReviewEntity.Review.UpdateRating | src/main/java/com/beour/review/domain/entity/Review.java:50-52 | the rating changes and no other column does |
| ReviewEntity.Review.UpdateContent | src/main/java/com/beour/review/domain/entity/Review.java:54-56 | the content changes and no other column does |
| ReviewEntity.Review.Delete | src/main/java/com/beour/review/domain/entity/Review.java:20-21 | deletion stamps deletedAt and keeps every other column; the row is no longer live |
| ReviewEntity.FindLive | src/main/java/com/beour/review/guest/service/GuestReviewService.java:114-115 | a found position holds a live review with that id; none is found only when every row with that id is deleted |
| ReviewEntity.DeletedReviewInvisible | src/main/java/com/beour/review/domain/entity/Review.java:20-21 | after a deletion, a review of a reservation exists exactly when another live row is of it |
| ReviewEntity.DeleteKeepsOneLive | src/main/java/com/beour/review/guest/service/GuestReviewService.java:77-79 | deleting keeps at most one live review per reservation and frees the reservation for a new review |
| ReviewEntity.ImagesOfConcat | src/main/java/com/beour/review/domain/entity/ReviewImage.java:16-17 | a review's live images of two tables are those of each, concatenated |
| ReviewEntity.DeleteByReviewIdSpec | src/main/java/com/beour/review/domain/repository/ReviewImageRepository.java:9 | after deleteByReviewId the review has no image and every other review keeps its images |
| ReviewEntity.NewImagesSpec | src/main/java/com/beour/review/guest/service/GuestReviewService.java:93-101 | new rows show exactly their URLs for the review and none for another |
| ReviewEntity.ReplaceImagesSpec | src/main/java/com/beour/review/guest/service/GuestReviewService.java:121-131 | delete-then-append leaves the review with exactly the new URLs and every other review's images as before |
| GuestReviews.SumBounds | src/main/java/com/beour/review/guest/service/GuestReviewService.java:139-146 | ratings in [lo, hi] sum to between lo and hi times their count |
| GuestReviews.MeanBounds | src/main/java/com/beour/review/guest/service/GuestReviewService.java:139-146 | the average of ratings in [lo, hi] lies in [lo, hi] |
| GuestReviews.DeletedReviewLeavesAverage | src/main/java/com/beour/review/guest/service/GuestReviewService.java:139-146 | a deleted review drops out of its space's ratings exactly as if the row were gone |
| GuestReviews.EditLeavesOtherSpaces | src/main/java/com/beour/review/guest/service/GuestReviewService.java:133-146 | editing a review leaves every other space's ratings unchanged |
| GuestReviews.NewReviewJoinsAverage | src/main/java/com/beour/review/guest/service/GuestReviewService.java:103-110 | a new live review adds its rating to its own space's ratings and to no other |
| GuestReviews.SetAvgSpec | src/main/java/com/beour/review/guest/service/GuestReviewService.java:106-110 | after the update the space reads the new average and every lookup finds the same space as before otherwise |
| GuestReviews.CreateCheck | src/main/java/com/beour/review/guest/service/GuestReviewService.java:70-79 | RESERVATION_NOT_FOUND exactly for an unknown reservation; the not-the-guest refusal exactly for another guest's reservation; the already-reviewed refusal exactly for the caller's reservation with a live review; success otherwise, returning the reservation |
| GuestReviews.UpdateCheck | src/main/java/com/beour/review/guest/service/GuestReviewService.java:114-119 | not found exactly when no live review has that id; access denied exactly for another guest's live review; success otherwise, returning the review's position |
| GuestReviews.BoxedOwnerTestRefusesOwner | src/main/java/com/beour/review/guest/service/GuestReviewService.java:73 | the reference comparison refuses guest 200 on their own reservation and review, where the value comparison accepts |
| GuestReviews.OwnerTestsAgreeOnSmallIds | src/main/java/com/beour/review/guest/service/GuestReviewService.java:73 | for caller ids up to 127 the reference comparison and the value comparison give the same outcome |
| GuestReviews.ReviewableSpaces | src/main/java/com/beour/review/guest/service/GuestReviewService.java:33-47 | a card is listed exactly when it is built from one of the guest's live COMPLETED reservations with no live review |
| GuestReviews.ReviewableSpacesInTableOrder | src/main/java/com/beour/review/guest/service/GuestReviewService.java:33-47 | the cards follow the reservations' table order, one per reviewable reservation |
| GuestReviews.ReviewedReservationNotOffered | src/main/java/com/beour/review/guest/service/GuestReviewService.java:33-47 | once a live review of a reservation is stored, no listed card is for that reservation |
| GuestReviews.WrittenReviews | src/main/java/com/beour/review/guest/service/GuestReviewService.java:49-66 | exactly the guest's live reviews are listed, with the space's name and thumbnail and the host comment if any |
| GuestReviews.WrittenReviewsInTableOrder | src/main/java/com/beour/review/guest/service/GuestReviewService.java:49-66 | the written reviews follow the review table's order, one per live review of the guest |
| GuestReviews.NewReview | src/main/java/com/beour/review/guest/service/GuestReviewService.java:81-91 | the new review takes reservation, space and guest from the reservation and rating and content from the request, live and without host comment |
| GuestReviews.CreateKeepsInv | src/main/java/com/beour/review/guest/service/GuestReviewService.java:68-104 | a successful create keeps unique review ids, one live review per reservation and known spaces |
| GuestReviews.UpdateKeepsInv | src/main/java/com/beour/review/guest/service/GuestReviewService.java:112-137 | a successful update keeps the same invariant |
| GuestReviews.ImageRows | src/main/java/com/beour/review/guest/service/GuestReviewService.java:93-101 | the loop builds one image row per URL, in order, with consecutive ids |
| GuestReviews.GuestReviewService.CreateReview | src/main/java/com/beour/review/guest/service/GuestReviewService.java:68-104 | fails exactly as the checks do and writes nothing then; on success appends the new review and its image rows and sets its space's average to the mean of its live ratings |
| GuestReviews.GuestReviewService.UpdateReview | src/main/java/com/beour/review/guest/service/GuestReviewService.java:112-137 | fails exactly as the checks do and changes nothing then; on success sets rating and content only, replaces the review's images and refreshes its space's average |
| GuestReviews.GuestReviewService.Store | src/main/java/com/beour/review/guest/service/GuestReviewService.java:81-110 | the writes of a create: the new review row takes the next id, the image rows follow in order with consecutive ids, and the space's average becomes the mean of its live ratings |
| GuestReviews.GuestReviewService.Edit | src/main/java/com/beour/review/guest/service/GuestReviewService.java:133-134 | only the edited review's rating and content change; every other review row stays as it was |
| GuestReviews.GuestReviewService.Apply | src/main/java/com/beour/review/guest/service/GuestReviewService.java:121-136 | the writes of an update: the review's live images are deleted softly, the new ones appended, rating and content set, and the space's average refreshed |
| GuestReviews.UpdatedReviewImages | src/main/java/com/beour/review/guest/service/GuestReviewService.java:121-131 | after an update the review shows exactly the request's URLs (none for a null list); other reviews keep theirs |
| GuestReviews.AverageExample | src/main/java/com/beour/review/guest/service/GuestReviewService.java:139-146 | ratings 5 and 4 and a deleted 1 average 4.5; no rating averages 0.0 |
| Login.FindByLoginId | src/main/java/com/beour/user/repository/UserRepository.java:15 | no row exactly when no user has that login id; duplicate rows exactly when two users have it; a found user is in the table with that login id |
| Login.FindByInfo | src/main/java/com/beour/user/service/LoginService.java:26-29 | no row exactly when no user has those name, phone and email; duplicate rows exactly when two users have them; a found user is in the table with them |
| Login.FindLoginId | src/main/java/com/beour/user/service/LoginService.java:25-33 | not found exactly when no user has those details; a duplicate-rows failure exactly when two users have them; a success is the login id of a live user with them; a withdrawn failure comes from a withdrawn user with them |
| Login.ResetCheck | src/main/java/com/beour/user/service/LoginService.java:48-72 | succeeds exactly when both lookups find one row each, both live and with the same id, returning the login-id user; duplicate rows exactly when a reached lookup matches several rows; withdrawn exactly when both find one row and either is withdrawn; not found exactly for an unknown login id, no user with those details, or two live users with different ids |
| Login.ResetAgreesWithFindLoginId | src/main/java/com/beour/user/service/LoginService.java:25-66 | on a table whose ids and login ids are keys, a reset passes its checks exactly for the login id that findLoginId returns for the same details |
| Login.UpdatedUserHasNewPassword | src/main/java/com/beour/user/service/LoginService.java:40 | after the update the login id finds its user with the new password and every other column unchanged |
| Login.AlphabetIsAlnum | src/main/java/com/beour/user/service/LoginService.java:76 | the alphabet is exactly the 62 ASCII letters and digits |
| Login.GenerateTempPassword | src/main/java/com/beour/user/service/LoginService.java:74-85 | ten characters, the i-th the alphabet letter of the i-th draw, each a letter or digit |
| Login.LoginService.ResetPassword | src/main/java/com/beour/user/service/LoginService.java:35-46 | fails exactly as the checks do and changes nothing then; on success returns the temporary password and stores its encoding for that login id only |
| Login.ScenarioFindLoginId | src/test/java/com/beour/user/controller/LoginControllerTest.java:56-120 | no match and a withdrawn match are refused; user1's details give "user1" |
| Login.ScenarioResetCheck | src/test/java/com/beour/user/controller/LoginControllerTest.java:123-187 | a wrong email and a withdrawn user are refused; user1's request passes |
| Login.ScenarioReRegistered | src/main/java/com/beour/user/service/LoginService.java:25-56 | a withdrawn user and a live user with the same login id and details make both findLoginId and the reset fail on duplicate rows |

## Left out

- Controllers, Spring Security, JWT, cookies and exception handlers: transport
  and framework configuration. The errors are datatype values, not HTTP
  responses.
- The reservation and host services are not part of this model. Their
  behaviour is taken from ReservationGuestControllerTest and
  ReservationHostControllerTest.
- Where those scenarios are silent, the model makes a choice:
  - Failed creation checks are reported in the order space, capacity,
    price, window or past time, conflict. No scenario fails two at once.
  - A guest's cancel leaves `deletedAt` unconstrained.
  - The current and past listings leave out REJECTED reservations.
  - The detail view treats a soft-deleted reservation as
    RESERVATION_NOT_FOUND, as the cancel does.
  - The by-status listing selects by the status a read reports, so an
    ended ACCEPTED reservation is listed under COMPLETED.
  - A host page with no rows is RESERVATION_NOT_FOUND.
- Clocks, SecureRandom and BCrypt are parameters: `today`, `now`, `draws`
  and `encode`. The verifier assumes nothing about the encoder.
- The `double` average is an exact `real` mean.
  `findAverageRatingBySpaceId` would return null for a space with no live
  review. That cannot happen after a create, which has just stored one.
- `@Transactional` atomicity and concurrency. Each operation runs alone.
- Fields that come from entities outside the core are not modelled: the
  nickname, creation dates and host nickname in written reviews, and the
  usage-purpose text. User.java, Space.java and ReviewComment.java are not
  part of this model.
- `User.isDeleted` is modelled as "the deletion stamp is set".
- Host comments are only carried. Writing one is not part of the core.
- `deleteReview`, called by GuestReviewController, is not defined in
  GuestReviewService. Deletion is covered by the `Review` soft delete
  (`Review.Delete`, `DeletedReviewInvisible`, `DeleteKeepsOneLive`,
  `DeletedReviewLeavesAverage`).
- ReviewGuestServiceTest exercises a different class, `ReviewGuestService`,
  with its own rules. It is not merged into this model.
- Repository methods that the services call but the interfaces do not
  declare are modelled by what their names say:
  `findAverageRatingBySpaceId`, `findByIdAndDeletedAtIsNull`,
  `findBySpaceIdAndDeletedAtIsNull` and `findByNameAndPhoneAndEmail`.
- ReviewRepository.java:13 declares a lookup by `reservedDate`, and
  ReviewGuestServiceTest builds and reads such a field (lines 240 and 373),
  as WrittenReviewDto.java declares one. Review.java (lines 22-48) has no
  such field and `getWrittenReviews` never sets it. The model follows
  Review.java and has no reserved date.
- `createReview` returns nothing. `GuestReviewService.CreateReview` returns
  the new review's id so that its postcondition can name the row.
- LoginService compares two boxed `Long` ids with `==` (line 61). Inside the
  one transaction, both lookups of the same user return the same managed
  instance, so the comparison behaves as value equality. It is modelled as
  value equality.
- Both account-recovery errors are one exception type; they differ only in
  message. LoginControllerTest expects the not-found code for a withdrawn
  user too. The model keeps the two messages apart, as the service writes
  them.
- The temporary-password alphabet is a single string literal in the source.
  The model writes it as three runs, A-Z, a-z and 0-9, in the same order.
  `Login.AlphabetIsAlnum` proves that it is exactly those 62 characters.
- HostListing.Confirmed, HostListing.Row: the host listings select and
  report the stored status, without the read-time completion the guest's
  read paths apply. The host DTO copies the stored status
  (CalendarReservationResponseDto.java:39), and every host scenario lists
  bookings that have not ended.
- HostListing.Row: the `currentlyInUse` flag follows the host scenario at
  ReservationHostControllerTest.java:380. CalendarReservationResponseDto.java
  (lines 13-33) declares no such field.
- ReservationListing.OfWithReview: the services that call the two-argument
  factory are not part of this model. It is kept for
  `FactoriesDifferOnlyInReviewAndFlag`, which relates it to the
  one-argument factory that the listings use.
- GuestReviews.CreateCheck: looks the reservation up with `findById`, as
  GuestReviewService.java:70 does, so a soft-deleted reservation is found.
  ReservationRepository.java:10 spells out `DeletedAtIsNull` where it
  filters, so the entity has no implicit filter.
- HostListing.HostRow: carries the guest's id where the host listing
  returns the guest's name (ReservationHostControllerTest.java:225). User
  names come from User.java, which is not part of this model.
- ReviewEntity.Review.Delete: stamps only the review. Review.java:43-47
  cascades every operation to the review's images and host comment, so a
  removal would also remove the comment. ReviewComment.java is not part of
  this model, and the host comment is carried unchanged.
- Login.ResetAgreesWithFindLoginId: holds only on a table whose ids and
  login ids are keys. The model does not relate the two operations on
  other tables.
- Login.GenerateTempPassword: takes the ten random draws as a parameter. Its
  precondition is the range `nextInt(62)` guarantees.

## Findings

| source | as written | input that shows it | evidently intended | confidence | as-written member | corrected member |
|---|---|---|---|---|---|---|
| src/main/java/com/beour/review/guest/service/GuestReviewService.java:73 | `createReview` tests ownership with `!=` on two boxed `Long` ids, which compares references; only ids in -128..127 are cached and compare equal | guest 200 reviewing their own reservation 1 is refused as not the reservation's guest | compare the id values | not executed | GuestReviews.CreateCheckAsWritten, GuestReviews.BoxedOwnerTestRefusesOwner | GuestReviews.CreateCheck |
| src/main/java/com/beour/review/guest/service/GuestReviewService.java:117 | `updateReview` tests ownership the same way | guest 200 updating their own review 7 is denied access | compare the id values | not executed | GuestReviews.UpdateCheckAsWritten, GuestReviews.BoxedOwnerTestRefusesOwner | GuestReviews.UpdateCheck |
