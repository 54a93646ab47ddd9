/** Shared rows of the booking domain: the reservation, space and
    available-time tables, the status enum, and the lookups that the
    repositories perform by primary key. Times are seconds of the day
    (a LocalTime), dates are day numbers (a LocalDate). */
module Domain {

  datatype Option<+T> = None | Some(value: T)

  datatype Result<+T, +E> = Success(value: T) | Failure(error: E)

  /** One hour, in seconds: the slot granularity of the availability list. */
  const HOUR: int := 3600

  /** A LocalTime, in seconds since midnight. */
  type Time = t: int | 0 <= t < 86400

  /** ReservationStatus. */
  datatype Status = Pending | Accepted | Rejected | Completed

  /** The Reservation entity; `deletedAt` is its soft-delete stamp. */
  datatype Reservation = Reservation(
    id: nat,
    guestId: nat,
    hostId: nat,
    spaceId: nat,
    date: int,
    start: Time,
    end: Time,
    price: int,
    guestCount: int,
    status: Status,
    usagePurpose: string,
    requestMessage: string,
    deletedAt: Option<int>)
  {
    predicate Live() { deletedAt.None? }
  }

  /** The Space entity, reduced to what the core reads and writes. */
  datatype Space = Space(
    id: nat,
    hostId: nat,
    name: string,
    thumbnailUrl: string,
    maxCapacity: int,
    pricePerHour: int,
    avgRating: real)

  /** A host-declared bookable window of one space on one date. */
  datatype AvailableTime = AvailableTime(id: nat, spaceId: nat, date: int, start: Time, end: Time)

  /** findById on the reservation table: the row with that id, deleted or not. */
  function FindReservation(rs: seq<Reservation>, id: nat): (r: Option<Reservation>)
    ensures r.Some? ==> r.value in rs && r.value.id == id
    ensures r.None? ==> forall x :: x in rs ==> x.id != id
  {
    if rs == [] then None
    else if rs[0].id == id then Some(rs[0])
    else FindReservation(rs[1..], id)
  }

  /** findById on the space table. */
  function FindSpace(spaces: seq<Space>, id: nat): (s: Option<Space>)
    ensures s.Some? ==> s.value in spaces && s.value.id == id
    ensures s.None? ==> forall x :: x in spaces ==> x.id != id
  {
    if spaces == [] then None
    else if spaces[0].id == id then Some(spaces[0])
    else FindSpace(spaces[1..], id)
  }

  /** The first window declared for the space on the date. */
  function FindWindow(windows: seq<AvailableTime>, spaceId: nat, date: int): (w: Option<AvailableTime>)
    ensures w.Some? ==> w.value in windows && w.value.spaceId == spaceId && w.value.date == date
    ensures w.None? ==> forall x :: x in windows ==> !(x.spaceId == spaceId && x.date == date)
  {
    if windows == [] then None
    else if windows[0].spaceId == spaceId && windows[0].date == date then Some(windows[0])
    else FindWindow(windows[1..], spaceId, date)
  }

  /** A repository query by condition: the rows that satisfy `p`, in table order. */
  function Filter<T(!new)>(s: seq<T>, p: T -> bool): (r: seq<T>)
    ensures |r| <= |s|
    ensures forall x :: x in r <==> x in s && p(x)
    ensures forall i :: 0 <= i < |r| ==> p(r[i])
  {
    if s == [] then []
    else (if p(s[0]) then [s[0]] else []) + Filter(s[1..], p)
  }

  /** When every row satisfies the condition, the query returns the whole table. */
  lemma {:induction false} FilterKeepsAll<T(!new)>(s: seq<T>, p: T -> bool)
    requires forall i :: 0 <= i < |s| ==> p(s[i])
    ensures Filter(s, p) == s
  {
    if s != [] {
      FilterKeepsAll(s[1..], p);
      assert s == [s[0]] + s[1..];
    }
  }

  /** The positions from `lo` on whose rows satisfy `p`, in increasing order. */
  function Picked<T>(s: seq<T>, p: T -> bool, lo: nat): (f: seq<nat>)
    requires lo <= |s|
    ensures forall k :: 0 <= k < |f| ==> lo <= f[k] < |s| && p(s[f[k]])
    ensures forall k, l :: 0 <= k < l < |f| ==> f[k] < f[l]
    ensures forall i :: lo <= i < |s| && p(s[i]) ==> i in f
    decreases |s| - lo
  {
    if lo == |s| then []
    else (if p(s[lo]) then [lo] else []) + Picked(s, p, lo + 1)
  }

  /** The query keeps table order: its k-th row is the row at the k-th
      position that satisfies `p`. With Picked's contract this says the
      result is exactly the satisfying rows, as a subsequence of the table. */
  lemma {:induction false} FilterPicks<T(!new)>(s: seq<T>, p: T -> bool, lo: nat)
    requires lo <= |s|
    ensures var r, f := Filter(s[lo..], p), Picked(s, p, lo);
      |r| == |f| && forall k :: 0 <= k < |r| ==> r[k] == s[f[k]]
    decreases |s| - lo
  {
    if lo < |s| {
      FilterPicks(s, p, lo + 1);
      var r, f := Filter(s[lo..], p), Picked(s, p, lo);
      var r1, f1 := Filter(s[lo + 1..], p), Picked(s, p, lo + 1);
      assert s[lo..][0] == s[lo] && s[lo..][1..] == s[lo + 1..];
      assert r == (if p(s[lo]) then [s[lo]] else []) + r1;
      if p(s[lo]) {
        assert f == [lo] + f1;
        forall k | 0 <= k < |r| ensures r[k] == s[f[k]] {
          if k > 0 {
            assert r[k] == r1[k - 1] && f[k] == f1[k - 1];
          }
        }
      } else {
        assert r == r1 && f == f1;
      }
    }
  }

  /** What a single-result query (an Optional finder) gives: no row, the one
      matching row, or an error because several rows match. */
  datatype Single<+T> = NoRow | OneRow(row: T) | ManyRows

  /** Two positions of the table satisfy `p`. */
  predicate TwoMatch<T>(s: seq<T>, p: T -> bool) {
    exists i, j :: 0 <= i < j < |s| && p(s[i]) && p(s[j])
  }

  /** A single-result query by condition. */
  function FindSingle<T(==,!new)>(s: seq<T>, p: T -> bool): (r: Single<T>)
    ensures r.NoRow? <==> forall x :: x in s ==> !p(x)
    ensures r.ManyRows? <==> TwoMatch(s, p)
    ensures r.OneRow? ==> r.row in s && p(r.row)
  {
    if s == [] then NoRow
    else
      var rest := FindSingle(s[1..], p);
      TwoMatchSplit(s, p);
      assert forall x :: x in s <==> x == s[0] || x in s[1..];
      match rest
      case NoRow => if p(s[0]) then OneRow(s[0]) else NoRow
      case OneRow(x) => if p(s[0]) then ManyRows else OneRow(x)
      case ManyRows => ManyRows
  }

  /** Two matches lie either both in the tail, or at the head and in the tail. */
  lemma TwoMatchSplit<T>(s: seq<T>, p: T -> bool)
    requires s != []
    ensures TwoMatch(s, p) <==>
      (p(s[0]) && exists k :: 0 <= k < |s[1..]| && p(s[1..][k])) || TwoMatch(s[1..], p)
  {
    var t := s[1..];
    if TwoMatch(s, p) {
      var i, j :| 0 <= i < j < |s| && p(s[i]) && p(s[j]);
      assert t[j - 1] == s[j];
      if i > 0 {
        assert t[i - 1] == s[i];
        assert 0 <= i - 1 < j - 1 < |t|;
      }
    }
    if p(s[0]) && exists k :: 0 <= k < |t| && p(t[k]) {
      var k :| 0 <= k < |t| && p(t[k]);
      assert s[k + 1] == t[k];
      assert 0 < k + 1 < |s|;
    }
    if TwoMatch(t, p) {
      var i, j :| 0 <= i < j < |t| && p(t[i]) && p(t[j]);
      assert s[i + 1] == t[i] && s[j + 1] == t[j];
    }
  }

  /** The single-result query finds the row at i when it is the only match. */
  lemma FindSingleAt<T(!new)>(s: seq<T>, p: T -> bool, i: nat)
    requires i < |s| && p(s[i])
    requires forall j :: 0 <= j < |s| && j != i ==> !p(s[j])
    ensures FindSingle(s, p) == OneRow(s[i])
  {
    assert s[i] in s;
    var r := FindSingle(s, p);
    var k :| 0 <= k < |s| && s[k] == r.row;
  }

  /** Every reservation's space is in the space table. */
  predicate SpacesKnown(rs: seq<Reservation>, spaces: seq<Space>) {
    forall r :: r in rs ==> FindSpace(spaces, r.spaceId).Some?
  }

  /** Half-open interval intersection: [s0, e0) and [s1, e1) share an instant. */
  predicate Overlaps(s0: int, e0: int, s1: int, e1: int) {
    s0 < e1 && s1 < e0
  }

  /** A reservation that holds its time: same space and date, not rejected, not soft-deleted. */
  predicate Blocks(r: Reservation, spaceId: nat, date: int) {
    r.spaceId == spaceId && r.date == date && r.status != Rejected && r.Live()
  }
}
