/** The available-times query of a space on a date: the hour slots of the
    date's window, minus the hours that are not after the current hour when the
    date is today, minus every slot that meets a reservation holding its time.
    The service that computes it is not part of this model; the behaviour here
    is the one the guest reservation controller's scenarios pin down. */
module Availability {
  import opened Domain

  datatype AvailabilityError = AvailableTimeNotFound

  /** The number of whole hour slots that fit in the window. */
  function SlotCount(w: AvailableTime): nat {
    if w.end <= w.start then 0 else (w.end - w.start) / HOUR
  }

  /** The window's candidate slot starts: start, start + 1h, ..., each ending inside the window. */
  function Candidates(w: AvailableTime): seq<int> {
    seq(SlotCount(w), k => w.start + k * HOUR)
  }

  /** On today's date only the hours strictly after the current hour are offered. */
  predicate AfterCurrentHour(slot: int, date: int, today: int, now: Time) {
    date != today || slot / HOUR > now / HOUR
  }

  /** No reservation holding its time on that space and date meets [slot, slot + 1h). */
  predicate SlotFree(rs: seq<Reservation>, spaceId: nat, date: int, slot: int) {
    forall r :: r in rs && Blocks(r, spaceId, date) ==> !Overlaps(slot, slot + HOUR, r.start, r.end)
  }

  predicate Offered(rs: seq<Reservation>, spaceId: nat, date: int, today: int, now: Time, slot: int) {
    AfterCurrentHour(slot, date, today, now) && SlotFree(rs, spaceId, date, slot)
  }

  /** The candidates that are offered, in the candidates' order. */
  function Offer(cands: seq<int>, rs: seq<Reservation>, spaceId: nat, date: int, today: int, now: Time): seq<int> {
    if cands == [] then []
    else (if Offered(rs, spaceId, date, today, now, cands[0]) then [cands[0]] else [])
         + Offer(cands[1..], rs, spaceId, date, today, now)
  }

  /** The slot list for (space, date), or AVAILABLE_TIME_NOT_FOUND for a past
      date or a date without a window. An empty list is a valid answer. */
  function AvailableTimes(windows: seq<AvailableTime>, rs: seq<Reservation>, spaceId: nat,
                          date: int, today: int, now: Time): Result<seq<int>, AvailabilityError>
  {
    if date < today then Failure(AvailableTimeNotFound)
    else match FindWindow(windows, spaceId, date)
      case None => Failure(AvailableTimeNotFound)
      case Some(w) => Success(Offer(Candidates(w), rs, spaceId, date, today, now))
  }

  predicate StrictlyIncreasing(s: seq<int>) {
    forall i, j :: 0 <= i < j < |s| ==> s[i] < s[j]
  }

  lemma {:induction false} OfferMembers(cands: seq<int>, rs: seq<Reservation>, spaceId: nat, date: int, today: int, now: Time)
    ensures forall t :: t in Offer(cands, rs, spaceId, date, today, now)
                    <==> t in cands && Offered(rs, spaceId, date, today, now, t)
  {
    if cands != [] {
      OfferMembers(cands[1..], rs, spaceId, date, today, now);
      assert forall t :: t in cands <==> t == cands[0] || t in cands[1..];
    }
  }

  lemma {:induction false} OfferIncreasing(cands: seq<int>, rs: seq<Reservation>, spaceId: nat, date: int, today: int, now: Time)
    requires StrictlyIncreasing(cands)
    ensures StrictlyIncreasing(Offer(cands, rs, spaceId, date, today, now))
  {
    if cands != [] {
      var tail := Offer(cands[1..], rs, spaceId, date, today, now);
      OfferIncreasing(cands[1..], rs, spaceId, date, today, now);
      OfferMembers(cands[1..], rs, spaceId, date, today, now);
      forall t | t in tail ensures cands[0] < t {
        var j :| 0 <= j < |cands[1..]| && cands[1..][j] == t;
        assert cands[0] < cands[j + 1];
      }
      var r := Offer(cands, rs, spaceId, date, today, now);
      if Offered(rs, spaceId, date, today, now, cands[0]) {
        assert r == [cands[0]] + tail;
        forall i, j | 0 <= i < j < |r| ensures r[i] < r[j] {
          assert r[j] == tail[j - 1] && r[j] in tail;
          if i > 0 { assert r[i] == tail[i - 1]; }
        }
      } else {
        assert r == tail;
      }
    }
  }

  /** A candidate is exactly an hour-aligned start whose whole hour lies in the window. */
  lemma CandidateMember(w: AvailableTime, t: int)
    ensures t in Candidates(w) <==> w.start <= t && t + HOUR <= w.end && (t - w.start) % HOUR == 0
  {
    if w.start <= t && t + HOUR <= w.end && (t - w.start) % HOUR == 0 {
      var k := (t - w.start) / HOUR;
      assert t == w.start + k * HOUR;
      assert (w.end - w.start) / HOUR >= k + 1;
      assert Candidates(w)[k] == t;
    }
    if t in Candidates(w) {
      var k :| 0 <= k < SlotCount(w) && Candidates(w)[k] == t;
      assert (w.end - w.start) / HOUR * HOUR <= w.end - w.start;
    }
  }

  lemma CandidatesIncreasing(w: AvailableTime)
    ensures StrictlyIncreasing(Candidates(w))
  {
  }

  /** The query fails exactly for a past date or a date without a window;
      otherwise it lists, in ascending order, exactly the hour-aligned slots of
      the window that are after the current hour (today) and meet no
      reservation holding its time. */
  lemma AvailableTimesSpec(windows: seq<AvailableTime>, rs: seq<Reservation>, spaceId: nat,
                           date: int, today: int, now: Time)
    ensures AvailableTimes(windows, rs, spaceId, date, today, now).Failure?
        <==> date < today || FindWindow(windows, spaceId, date).None?
    ensures AvailableTimes(windows, rs, spaceId, date, today, now).Success? ==>
      var ts := AvailableTimes(windows, rs, spaceId, date, today, now).value;
      var w := FindWindow(windows, spaceId, date).value;
      && StrictlyIncreasing(ts)
      && forall t :: t in ts <==>
           && w.start <= t && t + HOUR <= w.end && (t - w.start) % HOUR == 0
           && Offered(rs, spaceId, date, today, now, t)
  {
    if date >= today && FindWindow(windows, spaceId, date).Some? {
      var w := FindWindow(windows, spaceId, date).value;
      CandidatesIncreasing(w);
      OfferIncreasing(Candidates(w), rs, spaceId, date, today, now);
      OfferMembers(Candidates(w), rs, spaceId, date, today, now);
      forall t ensures t in Candidates(w) <==> w.start <= t && t + HOUR <= w.end && (t - w.start) % HOUR == 0 {
        CandidateMember(w, t);
      }
    }
  }

  /** Filtering a list whose first k candidates are refused and whose rest are
      offered leaves exactly the rest. */
  lemma {:induction false} OfferDropsPrefix(cands: seq<int>, k: nat, rs: seq<Reservation>, spaceId: nat,
                                            date: int, today: int, now: Time)
    requires k <= |cands|
    requires forall i :: 0 <= i < k ==> !Offered(rs, spaceId, date, today, now, cands[i])
    requires forall i :: k <= i < |cands| ==> Offered(rs, spaceId, date, today, now, cands[i])
    ensures Offer(cands, rs, spaceId, date, today, now) == cands[k..]
  {
    if cands != [] {
      if k == 0 {
        OfferDropsPrefix(cands[1..], 0, rs, spaceId, date, today, now);
        assert cands == [cands[0]] + cands[1..];
      } else {
        OfferDropsPrefix(cands[1..], k - 1, rs, spaceId, date, today, now);
        assert cands[1..][k - 1..] == cands[k..];
      }
    }
  }

  // ---------------------------------------------------------------------
  // The guest controller's scenarios. The fixture declares, for one space,
  // the window 01:00-23:00 on yesterday, today and tomorrow.

  function FixtureWindows(spaceId: nat, today: int): seq<AvailableTime> {
    [AvailableTime(1, spaceId, today - 1, 3600, 82800),
     AvailableTime(2, spaceId, today, 3600, 82800),
     AvailableTime(3, spaceId, today + 1, 3600, 82800)]
  }

  /** The expected list the scenarios build by a loop: hour `from` to hour `to`, inclusive. */
  function HourList(from: int, to: int): seq<int> {
    seq(if to < from then 0 else to - from + 1, i => (from + i) * HOUR)
  }

  /** A reservation of 01:00-05:00 on tomorrow, with the given status. */
  function EarlyReservation(spaceId: nat, today: int, status: Status): Reservation {
    Reservation(1, 10, 20, spaceId, today + 1, 3600, 18000, 60000, 2, status,
      "BARISTA_TRAINING", "", None)
  }

  lemma FixtureCandidates(spaceId: nat, today: int)
    ensures Candidates(FixtureWindows(spaceId, today)[2]) == HourList(1, 22)
    ensures FindWindow(FixtureWindows(spaceId, today), spaceId, today + 1) == Some(FixtureWindows(spaceId, today)[2])
    ensures FindWindow(FixtureWindows(spaceId, today), spaceId, today) == Some(FixtureWindows(spaceId, today)[1])
  {
  }

  /** Window 01:00-23:00 and a completed reservation 01:00-05:00 tomorrow:
      tomorrow offers 05:00 to 22:00. */
  lemma {:induction false} ScenarioReservationBlocksEarlyHours(spaceId: nat, today: int, now: Time)
    ensures AvailableTimes(FixtureWindows(spaceId, today), [EarlyReservation(spaceId, today, Completed)],
                           spaceId, today + 1, today, now) == Success(HourList(5, 22))
  {
    var rs := [EarlyReservation(spaceId, today, Completed)];
    var c := HourList(1, 22);
    FixtureCandidates(spaceId, today);
    forall i | 0 <= i < 4 ensures !Offered(rs, spaceId, today + 1, today, now, c[i]) {
      assert rs[0] in rs;
    }
    OfferDropsPrefix(c, 4, rs, spaceId, today + 1, today, now);
    assert c[4..] == HourList(5, 22);
  }

  /** The same reservation, rejected, blocks nothing: tomorrow offers 01:00 to 22:00. */
  lemma {:induction false} ScenarioRejectedReservationBlocksNothing(spaceId: nat, today: int, now: Time)
    ensures AvailableTimes(FixtureWindows(spaceId, today), [EarlyReservation(spaceId, today, Rejected)],
                           spaceId, today + 1, today, now) == Success(HourList(1, 22))
  {
    var rs := [EarlyReservation(spaceId, today, Rejected)];
    FixtureCandidates(spaceId, today);
    OfferDropsPrefix(HourList(1, 22), 0, rs, spaceId, today + 1, today, now);
  }

  /** Today, with no reservation, offers the hours from the one after the
      current hour up to 22:00 (none when it is already 23:xx). */
  lemma {:induction false} ScenarioToday(spaceId: nat, today: int, now: Time)
    ensures AvailableTimes(FixtureWindows(spaceId, today), [], spaceId, today, today, now)
         == Success(HourList(now / HOUR + 1, 22))
  {
    var h := now / HOUR;
    var c := HourList(1, 22);
    var k := if h < 22 then h else 22;
    FixtureCandidates(spaceId, today);
    OfferDropsPrefix(c, k, [], spaceId, today, today, now);
    assert c[k..] == HourList(h + 1, 22);
  }

  /** A past date fails even though yesterday has a window. */
  lemma ScenarioPastDate(spaceId: nat, today: int, now: Time)
    ensures AvailableTimes(FixtureWindows(spaceId, today), [], spaceId, today - 1, today, now)
         == Failure(AvailableTimeNotFound)
  {
  }

  /** A date without a window fails. */
  lemma ScenarioNoWindow(spaceId: nat, today: int, now: Time)
    ensures AvailableTimes(FixtureWindows(spaceId, today), [], spaceId, today + 3, today, now)
         == Failure(AvailableTimeNotFound)
  {
  }
}
