/** Reservations as the room service sees them, the strict overlap test
    `hayTraslapeHorario`, and the by-start ordering the schedule sweeps use.
    Times are minutes since midnight and dates are day numbers, which is
    what the services' `Date` values reduce to once the time zone is fixed. */
module Bookings {

  /** A row of the rooms table, reduced to what the room service returns. */
  datatype Room = Room(id: int, name: string, location: string)

  /** `EstadoSolicitud`; carried but never consulted by the schedule rules. */
  datatype Status = Pending | Approved | Rejected | Cancelled

  /** One row of the reservations table, reduced to the fields the room
      service reads. Nothing forces `start < end`: the request validator
      does not relate the two times. */
  datatype Reservation = Reservation(
    number: string,
    room: int,
    eventName: string,
    date: int,
    start: int,
    end: int,
    status: Status)

  /** The working day the room service sweeps: 08:00 to 18:00, and the
      shortest gap it reports (one hour), all in minutes. */
  const Opening: int := 8 * 60
  const Closing: int := 18 * 60
  const MinimumGap: int := 60

  /** `Date.getHours()` of a time given in minutes since midnight. */
  function Hour(m: int): int {
    m / 60
  }

  /** A booked window `[start, end)` in minutes since midnight. */
  datatype Interval = Interval(start: int, end: int)

  function Window(r: Reservation): Interval {
    Interval(r.start, r.end)
  }

  /** `hayTraslapeHorario(inicio1, fin1, inicio2, fin2)`. */
  predicate Overlaps(start1: int, end1: int, start2: int, end2: int) {
    start1 < end2 && end1 > start2
  }

  /** Minute `t` lies in the half-open window `[start, end)`. */
  predicate Covers(start: int, end: int, t: int) {
    start <= t < end
  }

  /** The overlap test is strict on both sides: for non-empty windows it
      holds exactly when they share a minute; it is symmetric; and windows
      that merely touch do not overlap. */
  lemma OverlapMeansSharedMinute(a: int, b: int, c: int, d: int)
    ensures a < b && c < d ==>
      (Overlaps(a, b, c, d) <==> exists t :: Covers(a, b, t) && Covers(c, d, t))
    ensures Overlaps(a, b, c, d) <==> Overlaps(c, d, a, b)
    ensures b == c ==> !Overlaps(a, b, c, d)
  {
    if a < b && c < d && Overlaps(a, b, c, d) {
      var t := if a <= c then c else a;
      assert Covers(a, b, t) && Covers(c, d, t);
    }
  }

  /** An inverted window (end before start), which the request validator
      lets through, can still overlap a proper one although they share no
      minute. */
  lemma InvertedWindowOverlaps()
    ensures Overlaps(600, 660, 630, 620)
    ensures !exists t :: Covers(600, 660, t) && Covers(630, 620, t)
  {
  }

  predicate SortedByStart(xs: seq<Interval>) {
    forall i, j :: 0 <= i < j < |xs| ==> xs[i].start <= xs[j].start
  }

  /** `r` is `xs` with `x` inserted, in start order. */
  predicate InsertedInto(x: Interval, xs: seq<Interval>, r: seq<Interval>) {
    SortedByStart(r) && multiset(r) == multiset(xs) + multiset{x} && |r| == |xs| + 1 &&
    forall k :: 0 <= k < |r| ==> r[k] == x || r[k] in xs
  }

  /** Places `x` in front of the first element that does not start before
      it, so `x` stays ahead of elements with the same start. */
  function Insert(x: Interval, xs: seq<Interval>): (r: seq<Interval>)
    requires SortedByStart(xs)
    ensures SortedByStart(r)
    ensures multiset(r) == multiset(xs) + multiset{x}
    ensures |r| == |xs| + 1
    ensures forall k :: 0 <= k < |r| ==> r[k] == x || r[k] in xs
  {
    if xs == [] || x.start <= xs[0].start then
      InsertFront(x, xs);
      [x] + xs
    else
      var rest := Insert(x, xs[1..]);
      InsertBehind(x, xs, rest);
      [xs[0]] + rest
  }

  lemma InsertFront(x: Interval, xs: seq<Interval>)
    requires SortedByStart(xs)
    requires xs == [] || x.start <= xs[0].start
    ensures InsertedInto(x, xs, [x] + xs)
  {
    SortedCons(x, xs);
    assert forall k :: 0 < k < |xs| + 1 ==> ([x] + xs)[k] == xs[k - 1];
  }

  lemma InsertBehind(x: Interval, xs: seq<Interval>, rest: seq<Interval>)
    requires SortedByStart(xs) && xs != [] && x.start > xs[0].start
    requires InsertedInto(x, xs[1..], rest)
    ensures InsertedInto(x, xs, [xs[0]] + rest)
  {
    assert xs == [xs[0]] + xs[1..];
    forall k | 0 <= k < |rest|
      ensures xs[0].start <= rest[k].start
    {
      if rest[k] != x {
        var j :| 0 <= j < |xs[1..]| && xs[1..][j] == rest[k];
        assert xs[j + 1] == rest[k];
      }
    }
    SortedCons(xs[0], rest);
    assert multiset([xs[0]] + rest) == multiset{xs[0]} + multiset(rest);
    forall k | 0 < k < |rest| + 1
      ensures ([xs[0]] + rest)[k] == x || ([xs[0]] + rest)[k] in xs
    {
      assert ([xs[0]] + rest)[k] == rest[k - 1];
    }
  }

  lemma SortedCons(y: Interval, rest: seq<Interval>)
    requires SortedByStart(rest)
    requires forall k :: 0 <= k < |rest| ==> y.start <= rest[k].start
    ensures SortedByStart([y] + rest)
  {
    var r := [y] + rest;
    forall i, j | 0 <= i < j < |r|
      ensures r[i].start <= r[j].start
    {
      assert r[j] == rest[j - 1];
      if i > 0 {
        assert r[i] == rest[i - 1];
      }
    }
  }

  /** The array `sort((a, b) => a.start - b.start)` the services apply:
      a stable ordering by start time. */
  function SortByStart(xs: seq<Interval>): (r: seq<Interval>)
    ensures SortedByStart(r)
    ensures multiset(r) == multiset(xs)
    ensures |r| == |xs|
  {
    if xs == [] then []
    else
      assert xs == [xs[0]] + xs[1..];
      Insert(xs[0], SortByStart(xs[1..]))
  }

  /** The windows of the reservations for `room` on `date`, in input order:
      the `filter(r => r.idSala === idSala && same day)` both schedule
      sweeps begin with. */
  function DayBookings(rs: seq<Reservation>, room: int, date: int): (r: seq<Interval>)
    ensures |r| <= |rs|
    ensures forall w :: w in r <==>
      exists i :: 0 <= i < |rs| && rs[i].room == room && rs[i].date == date && Window(rs[i]) == w
  {
    if rs == [] then []
    else
      var rest := DayBookings(rs[1..], room, date);
      assert forall i :: 0 < i < |rs| ==> rs[i] == rs[1..][i - 1];
      if rs[0].room == room && rs[0].date == date then [Window(rs[0])] + rest else rest
  }

  /** Selecting a day's bookings distributes over concatenation, so with
      `DayBookingsOne` it is determined: each reservation contributes its own
      window once if it is for that room and date, and nothing otherwise, in
      the order of the input. */
  lemma {:induction false} DayBookingsAppend(a: seq<Reservation>, b: seq<Reservation>, room: int, date: int)
    ensures DayBookings(a + b, room, date) == DayBookings(a, room, date) + DayBookings(b, room, date)
    decreases |a|
  {
    if a == [] {
      assert a + b == b;
    } else {
      var ab := a + b;
      assert ab[0] == a[0];
      assert ab[1..] == a[1..] + b;
      DayBookingsAppend(a[1..], b, room, date);
      var head := if a[0].room == room && a[0].date == date then [Window(a[0])] else [];
      assert DayBookings(ab, room, date) == head + DayBookings(ab[1..], room, date);
      assert DayBookings(a, room, date) == head + DayBookings(a[1..], room, date);
    }
  }

  /** A single reservation contributes its window exactly when it is for
      the room and date. */
  lemma DayBookingsOne(x: Reservation, room: int, date: int)
    ensures DayBookings([x], room, date) == if x.room == room && x.date == date then [Window(x)] else []
  {
    assert [x][1..] == [];
  }
}
