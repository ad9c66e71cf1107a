/** `consultarDisponibilidadSala`: for each room, whether the room has a free
    hour in the working day 08:00-18:00. The day's bookings of the room are
    sorted by start and swept once, tracking the latest end seen so far
    (`anteriorFin`). */
module FreeHour {
  import opened Common
  import opened Bookings

  /** `anteriorFin` when the sweep reaches `bs[i]`: 08:00, raised to the
      latest end among `bs[..i]`. */
  function PrevEnd(bs: seq<Interval>, i: nat): int
    requires i <= |bs|
  {
    if i == 0 then Opening else Max(PrevEnd(bs, i - 1), bs[i - 1].end)
  }

  /** `anteriorFin` starts at 08:00, never decreases, and is never below the
      end of a booking already swept. */
  lemma {:induction false} PrevEndBounds(bs: seq<Interval>, i: nat)
    requires i <= |bs|
    ensures PrevEnd(bs, i) >= Opening
    ensures forall k :: 0 <= k < i ==> bs[k].end <= PrevEnd(bs, i)
    ensures forall j :: 0 <= j <= i ==> PrevEnd(bs, j) <= PrevEnd(bs, i)
  {
    if i > 0 {
      PrevEndBounds(bs, i - 1);
    }
  }

  // ---------------------------------------------------------------------
  // As written: a gap is measured up to the next booking's start, however
  // late in the evening that is.
  // ---------------------------------------------------------------------

  predicate GapAsWritten(bs: seq<Interval>, i: nat)
    requires i < |bs|
  {
    bs[i].start - PrevEnd(bs, i) >= MinimumGap
  }

  /** What the service's sweep reports: some booking starts an hour or more
      after the running end, or an hour or more remains before 18:00. */
  predicate FreeHourAsWritten(bs: seq<Interval>) {
    (exists i :: 0 <= i < |bs| && GapAsWritten(bs, i)) || Closing - PrevEnd(bs, |bs|) >= MinimumGap
  }

  /** The sweep of the service, as written. */
  method SweepAsWritten(bs: seq<Interval>) returns (available: bool)
    ensures available <==> FreeHourAsWritten(bs)
  {
    available := false;
    var prevEnd := Opening;
    var i := 0;
    while i < |bs|
      invariant 0 <= i <= |bs| && prevEnd == PrevEnd(bs, i) && !available
      invariant forall j :: 0 <= j < i ==> !GapAsWritten(bs, j)
    {
      if bs[i].start - prevEnd >= MinimumGap {
        assert GapAsWritten(bs, i);
        available := true;
        break;
      }
      prevEnd := Max(prevEnd, bs[i].end);
      i := i + 1;
    }
    if !available && Closing - prevEnd >= MinimumGap {
      available := true;
    }
  }

  // ---------------------------------------------------------------------
  // Reference: the room has an hour inside 08:00-18:00 that no booking
  // touches.
  // ---------------------------------------------------------------------

  /** The hour starting at minute `t` lies within 08:00-18:00 and overlaps no
      booking. */
  predicate FreeHourAt(bs: seq<Interval>, t: int) {
    Opening <= t && t + MinimumGap <= Closing &&
    forall b :: b in bs ==> !Overlaps(t, t + MinimumGap, b.start, b.end)
  }

  predicate HasFreeHour(bs: seq<Interval>) {
    exists t :: Opening <= t <= Closing - MinimumGap && FreeHourAt(bs, t)
  }

  /** A room booked 08:00-20:00 and again from 21:30 has no free hour in the
      working day, yet the sweep as written reports it available. */
  lemma AsWrittenIgnoresClosing()
    ensures var bs := [Interval(480, 1200), Interval(1290, 1320)];
      SortedByStart(bs) && FreeHourAsWritten(bs) && !HasFreeHour(bs)
  {
    var bs := [Interval(480, 1200), Interval(1290, 1320)];
    assert PrevEnd(bs, 1) == 1200;
    assert GapAsWritten(bs, 1);
    forall t | Opening <= t <= Closing - MinimumGap
      ensures !FreeHourAt(bs, t)
    {
      assert bs[0] in bs;
    }
  }

  // ---------------------------------------------------------------------
  // Corrected: a gap is cut off at 18:00.
  // ---------------------------------------------------------------------

  predicate Gap(bs: seq<Interval>, i: nat)
    requires i < |bs|
  {
    Min(bs[i].start, Closing) - PrevEnd(bs, i) >= MinimumGap
  }

  predicate FreeHourSweep(bs: seq<Interval>) {
    (exists i :: 0 <= i < |bs| && Gap(bs, i)) || Closing - PrevEnd(bs, |bs|) >= MinimumGap
  }

  /** The sweep with each booking's start cut off at 18:00. */
  method Sweep(bs: seq<Interval>) returns (available: bool)
    ensures available <==> FreeHourSweep(bs)
  {
    available := false;
    var prevEnd := Opening;
    var i := 0;
    while i < |bs|
      invariant 0 <= i <= |bs| && prevEnd == PrevEnd(bs, i) && !available
      invariant forall j :: 0 <= j < i ==> !Gap(bs, j)
    {
      if Min(bs[i].start, Closing) - prevEnd >= MinimumGap {
        assert Gap(bs, i);
        available := true;
        break;
      }
      prevEnd := Max(prevEnd, bs[i].end);
      i := i + 1;
    }
    if !available && Closing - prevEnd >= MinimumGap {
      available := true;
    }
  }

  /** When no booking starts after 18:00 the two sweeps agree. */
  lemma AgreeBeforeClosing(bs: seq<Interval>)
    requires forall k :: 0 <= k < |bs| ==> bs[k].start <= Closing
    ensures FreeHourSweep(bs) <==> FreeHourAsWritten(bs)
  {
    assert forall i :: 0 <= i < |bs| ==> (Gap(bs, i) <==> GapAsWritten(bs, i));
  }

  /** Soundness: on bookings sorted by start, a gap found by the corrected
      sweep is a free hour of the working day. */
  lemma SweepSound(bs: seq<Interval>)
    requires SortedByStart(bs)
    requires FreeHourSweep(bs)
    ensures HasFreeHour(bs)
  {
    if i :| 0 <= i < |bs| && Gap(bs, i) {
      var t := PrevEnd(bs, i);
      PrevEndBounds(bs, i);
      forall b | b in bs
        ensures !Overlaps(t, t + MinimumGap, b.start, b.end)
      {
        var k :| 0 <= k < |bs| && bs[k] == b;
        if k >= i {
          assert bs[i].start <= bs[k].start;
        }
      }
      assert FreeHourAt(bs, t);
    } else {
      var t := PrevEnd(bs, |bs|);
      PrevEndBounds(bs, |bs|);
      assert FreeHourAt(bs, t);
    }
  }

  /** Completeness: if the working day has a free hour starting at `t` and
      the sweep has not passed beyond `t` by `bs[i]`, it reports a gap. */
  lemma {:induction false} SweepComplete(bs: seq<Interval>, t: int, i: nat)
    requires FreeHourAt(bs, t)
    requires i <= |bs| && PrevEnd(bs, i) <= t
    ensures FreeHourSweep(bs)
    decreases |bs| - i
  {
    if i == |bs| {
    } else if bs[i].start >= t + MinimumGap {
      assert Gap(bs, i);
    } else {
      assert bs[i] in bs;
      SweepComplete(bs, t, i + 1);
    }
  }

  /** On bookings sorted by start, the corrected sweep reports a room
      available exactly when it has a free hour between 08:00 and 18:00. */
  lemma SweepIsExact(bs: seq<Interval>)
    requires SortedByStart(bs)
    ensures FreeHourSweep(bs) <==> HasFreeHour(bs)
  {
    if FreeHourSweep(bs) {
      SweepSound(bs);
    }
    if HasFreeHour(bs) {
      var t :| Opening <= t <= Closing - MinimumGap && FreeHourAt(bs, t);
      SweepComplete(bs, t, 0);
    }
  }

  /** One entry of the result: `{id, nombreSala, ubicacion, estaDisponible}`. */
  datatype RoomAvailability = RoomAvailability(id: int, name: string, location: string, available: bool)

  /** `consultarDisponibilidadSala` with the corrected sweep: one entry per
      room, in room order, available exactly when the room's bookings that
      day leave an hour free between 08:00 and 18:00. */
  method DayAvailability(rooms: seq<Room>, rs: seq<Reservation>, day: int) returns (out: seq<RoomAvailability>)
    ensures |out| == |rooms|
    ensures forall k :: 0 <= k < |rooms| ==>
      out[k].id == rooms[k].id && out[k].name == rooms[k].name && out[k].location == rooms[k].location
    ensures forall k :: 0 <= k < |rooms| ==>
      (out[k].available <==> HasFreeHour(DayBookings(rs, rooms[k].id, day)))
  {
    out := [];
    for k := 0 to |rooms|
      invariant |out| == k
      invariant forall j :: 0 <= j < k ==> out[j] == Entry(rooms[j], HasFreeHour(DayBookings(rs, rooms[j].id, day)))
    {
      var free := RoomVerdict(rs, rooms[k].id, day);
      out := out + [Entry(rooms[k], free)];
    }
  }

  function Entry(room: Room, available: bool): RoomAvailability {
    RoomAvailability(room.id, room.name, room.location, available)
  }

  /** The corrected verdict for one room: its bookings that day, sorted by
      start, swept. */
  method RoomVerdict(rs: seq<Reservation>, room: int, day: int) returns (free: bool)
    ensures free == HasFreeHour(DayBookings(rs, room, day))
  {
    var bookings := DayBookings(rs, room, day);
    var bs := SortByStart(bookings);
    free := Sweep(bs);
    SweepIsExact(bs);
    SameMembersSameFreeHours(bs, bookings);
  }

  /** The as-written verdict for one room: its bookings that day, sorted by
      start, checked by the sweep as written. */
  predicate RoomFreeAsWritten(rs: seq<Reservation>, room: int, day: int) {
    FreeHourAsWritten(SortByStart(DayBookings(rs, room, day)))
  }

  method RoomVerdictAsWritten(rs: seq<Reservation>, room: int, day: int) returns (free: bool)
    ensures free == RoomFreeAsWritten(rs, room, day)
  {
    free := SweepAsWritten(SortByStart(DayBookings(rs, room, day)));
  }

  /** `consultarDisponibilidadSala` as written: one entry per room, in room
      order, available exactly when the sweep as written finds an hour in the
      room's bookings that day sorted by start. When none of those bookings
      starts after 18:00 this is the same verdict as the corrected one. */
  method DayAvailabilityAsWritten(rooms: seq<Room>, rs: seq<Reservation>, day: int) returns (out: seq<RoomAvailability>)
    ensures |out| == |rooms|
    ensures forall k :: 0 <= k < |rooms| ==>
      out[k].id == rooms[k].id && out[k].name == rooms[k].name && out[k].location == rooms[k].location
    ensures forall k :: 0 <= k < |rooms| ==>
      (out[k].available <==> FreeHourAsWritten(SortByStart(DayBookings(rs, rooms[k].id, day))))
    ensures forall k :: 0 <= k < |rooms| && StartsByClosing(rs, rooms[k].id, day) ==>
      (out[k].available <==> HasFreeHour(DayBookings(rs, rooms[k].id, day)))
  {
    out := [];
    for k := 0 to |rooms|
      invariant |out| == k
      invariant forall j :: 0 <= j < k ==> out[j] == Entry(rooms[j], RoomFreeAsWritten(rs, rooms[j].id, day))
    {
      var free := RoomVerdictAsWritten(rs, rooms[k].id, day);
      out := out + [Entry(rooms[k], free)];
    }
    AsWrittenEntries(rooms, rs, day, out);
  }

  /** What the entries built by the as-written availability check say. */
  lemma AsWrittenEntries(rooms: seq<Room>, rs: seq<Reservation>, day: int, out: seq<RoomAvailability>)
    requires |out| == |rooms|
    requires forall j :: 0 <= j < |rooms| ==> out[j] == Entry(rooms[j], RoomFreeAsWritten(rs, rooms[j].id, day))
    ensures forall k :: 0 <= k < |rooms| ==>
      (out[k].available <==> FreeHourAsWritten(SortByStart(DayBookings(rs, rooms[k].id, day))))
    ensures forall k :: 0 <= k < |rooms| && StartsByClosing(rs, rooms[k].id, day) ==>
      (out[k].available <==> HasFreeHour(DayBookings(rs, rooms[k].id, day)))
  {
    forall k | 0 <= k < |rooms| && StartsByClosing(rs, rooms[k].id, day)
      ensures out[k].available <==> HasFreeHour(DayBookings(rs, rooms[k].id, day))
    {
      AsWrittenAgreesByClosing(rs, rooms[k].id, day);
    }
  }

  /** Every booking of the room that day starts by 18:00. */
  predicate StartsByClosing(rs: seq<Reservation>, room: int, date: int) {
    forall i :: 0 <= i < |rs| && rs[i].room == room && rs[i].date == date ==> rs[i].start <= Closing
  }

  /** On a day whose bookings all start by 18:00, the availability verdict
      as written is exact: a free hour inside 08:00-18:00 exists. */
  lemma AsWrittenAgreesByClosing(rs: seq<Reservation>, room: int, date: int)
    requires StartsByClosing(rs, room, date)
    ensures FreeHourAsWritten(SortByStart(DayBookings(rs, room, date))) <==> HasFreeHour(DayBookings(rs, room, date))
  {
    var bookings := DayBookings(rs, room, date);
    var bs := SortByStart(bookings);
    forall i | 0 <= i < |bs|
      ensures bs[i].start <= Closing
    {
      assert bs[i] in multiset(bookings);
      assert bs[i] in bookings;
      var j :| 0 <= j < |rs| && rs[j].room == room && rs[j].date == date && Window(rs[j]) == bs[i];
    }
    AgreeBeforeClosing(bs);
    SweepIsExact(bs);
    SameMembersSameFreeHours(bs, bookings);
  }

  /** Whether a free hour exists depends only on which bookings there are,
      not on their order. */
  lemma SameMembersSameFreeHours(a: seq<Interval>, b: seq<Interval>)
    requires multiset(a) == multiset(b)
    ensures HasFreeHour(a) <==> HasFreeHour(b)
  {
    assert forall x :: x in a <==> x in multiset(a);
    assert forall x :: x in b <==> x in multiset(b);
    assert forall t :: FreeHourAt(a, t) <==> FreeHourAt(b, t);
  }
}
