/** Conflict detection for a candidate booking (`validarDisponibilidadSala`)
    and the free-room query (`ObtenerSalasDisponiblesPorHora`). The
    reservations table is the sequence `rs`, in the order the query returns
    it. */
module Conflicts {
  import opened Common
  import opened Bookings
  import opened Suggestions

  /** `conflictDetails`: the clashing booking's name, number and times. */
  datatype ConflictDetails = ConflictDetails(eventName: string, number: string, start: int, end: int)

  /** `ConflictoHorario`. `NoConflict` is `{hasConflict: false}`; `Conflicting`
      always has `conflictType` 'reserva_existente', details and suggestions. */
  datatype Availability = NoConflict | Conflicting(details: ConflictDetails, suggestions: Suggestion)

  function DetailsOf(r: Reservation): ConflictDetails {
    ConflictDetails(r.eventName, r.number, r.start, r.end)
  }

  /** Reservation `r` blocks the request: same room, same calendar date, and
      overlapping windows. The status is not looked at. */
  predicate Clashes(r: Reservation, room: int, date: int, start: int, end: int) {
    r.room == room && r.date == date && Overlaps(start, end, r.start, r.end)
  }

  /** Index of the first reservation at or after `i` that clashes. */
  function FirstClash(rs: seq<Reservation>, room: int, date: int, start: int, end: int, i: nat): (k: Option<nat>)
    requires i <= |rs|
    ensures k.Some? ==> i <= k.value < |rs| && Clashes(rs[k.value], room, date, start, end)
    ensures k.Some? ==> forall j :: i <= j < k.value ==> !Clashes(rs[j], room, date, start, end)
    ensures k.None? ==> forall j :: i <= j < |rs| ==> !Clashes(rs[j], room, date, start, end)
    decreases |rs| - i
  {
    if i == |rs| then None
    else if Clashes(rs[i], room, date, start, end) then Some(i)
    else FirstClash(rs, room, date, start, end, i + 1)
  }

  /** The verdict of `validarDisponibilidadSala` with the suggestions `sg`
      to attach: a conflict is reported exactly when some reservation
      clashes, and its details are those of the first clashing reservation
      in input order. */
  function Verdict(room: int, date: int, start: int, end: int, rs: seq<Reservation>, sg: Suggestion): (r: Availability)
    ensures r.Conflicting? <==> exists i :: 0 <= i < |rs| && Clashes(rs[i], room, date, start, end)
    ensures r.Conflicting? ==>
      exists k :: (0 <= k < |rs| && Clashes(rs[k], room, date, start, end) &&
        (forall j :: 0 <= j < k ==> !Clashes(rs[j], room, date, start, end)) &&
        r.details == DetailsOf(rs[k]))
    ensures r.Conflicting? ==> r.suggestions == sg
  {
    match FirstClash(rs, room, date, start, end, 0)
    case None => NoConflict
    case Some(k) => Conflicting(DetailsOf(rs[k]), sg)
  }

  /** `validarDisponibilidadSala` with the corrected suggestions attached. */
  function ValidateAvailability(room: int, date: int, start: int, end: int, rs: seq<Reservation>): (r: Availability)
    ensures r.Conflicting? <==> exists i :: 0 <= i < |rs| && Clashes(rs[i], room, date, start, end)
    ensures r.Conflicting? ==>
      exists k :: (0 <= k < |rs| && Clashes(rs[k], room, date, start, end) &&
        (forall j :: 0 <= j < k ==> !Clashes(rs[j], room, date, start, end)) &&
        r.details == DetailsOf(rs[k]))
    ensures r.Conflicting? ==> r.suggestions == Suggest(room, date, rs)
  {
    Verdict(room, date, start, end, rs, Suggest(room, date, rs))
  }

  /** `validarDisponibilidadSala` as written: the same verdict and details,
      with the suggestions of the generator as written attached. */
  function ValidateAvailabilityAsWritten(room: int, date: int, start: int, end: int, rs: seq<Reservation>): (r: Availability)
    ensures r.Conflicting? <==> exists i :: 0 <= i < |rs| && Clashes(rs[i], room, date, start, end)
    ensures r.Conflicting? ==>
      exists k :: (0 <= k < |rs| && Clashes(rs[k], room, date, start, end) &&
        (forall j :: 0 <= j < k ==> !Clashes(rs[j], room, date, start, end)) &&
        r.details == DetailsOf(rs[k]))
    ensures r.Conflicting? ==> r.suggestions == SuggestAsWritten(room, date, rs)
  {
    Verdict(room, date, start, end, rs, SuggestAsWritten(room, date, rs))
  }

  /** The correction touches only the attached suggestions: both versions
      report a conflict for the same requests, with the same details, and
      when every booking of the day ends no later than the next one starts
      (no booking encloses a later one) the suggestions agree too. */
  lemma AsWrittenDiffersOnlyInSuggestions(room: int, date: int, start: int, end: int, rs: seq<Reservation>)
    ensures ValidateAvailabilityAsWritten(room, date, start, end, rs).Conflicting? <==>
      ValidateAvailability(room, date, start, end, rs).Conflicting?
    ensures ValidateAvailability(room, date, start, end, rs).Conflicting? ==>
      ValidateAvailabilityAsWritten(room, date, start, end, rs).details ==
      ValidateAvailability(room, date, start, end, rs).details
    ensures EndsOrdered(SortByStart(DayBookings(rs, room, date))) ==>
      ValidateAvailabilityAsWritten(room, date, start, end, rs) == ValidateAvailability(room, date, start, end, rs)
  {
    var sa := SuggestAsWritten(room, date, rs);
    var sc := Suggest(room, date, rs);
    assert ValidateAvailabilityAsWritten(room, date, start, end, rs) == Verdict(room, date, start, end, rs, sa);
    assert ValidateAvailability(room, date, start, end, rs) == Verdict(room, date, start, end, rs, sc);
    if EndsOrdered(SortByStart(DayBookings(rs, room, date))) {
      SuggestAgreesWhenEndsOrdered(room, date, rs);
    }
  }

  /** `rs2` is `rs` with only the statuses changed. */
  predicate SameButStatus(rs: seq<Reservation>, rs2: seq<Reservation>) {
    |rs| == |rs2| && forall i :: 0 <= i < |rs| ==> rs2[i] == rs[i].(status := rs2[i].status)
  }

  lemma {:induction false} DayBookingsIgnoreStatus(rs: seq<Reservation>, rs2: seq<Reservation>, room: int, date: int)
    requires SameButStatus(rs, rs2)
    ensures DayBookings(rs, room, date) == DayBookings(rs2, room, date)
  {
    if rs != [] {
      DayBookingsIgnoreStatus(rs[1..], rs2[1..], room, date);
    }
  }

  /** Approved, pending, rejected and cancelled reservations all block a
      request alike: changing statuses never changes the verdict. */
  lemma StatusNotConsulted(room: int, date: int, start: int, end: int, rs: seq<Reservation>, rs2: seq<Reservation>)
    requires SameButStatus(rs, rs2)
    ensures ValidateAvailability(room, date, start, end, rs) == ValidateAvailability(room, date, start, end, rs2)
  {
    DayBookingsIgnoreStatus(rs, rs2, room, date);
    var k1 := FirstClash(rs, room, date, start, end, 0);
    var k2 := FirstClash(rs2, room, date, start, end, 0);
    assert forall j :: 0 <= j < |rs| ==>
      (Clashes(rs[j], room, date, start, end) <==> Clashes(rs2[j], room, date, start, end));
    if k1.Some? && k2.Some? {
      assert k1.value == k2.value;
    }
  }

  /** A reservation the free-room query treats as occupying the window:
      on the day, inside the selection when there is one, and overlapping. */
  predicate Occupies(r: Reservation, date: int, start: int, end: int, selected: seq<int>) {
    r.date == date && (|selected| == 0 || r.room in selected) && Overlaps(r.start, r.end, start, end)
  }

  /** `salasOcupadas`: rooms of the occupying reservations, in order. */
  function OccupiedRooms(rs: seq<Reservation>, date: int, start: int, end: int, selected: seq<int>): (occ: seq<int>)
    ensures forall id :: id in occ <==>
      exists i :: 0 <= i < |rs| && rs[i].room == id && Occupies(rs[i], date, start, end, selected)
  {
    if rs == [] then []
    else
      var rest := OccupiedRooms(rs[1..], date, start, end, selected);
      assert forall i :: 0 < i < |rs| ==> rs[i] == rs[1..][i - 1];
      if Occupies(rs[0], date, start, end, selected) then [rs[0].room] + rest else rest
  }

  /** The rooms query: in the selection (all rooms when it is empty) and not
      occupied. */
  function RoomsWhere(rooms: seq<Room>, selected: seq<int>, occupied: seq<int>): (r: seq<Room>)
    ensures |r| <= |rooms|
    ensures forall x :: x in r <==> x in rooms && (|selected| == 0 || x.id in selected) && x.id !in occupied
  {
    if rooms == [] then []
    else
      var rest := RoomsWhere(rooms[1..], selected, occupied);
      assert forall x :: x in rooms <==> x == rooms[0] || x in rooms[1..];
      if (|selected| == 0 || rooms[0].id in selected) && rooms[0].id !in occupied then [rooms[0]] + rest else rest
  }

  /** `ObtenerSalasDisponiblesPorHora`: the selected rooms (every room when
      none is selected) minus every room with a reservation that day
      overlapping the window; so no returned room has such a reservation. */
  function AvailableRooms(rooms: seq<Room>, rs: seq<Reservation>, date: int, start: int, end: int, selected: seq<int>): (r: seq<Room>)
    ensures |r| <= |rooms|
    ensures forall x :: x in r <==>
      x in rooms && (|selected| == 0 || x.id in selected) &&
      forall i :: 0 <= i < |rs| && rs[i].room == x.id && rs[i].date == date ==> !Overlaps(rs[i].start, rs[i].end, start, end)
  {
    RoomsWhere(rooms, selected, OccupiedRooms(rs, date, start, end, selected))
  }
}
