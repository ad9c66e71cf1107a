/** `generarSugerenciasHorario`: alternative slots offered when a requested
    window conflicts. A slot stands for the string "HH:MM - HH:MM" the
    service formats; here it is the pair of minute values. */
module Suggestions {
  import opened Common
  import opened Bookings

  datatype Slot = Slot(from: int, to: int)

  /** `{ proximoHorarioDisponible, alternativas }`. */
  datatype Suggestion = Suggestion(next: Option<Slot>, alternatives: seq<Slot>)

  /** The slot is not empty and overlaps none of `bs`. */
  predicate FreeOf(s: Slot, bs: seq<Interval>) {
    s.from < s.to && forall k :: 0 <= k < |bs| ==> !Overlaps(s.from, s.to, bs[k].start, bs[k].end)
  }

  /** "08:00 - first start" when the first booking starts after the 8 o'clock
      hour. Shared by both versions of the generator. */
  function LeadingSlot(bs: seq<Interval>): (r: seq<Slot>)
    ensures |r| <= 1
    ensures |r| == 1 <==> |bs| > 0 && bs[0].start >= Opening + 60
    ensures |r| == 1 ==> r[0] == Slot(Opening, bs[0].start)
  {
    if |bs| > 0 && Hour(bs[0].start) > 8 then [Slot(Opening, bs[0].start)] else []
  }

  /** Largest end among `bs[..n]`. */
  function MaxEnd(bs: seq<Interval>, n: nat): (m: int)
    requires 0 < n <= |bs|
    ensures forall k :: 0 <= k < n ==> bs[k].end <= m
    ensures exists k :: 0 <= k < n && bs[k].end == m
  {
    if n == 1 then bs[0].end else Max(MaxEnd(bs, n - 1), bs[n - 1].end)
  }

  /** Where the gap after `bs[j]` begins: the end of `bs[j]` as written, the
      latest end among `bs[..j+1]` in the corrected generator. */
  function GapFrom(bs: seq<Interval>, j: nat, corrected: bool): int
    requires j < |bs|
  {
    if corrected then MaxEnd(bs, j + 1) else bs[j].end
  }

  /** The gap between `bs[j]` and `bs[j+1]` lasts at least an hour. */
  predicate GapQualifies(bs: seq<Interval>, j: nat, corrected: bool)
    requires j + 1 < |bs|
  {
    bs[j + 1].start - GapFrom(bs, j, corrected) >= MinimumGap
  }

  /** The slot offered for the gap after `bs[j]`. */
  function GapSlotAt(bs: seq<Interval>, j: nat, corrected: bool): Slot
    requires j + 1 < |bs|
  {
    Slot(GapFrom(bs, j, corrected), bs[j + 1].start)
  }

  /** The positions `j >= i` whose gap qualifies, in increasing order, each
      once. */
  function GapIndices(bs: seq<Interval>, i: nat, corrected: bool): (idx: seq<nat>)
    ensures forall k :: 0 <= k < |idx| ==> i <= idx[k] && idx[k] + 1 < |bs| && GapQualifies(bs, idx[k], corrected)
    ensures forall k, l :: 0 <= k < l < |idx| ==> idx[k] < idx[l]
    ensures forall j :: i <= j && j + 1 < |bs| && GapQualifies(bs, j, corrected) ==> j in idx
    decreases |bs| - i
  {
    if i + 1 >= |bs| then []
    else
      var rest := GapIndices(bs, i + 1, corrected);
      GapIndicesStep(bs, i, corrected, rest);
      (if GapQualifies(bs, i, corrected) then [i] else []) + rest
  }

  /** What `GapIndices(bs, i, corrected)` promises, as one predicate. */
  predicate QualifyingFrom(bs: seq<Interval>, i: nat, corrected: bool, idx: seq<nat>) {
    (forall k :: 0 <= k < |idx| ==> i <= idx[k] && idx[k] + 1 < |bs| && GapQualifies(bs, idx[k], corrected)) &&
    (forall k, l :: 0 <= k < l < |idx| ==> idx[k] < idx[l]) &&
    (forall j :: i <= j && j + 1 < |bs| && GapQualifies(bs, j, corrected) ==> j in idx)
  }

  lemma GapIndicesStep(bs: seq<Interval>, i: nat, corrected: bool, rest: seq<nat>)
    requires i + 1 < |bs|
    requires QualifyingFrom(bs, i + 1, corrected, rest)
    ensures QualifyingFrom(bs, i, corrected, (if GapQualifies(bs, i, corrected) then [i] else []) + rest)
  {
    var head := if GapQualifies(bs, i, corrected) then [i] else [];
    StepQualifying(bs, i, corrected, head, rest);
    StepIncreasing(i, head, rest);
    StepComplete(bs, i, corrected, head, rest);
  }

  lemma StepQualifying(bs: seq<Interval>, i: nat, corrected: bool, head: seq<nat>, rest: seq<nat>)
    requires i + 1 < |bs|
    requires head == if GapQualifies(bs, i, corrected) then [i] else []
    requires forall k :: 0 <= k < |rest| ==> i + 1 <= rest[k] && rest[k] + 1 < |bs| && GapQualifies(bs, rest[k], corrected)
    ensures forall k :: 0 <= k < |head + rest| ==>
      i <= (head + rest)[k] && (head + rest)[k] + 1 < |bs| && GapQualifies(bs, (head + rest)[k], corrected)
  {
    var idx := head + rest;
    forall k | 0 <= k < |idx|
      ensures i <= idx[k] && idx[k] + 1 < |bs| && GapQualifies(bs, idx[k], corrected)
    {
      if k >= |head| {
        assert idx[k] == rest[k - |head|];
      }
    }
  }

  lemma StepIncreasing(i: nat, head: seq<nat>, rest: seq<nat>)
    requires head == [] || head == [i]
    requires forall k :: 0 <= k < |rest| ==> i + 1 <= rest[k]
    requires forall k, l :: 0 <= k < l < |rest| ==> rest[k] < rest[l]
    ensures forall k, l :: 0 <= k < l < |head + rest| ==> (head + rest)[k] < (head + rest)[l]
  {
    var idx := head + rest;
    forall k, l | 0 <= k < l < |idx|
      ensures idx[k] < idx[l]
    {
      assert idx[l] == rest[l - |head|];
      if k >= |head| {
        assert idx[k] == rest[k - |head|];
      }
    }
  }

  lemma StepComplete(bs: seq<Interval>, i: nat, corrected: bool, head: seq<nat>, rest: seq<nat>)
    requires i + 1 < |bs|
    requires head == if GapQualifies(bs, i, corrected) then [i] else []
    requires forall j :: i + 1 <= j && j + 1 < |bs| && GapQualifies(bs, j, corrected) ==> j in rest
    ensures forall j :: i <= j && j + 1 < |bs| && GapQualifies(bs, j, corrected) ==> j in head + rest
  {
    forall j | i <= j && j + 1 < |bs| && GapQualifies(bs, j, corrected)
      ensures j in head + rest
    {
      if j > i {
        assert j in rest;
      }
    }
  }

  /** `r` holds exactly the slots of the gaps at positions `idx`, in that
      order. */
  predicate Indexed(bs: seq<Interval>, r: seq<Slot>, idx: seq<nat>, corrected: bool) {
    |r| == |idx| && forall k :: 0 <= k < |r| ==> idx[k] + 1 < |bs| && r[k] == GapSlotAt(bs, idx[k], corrected)
  }

  lemma IndexedAppend(bs: seq<Interval>, r1: seq<Slot>, i1: seq<nat>, r2: seq<Slot>, i2: seq<nat>, corrected: bool)
    requires Indexed(bs, r1, i1, corrected) && Indexed(bs, r2, i2, corrected)
    ensures Indexed(bs, r1 + r2, i1 + i2, corrected)
  {
  }

  /** One step of either gap pass: the slot for the gap after `bs[i]`, if
      it qualifies, followed by the slots from `i + 1` on. */
  lemma GapStep(bs: seq<Interval>, i: nat, corrected: bool, here: seq<Slot>, rest: seq<Slot>)
    requires i + 1 < |bs|
    requires here == if GapQualifies(bs, i, corrected) then [GapSlotAt(bs, i, corrected)] else []
    requires Indexed(bs, rest, GapIndices(bs, i + 1, corrected), corrected)
    ensures Indexed(bs, here + rest, GapIndices(bs, i, corrected), corrected)
  {
    var head := if GapQualifies(bs, i, corrected) then [i] else [];
    assert GapIndices(bs, i, corrected) == head + GapIndices(bs, i + 1, corrected);
    IndexedAppend(bs, here, head, rest, GapIndices(bs, i + 1, corrected), corrected);
  }

  /** The members of a gap pass from `i` on: the slot of every qualifying
      gap, and nothing else. */
  lemma IndexedMembers(bs: seq<Interval>, i: nat, r: seq<Slot>, corrected: bool)
    requires Indexed(bs, r, GapIndices(bs, i, corrected), corrected)
    ensures forall j :: i <= j && j + 1 < |bs| && GapQualifies(bs, j, corrected) ==> GapSlotAt(bs, j, corrected) in r
    ensures forall s :: s in r ==>
      exists j :: i <= j && j + 1 < |bs| && GapQualifies(bs, j, corrected) && s == GapSlotAt(bs, j, corrected)
  {
    var idx := GapIndices(bs, i, corrected);
    forall j | i <= j && j + 1 < |bs| && GapQualifies(bs, j, corrected)
      ensures GapSlotAt(bs, j, corrected) in r
    {
      var k :| 0 <= k < |idx| && idx[k] == j;
      assert r[k] == GapSlotAt(bs, j, corrected);
    }
    forall s | s in r
      ensures exists j :: i <= j && j + 1 < |bs| && GapQualifies(bs, j, corrected) && s == GapSlotAt(bs, j, corrected)
    {
      var k :| 0 <= k < |r| && r[k] == s;
      assert GapQualifies(bs, idx[k], corrected) && s == GapSlotAt(bs, idx[k], corrected);
    }
  }

  /** `r` is laid out as the service lays out its alternatives over the
      bookings `bs` sorted by start: the 08:00 slot when the first booking
      starts at 09:00 or later; then one slot per qualifying gap, in booking
      order; then the slot up to 18:00 when the end it starts from (the last
      booking's as written, the latest end in the corrected generator) is
      before 18:00. Nothing else. */
  predicate Laid(bs: seq<Interval>, r: seq<Slot>, corrected: bool) {
    if |bs| == 0 then r == []
    else
      var lead := if bs[0].start >= Opening + 60 then [Slot(Opening, bs[0].start)] else [];
      var last := if corrected then MaxEnd(bs, |bs|) else bs[|bs| - 1].end;
      var trail := if last < Closing then [Slot(last, Closing)] else [];
      |lead| + |trail| <= |r| &&
      r[..|lead|] == lead &&
      Indexed(bs, r[|lead|..|r| - |trail|], GapIndices(bs, 0, corrected), corrected) &&
      r[|r| - |trail|..] == trail
  }

  lemma LaidParts(bs: seq<Interval>, lead: seq<Slot>, gaps: seq<Slot>, trail: seq<Slot>, corrected: bool)
    requires |bs| > 0
    requires lead == if bs[0].start >= Opening + 60 then [Slot(Opening, bs[0].start)] else []
    requires Indexed(bs, gaps, GapIndices(bs, 0, corrected), corrected)
    requires var last := if corrected then MaxEnd(bs, |bs|) else bs[|bs| - 1].end;
      trail == if last < Closing then [Slot(last, Closing)] else []
    ensures Laid(bs, lead + gaps + trail, corrected)
  {
    var r := lead + gaps + trail;
    assert r[..|lead|] == lead;
    assert r[|lead|..|r| - |trail|] == gaps;
    assert r[|r| - |trail|..] == trail;
  }

  // ---------------------------------------------------------------------
  // As written: gaps measured from the end of the booking just before,
  // trailing slot from the end of the booking that starts last.
  // ---------------------------------------------------------------------

  /** Gap slots between `bs[j]` and `bs[j+1]` for `j >= i`, in order. */
  function GapSlotsAsWritten(bs: seq<Interval>, i: nat): (r: seq<Slot>)
    ensures Indexed(bs, r, GapIndices(bs, i, false), false)
    decreases |bs| - i
  {
    if i + 1 >= |bs| then []
    else
      var here := if bs[i + 1].start - bs[i].end >= MinimumGap then [Slot(bs[i].end, bs[i + 1].start)] else [];
      var rest := GapSlotsAsWritten(bs, i + 1);
      GapStep(bs, i, false, here, rest);
      here + rest
  }

  function TrailingSlotAsWritten(bs: seq<Interval>): (r: seq<Slot>)
    ensures |r| <= 1
    ensures |r| == 1 <==> |bs| > 0 && bs[|bs| - 1].end < Closing
    ensures |r| == 1 ==> r[0] == Slot(bs[|bs| - 1].end, Closing)
  {
    if |bs| > 0 && Hour(bs[|bs| - 1].end) < 18 then [Slot(bs[|bs| - 1].end, Closing)] else []
  }

  /** Which slots the as-written layout can hold, and that the leading and
      trailing ones and every qualifying gap are among them. */
  predicate MembersAsWritten(bs: seq<Interval>, r: seq<Slot>) {
    (|bs| == 0 ==> r == []) &&
    (|bs| > 0 && bs[0].start >= Opening + 60 ==> |r| > 0 && r[0] == Slot(Opening, bs[0].start)) &&
    (|bs| > 0 && bs[|bs| - 1].end < Closing ==> |r| > 0 && r[|r| - 1] == Slot(bs[|bs| - 1].end, Closing)) &&
    (forall j :: 0 <= j && j + 1 < |bs| && bs[j + 1].start - bs[j].end >= MinimumGap ==>
      Slot(bs[j].end, bs[j + 1].start) in r) &&
    (forall s :: s in r ==>
      s == Slot(Opening, bs[0].start) ||
      (exists j :: 0 <= j && j + 1 < |bs| && s == Slot(bs[j].end, bs[j + 1].start)) ||
      s == Slot(bs[|bs| - 1].end, Closing))
  }

  lemma MembersOfPartsAsWritten(bs: seq<Interval>, lead: seq<Slot>, gaps: seq<Slot>, trail: seq<Slot>)
    requires lead == LeadingSlot(bs) && trail == TrailingSlotAsWritten(bs)
    requires Indexed(bs, gaps, GapIndices(bs, 0, false), false)
    ensures MembersAsWritten(bs, lead + gaps + trail)
  {
    var r := lead + gaps + trail;
    IndexedMembers(bs, 0, gaps, false);
    forall j | 0 <= j && j + 1 < |bs| && bs[j + 1].start - bs[j].end >= MinimumGap
      ensures Slot(bs[j].end, bs[j + 1].start) in r
    {
      assert GapSlotAt(bs, j, false) in gaps;
    }
    forall s | s in r
      ensures s == Slot(Opening, bs[0].start) ||
        (exists j :: 0 <= j && j + 1 < |bs| && s == Slot(bs[j].end, bs[j + 1].start)) ||
        s == Slot(bs[|bs| - 1].end, Closing)
    {
      if s in lead {
        assert s == lead[0];
      } else if s in trail {
        assert s == trail[0];
      } else {
        assert s in gaps;
        var j :| 0 <= j && j + 1 < |bs| && GapQualifies(bs, j, false) && s == GapSlotAt(bs, j, false);
      }
    }
  }

  /** The alternatives as the service computes them from the day's bookings
      sorted by start: leading slot, then gaps, then trailing slot. */
  function AlternativesAsWritten(bs: seq<Interval>): (r: seq<Slot>)
    ensures MembersAsWritten(bs, r)
    ensures Laid(bs, r, false)
  {
    var lead := LeadingSlot(bs);
    var gaps := GapSlotsAsWritten(bs, 0);
    var trail := TrailingSlotAsWritten(bs);
    MembersOfPartsAsWritten(bs, lead, gaps, trail);
    assert |bs| > 0 ==> Laid(bs, lead + gaps + trail, false) by {
      if |bs| > 0 { LaidParts(bs, lead, gaps, trail, false); }
    }
    lead + gaps + trail
  }

  /** The suggestion record of the service, as written. */
  function SuggestAsWritten(room: int, date: int, rs: seq<Reservation>): (r: Suggestion)
    ensures r.next == if |r.alternatives| == 0 then None else Some(r.alternatives[0])
    ensures DayBookings(rs, room, date) == [] ==> r.alternatives == []
    ensures Laid(SortByStart(DayBookings(rs, room, date)), r.alternatives, false)
  {
    var alts := AlternativesAsWritten(SortByStart(DayBookings(rs, room, date)));
    Suggestion(if |alts| == 0 then None else Some(alts[0]), alts)
  }

  /** A day where a long booking encloses two short ones: the as-written
      generator offers 11:00-12:00 and 13:00-18:00, both inside the
      09:00-17:00 booking. */
  lemma AsWrittenSuggestsOccupiedSlot(bs: seq<Interval>)
    requires bs == [Interval(540, 1020), Interval(600, 660), Interval(720, 780)]
    ensures SortedByStart(bs)
    ensures Slot(660, 720) in AlternativesAsWritten(bs) && !FreeOf(Slot(660, 720), bs)
    ensures Slot(780, Closing) in AlternativesAsWritten(bs) && !FreeOf(Slot(780, Closing), bs)
  {
    var r := AlternativesAsWritten(bs);
    assert MembersAsWritten(bs, r);
    assert bs[2].start - bs[1].end >= MinimumGap;
    assert Slot(bs[1].end, bs[2].start) in r;
    assert bs[|bs| - 1].end < Closing;
    assert Overlaps(660, 720, bs[0].start, bs[0].end);
    assert Overlaps(780, Closing, bs[0].start, bs[0].end);
  }

  // ---------------------------------------------------------------------
  // Corrected: gaps and the trailing slot start at the latest end seen so
  // far, as the availability sweep of the same service already does.
  // ---------------------------------------------------------------------

  /** Gap slots after `bs[i]`, where `m` is the latest end among `bs[..i+1]`. */
  function GapSlots(bs: seq<Interval>, i: nat, m: int): (r: seq<Slot>)
    requires SortedByStart(bs)
    requires i < |bs| && m == MaxEnd(bs, i + 1)
    ensures Indexed(bs, r, GapIndices(bs, i, true), true)
    ensures forall s :: s in r ==> s.to - s.from >= MinimumGap && FreeOf(s, bs)
    decreases |bs| - i
  {
    if i + 1 >= |bs| then []
    else
      var next := bs[i + 1].start;
      var here := if next - m >= MinimumGap then [Slot(m, next)] else [];
      var rest := GapSlots(bs, i + 1, Max(m, bs[i + 1].end));
      GapStep(bs, i, true, here, rest);
      IndexedFree(bs, i, here + rest);
      here + rest
  }

  /** Every corrected gap slot lasts an hour and overlaps no booking. */
  lemma IndexedFree(bs: seq<Interval>, i: nat, r: seq<Slot>)
    requires SortedByStart(bs)
    requires Indexed(bs, r, GapIndices(bs, i, true), true)
    ensures forall s :: s in r ==> s.to - s.from >= MinimumGap && FreeOf(s, bs)
  {
    var idx := GapIndices(bs, i, true);
    forall s | s in r
      ensures s.to - s.from >= MinimumGap && FreeOf(s, bs)
    {
      var k :| 0 <= k < |r| && r[k] == s;
      GapSlotFree(bs, idx[k], MaxEnd(bs, idx[k] + 1));
    }
  }

  /** The corrected gap after `bs[i]` overlaps no booking: the bookings up
      to `i` end by `m`, the later ones start at `bs[i+1].start` or after. */
  lemma GapSlotFree(bs: seq<Interval>, i: nat, m: int)
    requires SortedByStart(bs)
    requires i + 1 < |bs| && m == MaxEnd(bs, i + 1)
    requires bs[i + 1].start - m >= MinimumGap
    ensures FreeOf(Slot(m, bs[i + 1].start), bs)
  {
    forall k | 0 <= k < |bs|
      ensures !Overlaps(m, bs[i + 1].start, bs[k].start, bs[k].end)
    {
      if k > i { assert bs[i + 1].start <= bs[k].start; }
    }
  }

  function TrailingSlot(bs: seq<Interval>): (r: seq<Slot>)
    ensures |r| <= 1
    ensures |r| == 1 <==> |bs| > 0 && MaxEnd(bs, |bs|) < Closing
    ensures |r| == 1 ==> r[0] == Slot(MaxEnd(bs, |bs|), Closing) && FreeOf(r[0], bs)
  {
    if |bs| > 0 && Hour(MaxEnd(bs, |bs|)) < 18 then [Slot(MaxEnd(bs, |bs|), Closing)] else []
  }

  /** Alternatives from the day's bookings sorted by start: leading slot,
      gap slots, trailing slot, each a non-empty window free of every
      booking of the day. */
  function Alternatives(bs: seq<Interval>): (r: seq<Slot>)
    requires SortedByStart(bs)
    ensures |bs| == 0 ==> r == []
    ensures |bs| > 0 && bs[0].start >= Opening + 60 ==> |r| > 0 && r[0] == Slot(Opening, bs[0].start)
    ensures forall s :: s in r ==> FreeOf(s, bs)
    ensures Laid(bs, r, true)
  {
    if |bs| == 0 then []
    else
      var lead := LeadingSlot(bs);
      var gaps := GapSlots(bs, 0, bs[0].end);
      var trail := TrailingSlot(bs);
      PartsFree(bs, lead, gaps, trail);
      LaidParts(bs, lead, gaps, trail, true);
      lead + gaps + trail
  }

  lemma PartsFree(bs: seq<Interval>, lead: seq<Slot>, gaps: seq<Slot>, trail: seq<Slot>)
    requires SortedByStart(bs)
    requires lead == LeadingSlot(bs)
    requires forall s :: s in gaps ==> FreeOf(s, bs)
    requires forall s :: s in trail ==> FreeOf(s, bs)
    ensures forall s :: s in lead + gaps + trail ==> FreeOf(s, bs)
  {
    if |lead| == 1 {
      forall k | 0 <= k < |bs|
        ensures !Overlaps(Opening, bs[0].start, bs[k].start, bs[k].end)
      {
        assert bs[0].start <= bs[k].start;
      }
      assert FreeOf(lead[0], bs);
    }
  }

  /** `generarSugerenciasHorario` with the corrected gap rule: every
      alternative is a non-empty window in which the room has no booking
      that day, the first alternative is the next available slot, and a day
      without bookings gives no alternatives. */
  function Suggest(room: int, date: int, rs: seq<Reservation>): (r: Suggestion)
    ensures r.next == if |r.alternatives| == 0 then None else Some(r.alternatives[0])
    ensures DayBookings(rs, room, date) == [] ==> r.alternatives == []
    ensures forall s, i :: s in r.alternatives && 0 <= i < |rs| && rs[i].room == room && rs[i].date == date ==>
      s.from < s.to && !Overlaps(s.from, s.to, rs[i].start, rs[i].end)
    ensures Laid(SortByStart(DayBookings(rs, room, date)), r.alternatives, true)
  {
    var day := DayBookings(rs, room, date);
    var bs := SortByStart(day);
    var alts := Alternatives(bs);
    assert forall s, i :: s in alts && 0 <= i < |rs| && rs[i].room == room && rs[i].date == date ==>
      s.from < s.to && !Overlaps(s.from, s.to, rs[i].start, rs[i].end) by {
      forall s, i | s in alts && 0 <= i < |rs| && rs[i].room == room && rs[i].date == date
        ensures s.from < s.to && !Overlaps(s.from, s.to, rs[i].start, rs[i].end)
      {
        assert Window(rs[i]) in day;
        assert Window(rs[i]) in multiset(bs);
        var k :| 0 <= k < |bs| && bs[k] == Window(rs[i]);
        assert FreeOf(s, bs);
      }
    }
    Suggestion(if |alts| == 0 then None else Some(alts[0]), alts)
  }

  /** With an inverted window among bookings that start together, the order
      of the tie decides which gap slots the corrected generator offers. */
  lemma TieOrderMatters(a: seq<Interval>, b: seq<Interval>)
    requires a == [Interval(300, 400), Interval(600, 500), Interval(600, 900)]
    requires b == [Interval(300, 400), Interval(600, 900), Interval(600, 500)]
    ensures SortedByStart(a) && SortedByStart(b) && multiset(a) == multiset(b)
    ensures GapSlots(a, 0, a[0].end) == [Slot(400, 600), Slot(500, 600)]
    ensures GapSlots(b, 0, b[0].end) == [Slot(400, 600)]
  {
    InvertedFirst(a);
    InvertedLast(b);
  }

  lemma InvertedFirst(a: seq<Interval>)
    requires a == [Interval(300, 400), Interval(600, 500), Interval(600, 900)]
    ensures SortedByStart(a)
    ensures GapSlots(a, 0, a[0].end) == [Slot(400, 600), Slot(500, 600)]
  {
    var r := GapSlots(a, 0, a[0].end);
    InvertedFirstGaps(a);
    assert r == [r[0], r[1]];
  }

  lemma InvertedFirstGaps(a: seq<Interval>)
    requires a == [Interval(300, 400), Interval(600, 500), Interval(600, 900)]
    ensures GapIndices(a, 0, true) == [0, 1]
    ensures GapSlotAt(a, 0, true) == Slot(400, 600) && GapSlotAt(a, 1, true) == Slot(500, 600)
  {
    assert MaxEnd(a, 2) == 500;
    assert GapIndices(a, 2, true) == [];
    assert GapIndices(a, 1, true) == [1];
  }

  lemma InvertedLast(b: seq<Interval>)
    requires b == [Interval(300, 400), Interval(600, 900), Interval(600, 500)]
    ensures SortedByStart(b)
    ensures GapSlots(b, 0, b[0].end) == [Slot(400, 600)]
  {
    var r := GapSlots(b, 0, b[0].end);
    assert GapIndices(b, 0, true) == [0] by {
      assert GapIndices(b, 2, true) == [];
      assert !GapQualifies(b, 1, true) by { assert MaxEnd(b, 2) == 900; }
      assert GapIndices(b, 1, true) == [];
      assert GapQualifies(b, 0, true);
    }
    assert GapSlotAt(b, 0, true) == Slot(400, 600);
    assert r == [r[0]];
  }

  /** When no booking of the day ends after a later-starting one (as when
      the day's bookings do not overlap each other), the corrected generator
      and the one as written give the same alternatives. */
  lemma {:induction false} AgreeWhenEndsOrdered(bs: seq<Interval>)
    requires SortedByStart(bs)
    requires EndsOrdered(bs)
    ensures Alternatives(bs) == AlternativesAsWritten(bs)
  {
    if |bs| > 0 {
      assert GapSlots(bs, 0, bs[0].end) == GapSlotsAsWritten(bs, 0) by {
        GapsAgree(bs, 0);
      }
      assert TrailingSlot(bs) == TrailingSlotAsWritten(bs) by {
        MaxEndIsLast(bs, |bs|);
      }
      assert Alternatives(bs) == LeadingSlot(bs) + GapSlots(bs, 0, bs[0].end) + TrailingSlot(bs);
      assert AlternativesAsWritten(bs) == LeadingSlot(bs) + GapSlotsAsWritten(bs, 0) + TrailingSlotAsWritten(bs);
    }
  }

  /** No booking ends after a later-starting one. */
  predicate EndsOrdered(bs: seq<Interval>) {
    forall i, j :: 0 <= i < j < |bs| ==> bs[i].end <= bs[j].end
  }

  /** When the day's bookings, sorted by start, have ordered ends, both
      versions of the generator give the same suggestion record. */
  lemma SuggestAgreesWhenEndsOrdered(room: int, date: int, rs: seq<Reservation>)
    requires EndsOrdered(SortByStart(DayBookings(rs, room, date)))
    ensures SuggestAsWritten(room, date, rs) == Suggest(room, date, rs)
  {
    var bs := SortByStart(DayBookings(rs, room, date));
    AgreeWhenEndsOrdered(bs);
    assert SuggestAsWritten(room, date, rs).alternatives == AlternativesAsWritten(bs);
    assert Suggest(room, date, rs).alternatives == Alternatives(bs);
  }

  lemma {:induction false} MaxEndIsLast(bs: seq<Interval>, n: nat)
    requires 0 < n <= |bs|
    requires EndsOrdered(bs)
    ensures MaxEnd(bs, n) == bs[n - 1].end
  {
    if n > 1 {
      MaxEndIsLast(bs, n - 1);
    }
  }

  lemma {:induction false} GapsAgree(bs: seq<Interval>, i: nat)
    requires SortedByStart(bs)
    requires EndsOrdered(bs)
    requires i < |bs|
    ensures MaxEnd(bs, i + 1) == bs[i].end
    ensures GapSlots(bs, i, bs[i].end) == GapSlotsAsWritten(bs, i)
    decreases |bs| - i
  {
    MaxEndIsLast(bs, i + 1);
    if i + 1 < |bs| {
      GapsAgree(bs, i + 1);
    }
  }
}
