/** `agregarParticipante`: adds an additional participant to a reservation.
    The reservation must exist (NotFound otherwise) and the email must not
    already be registered for that reservation (Conflict otherwise); the
    checks run in that order and a rejected request stores nothing. */
module Participants {
  import opened Common

  /** A stored row of `partcipantesAdicionales`. */
  datatype Participant = Participant(id: int, reservation: int, name: string, email: string)

  /** `CreateParticipantesAdDto`: a participant without its id. */
  datatype NewParticipant = NewParticipant(reservation: int, name: string, email: string)

  /** The ids of the existing reservations, the participants table, and the
      id the table's autoincrement hands out next. */
  datatype ParticipantStore = ParticipantStore(reservations: set<int>, participants: seq<Participant>, nextId: int)

  datatype AddOutcome = AddOutcome(store: ParticipantStore, result: Result<Participant>)

  /** Some participant of `reservation` has exactly this email. */
  predicate Registered(ps: seq<Participant>, reservation: int, email: string) {
    exists i :: 0 <= i < |ps| && ps[i].reservation == reservation && ps[i].email == email
  }

  /** `findFirst({ where: { idReservacion, email } })`, from position `i`. */
  function FindRegistered(ps: seq<Participant>, reservation: int, email: string, i: nat): (k: Option<nat>)
    requires i <= |ps|
    ensures k.Some? ==> i <= k.value < |ps| && ps[k.value].reservation == reservation && ps[k.value].email == email
    ensures k.None? <==> forall j :: i <= j < |ps| ==> !(ps[j].reservation == reservation && ps[j].email == email)
    decreases |ps| - i
  {
    if i == |ps| then None
    else if ps[i].reservation == reservation && ps[i].email == email then Some(i)
    else FindRegistered(ps, reservation, email, i + 1)
  }

  /** No two participants of one reservation share an email. */
  predicate PairsUnique(ps: seq<Participant>) {
    forall i, j :: 0 <= i < j < |ps| && ps[i].reservation == ps[j].reservation ==> ps[i].email != ps[j].email
  }

  /** Every id handed out so far lies below the next one, so ids are fresh. */
  predicate IdsBelow(ps: seq<Participant>, next: int) {
    forall i :: 0 <= i < |ps| ==> ps[i].id < next
  }

  /** No two participants share an id. */
  predicate IdsUnique(ps: seq<Participant>) {
    forall i, j :: 0 <= i < j < |ps| ==> ps[i].id != ps[j].id
  }

  /** Every participant belongs to an existing reservation. */
  predicate Attached(reservations: set<int>, ps: seq<Participant>) {
    forall i :: 0 <= i < |ps| ==> ps[i].reservation in reservations
  }

  predicate Valid(s: ParticipantStore) {
    PairsUnique(s.participants) && IdsUnique(s.participants) &&
    IdsBelow(s.participants, s.nextId) && Attached(s.reservations, s.participants)
  }

  /** `agregarParticipante`. Missing reservation: NotFound, checked first.
      Email already registered for the reservation: Conflict. Otherwise
      exactly one participant carrying the request's fields and a fresh id is
      appended, and nothing else changes. Every failure leaves the store as
      it was, and a valid store stays valid. */
  function AddParticipant(s: ParticipantStore, p: NewParticipant): (r: AddOutcome)
    ensures p.reservation !in s.reservations ==> r.result == Failure(NotFound)
    ensures p.reservation in s.reservations && Registered(s.participants, p.reservation, p.email) ==>
      r.result == Failure(Conflict)
    ensures r.result.Success? <==>
      p.reservation in s.reservations && !Registered(s.participants, p.reservation, p.email)
    ensures r.result.Failure? ==> r.store == s
    ensures r.result.Success? ==>
      r.result.value.reservation == p.reservation && r.result.value.name == p.name &&
      r.result.value.email == p.email &&
      (IdsBelow(s.participants, s.nextId) ==>
        forall i :: 0 <= i < |s.participants| ==> s.participants[i].id != r.result.value.id) &&
      r.store.reservations == s.reservations &&
      r.store.participants == s.participants + [r.result.value]
    ensures Valid(s) ==> Valid(r.store)
  {
    if p.reservation !in s.reservations then AddOutcome(s, Failure(NotFound))
    else if FindRegistered(s.participants, p.reservation, p.email, 0).Some? then AddOutcome(s, Failure(Conflict))
    else
      var added := Participant(s.nextId, p.reservation, p.name, p.email);
      var ps := s.participants + [added];
      assert ps[|s.participants|] == added;
      AddOutcome(ParticipantStore(s.reservations, ps, s.nextId + 1), Success(added))
  }

  /** Adding the same request twice: the second attempt is a Conflict and
      stores nothing. */
  lemma AddTwiceConflicts(s: ParticipantStore, p: NewParticipant)
    requires AddParticipant(s, p).result.Success?
    ensures AddParticipant(AddParticipant(s, p).store, p) ==
      AddOutcome(AddParticipant(s, p).store, Failure(Conflict))
  {
    var r := AddParticipant(s, p);
    var added := r.result.value;
    assert r.store.participants[|s.participants|] == added;
  }

  /** Adding a sequence of requests one after the other, collecting the
      results. */
  function AddAll(s: ParticipantStore, ps: seq<NewParticipant>): (r: (ParticipantStore, seq<Result<Participant>>))
    ensures |r.1| == |ps|
    decreases |ps|
  {
    if ps == [] then (s, [])
    else
      var first := AddParticipant(s, ps[0]);
      var rest := AddAll(first.store, ps[1..]);
      (rest.0, [first.result] + rest.1)
  }

  /** Any sequence of additions keeps a valid store valid: `(reservation,
      email)` pairs and ids stay unique. The reservations are untouched and
      the participants stored before stay in place. */
  lemma {:induction false} AddAllKeepsValid(s: ParticipantStore, ps: seq<NewParticipant>)
    requires Valid(s)
    ensures Valid(AddAll(s, ps).0)
    ensures |AddAll(s, ps).0.participants| >= |s.participants|
    ensures AddAll(s, ps).0.participants[..|s.participants|] == s.participants
    ensures AddAll(s, ps).0.reservations == s.reservations
    decreases |ps|
  {
    if ps != [] {
      var first := AddParticipant(s, ps[0]);
      AddAllKeepsValid(first.store, ps[1..]);
      var fin := AddAll(first.store, ps[1..]).0;
      assert fin.participants[..|first.store.participants|][..|s.participants|] == fin.participants[..|s.participants|];
    }
  }
}
