/** `CreateReservacioneDto`: the field constraints its class-validator
    decorators declare on a reservation request. A request body is a record of
    JSON values; each field has its own rule, and a request is accepted when
    no field fails. */
module ReservationRequest {

  /** A JSON value as the validators see it. `Missing` is an absent
      property (`undefined`); numbers are reals so that non-integers exist. */
  datatype Value = Missing | Null | Num(x: real) | Str(s: string) | Bool(b: bool)

  /** `TIPOS_EVENTO`. */
  const EventTypes: seq<string> :=
    ["Reunion", "Videoconferencia", "Presentacion", "Capacitacion", "Conferencia", "Otro"]

  // -----------------------------------------------------------------------
  // The class-validator rules used by the request.
  // -----------------------------------------------------------------------

  /** `@IsInt()`: a number with no fractional part. */
  predicate IsInt(v: Value) {
    v.Num? && v.x.Floor as real == v.x
  }

  /** `@IsString()`. */
  predicate IsString(v: Value) {
    v.Str?
  }

  /** `@IsIn(values)`: strictly equal to one of the values. */
  predicate IsIn(v: Value, values: seq<string>) {
    v.Str? && v.s in values
  }

  /** `@Min(bound)`: a number no smaller than the bound. */
  predicate AtLeast(v: Value, bound: real) {
    v.Num? && v.x >= bound
  }

  predicate IsDigit(c: char) {
    '0' <= c <= '9'
  }

  /** `@Matches(/^([01]\d|2[0-3]):([0-5]\d)$/)`, read character by
      character: two hour digits `00`-`19` or `20`-`23`, a colon, two minute
      digits `00`-`59`, and nothing else. */
  predicate IsClockTime(s: string) {
    |s| == 5 &&
    (((s[0] == '0' || s[0] == '1') && IsDigit(s[1])) || (s[0] == '2' && '0' <= s[1] <= '3')) &&
    s[2] == ':' &&
    '0' <= s[3] <= '5' && IsDigit(s[4])
  }

  /** `@Matches(...)` on an arbitrary value: only strings can match. */
  predicate MatchesClock(v: Value) {
    v.Str? && IsClockTime(v.s)
  }

  // -----------------------------------------------------------------------
  // What an accepted `HH:mm` string denotes.
  // -----------------------------------------------------------------------

  function DigitValue(c: char): int {
    c as int - '0' as int
  }

  function DigitChar(d: int): char
    requires 0 <= d <= 9
  {
    ('0' as int + d) as char
  }

  /** The minutes since midnight an `HH:mm` string denotes: an hour in
      0..23 and a minute in 0..59, so less than a day. */
  function ClockMinutes(s: string): (m: int)
    requires IsClockTime(s)
    ensures 0 <= m < 24 * 60
    ensures m / 60 == DigitValue(s[0]) * 10 + DigitValue(s[1]) <= 23
    ensures m % 60 == DigitValue(s[3]) * 10 + DigitValue(s[4]) <= 59
  {
    var h := DigitValue(s[0]) * 10 + DigitValue(s[1]);
    var mi := DigitValue(s[3]) * 10 + DigitValue(s[4]);
    h * 60 + mi
  }

  /** The zero-padded `HH:mm` spelling of a time of day. */
  function Format(m: int): string
    requires 0 <= m < 24 * 60
  {
    var h := m / 60;
    var mi := m % 60;
    [DigitChar(h / 10), DigitChar(h % 10), ':', DigitChar(mi / 10), DigitChar(mi % 10)]
  }

  /** Every time of day has a spelling the pattern accepts, and reading it
      back gives the same time. */
  lemma FormatAccepted(m: int)
    requires 0 <= m < 24 * 60
    ensures IsClockTime(Format(m))
    ensures ClockMinutes(Format(m)) == m
  {
    var s := Format(m);
    var h := m / 60;
    var mi := m % 60;
    assert h <= 23 && mi <= 59;
    assert DigitValue(s[0]) == h / 10 && DigitValue(s[1]) == h % 10;
    assert DigitValue(s[3]) == mi / 10 && DigitValue(s[4]) == mi % 10;
    assert DigitValue(s[0]) * 10 + DigitValue(s[1]) == h;
    assert DigitValue(s[3]) * 10 + DigitValue(s[4]) == mi;
  }

  /** Every accepted string is the spelling of the time it denotes: the
      pattern admits exactly one string per time of day. */
  lemma AcceptedIsFormatted(s: string)
    requires IsClockTime(s)
    ensures Format(ClockMinutes(s)) == s
  {
    var m := ClockMinutes(s);
    var h := DigitValue(s[0]) * 10 + DigitValue(s[1]);
    var mi := DigitValue(s[3]) * 10 + DigitValue(s[4]);
    assert m / 60 == h && m % 60 == mi;
    assert h / 10 == DigitValue(s[0]) && h % 10 == DigitValue(s[1]);
    assert mi / 10 == DigitValue(s[3]) && mi % 10 == DigitValue(s[4]);
    var f := Format(m);
    assert f[0] == s[0] && f[1] == s[1] && f[2] == s[2] && f[3] == s[3] && f[4] == s[4];
  }

  // -----------------------------------------------------------------------
  // The request and its fields.
  // -----------------------------------------------------------------------

  datatype Request = Request(
    number: Value,         // numeroReservacion
    user: Value,           // idUsuario
    technician: Value,     // idTecnicoAsignado
    eventName: Value,      // nombreEvento
    room: Value,           // idSala
    eventType: Value,      // tipoEvento
    date: Value,           // fechaEvento
    startTime: Value,      // horaInicio
    endTime: Value,        // horaFin
    attendees: Value,      // asistentes
    notes: Value           // observaciones
  )

  datatype Field =
    | Number | User | Technician | EventName | Room | EventType
    | Date | StartTime | EndTime | Attendees | Notes

  /** The fields in declaration order. */
  const Fields: seq<Field> :=
    [Number, User, Technician, EventName, Room, EventType, Date, StartTime, EndTime, Attendees, Notes]

  /** `@IsDateString()` is an ISO 8601 recognizer from the validator
      library; the rules take it as a parameter. */
  type DateRecognizer = string -> bool

  /** `tipoEvento` as declared: `@IsInt()`, `@IsString()` and `@IsIn(...)`
      all at once. */
  predicate EventTypeAsWritten(v: Value) {
    IsInt(v) && IsString(v) && IsIn(v, EventTypes)
  }

  /** `tipoEvento` as the comment on `TIPOS_EVENTO` intends: one of the six
      event-type strings. */
  predicate EventTypeOk(v: Value) {
    IsString(v) && IsIn(v, EventTypes)
  }

  /** Whether field `f` of `req` passes its decorators, with the given rule
      for `tipoEvento`. `@IsOptional()` on `observaciones` skips its rules
      for `null` and an absent property. */
  predicate FieldOkWith(req: Request, f: Field, isDate: DateRecognizer, eventType: Value -> bool) {
    match f
    case Number => IsString(req.number)
    case User => IsInt(req.user)
    case Technician => IsInt(req.technician)
    case EventName => IsString(req.eventName)
    case Room => IsInt(req.room)
    case EventType => eventType(req.eventType)
    case Date => req.date.Str? && isDate(req.date.s)
    case StartTime => IsString(req.startTime) && MatchesClock(req.startTime)
    case EndTime => IsString(req.endTime) && MatchesClock(req.endTime)
    case Attendees => IsInt(req.attendees) && AtLeast(req.attendees, 0.0)
    case Notes => req.notes.Missing? || req.notes.Null? || IsString(req.notes)
  }

  lemma EveryFieldListed(f: Field)
    ensures f in Fields
  {
  }

  /** The fields of `req` that fail their rule. */
  function FailingFields(req: Request, isDate: DateRecognizer, eventType: Value -> bool): (r: set<Field>)
    ensures forall f :: f in r <==> !FieldOkWith(req, f, isDate, eventType)
  {
    forall f: Field ensures f in Fields { EveryFieldListed(f); }
    set f | f in Fields && !FieldOkWith(req, f, isDate, eventType)
  }

  /** The validation errors of the request as declared. Because `tipoEvento`
      must be a number and a string at once, every request is rejected. */
  function ValidateAsWritten(req: Request, isDate: DateRecognizer): (r: set<Field>)
    ensures EventType in r
  {
    FailingFields(req, isDate, EventTypeAsWritten)
  }

  /** The validation errors of the request with the intended `tipoEvento`
      rule: a field is listed exactly when it fails its rule. */
  function Validate(req: Request, isDate: DateRecognizer): (r: set<Field>)
    ensures forall f :: f in r <==> !FieldOkWith(req, f, isDate, EventTypeOk)
  {
    FailingFields(req, isDate, EventTypeOk)
  }

  /** No value is both a number and a string, so the declared `tipoEvento`
      rule rejects even the listed event types. */
  lemma EventTypeAsWrittenRejectsAll(v: Value)
    ensures !EventTypeAsWritten(v)
    ensures v == Str("Reunion") ==> EventTypeOk(v)
  {
    if v == Str("Reunion") {
      assert v.s == EventTypes[0];
    }
  }

  /** What an accepted request guarantees about its fields. */
  lemma AcceptedRequest(req: Request, isDate: DateRecognizer)
    requires Validate(req, isDate) == {}
    ensures req.eventType.Str? && req.eventType.s in EventTypes
    ensures req.startTime.Str? && IsClockTime(req.startTime.s) && ClockMinutes(req.startTime.s) < 24 * 60
    ensures req.endTime.Str? && IsClockTime(req.endTime.s) && ClockMinutes(req.endTime.s) < 24 * 60
    ensures req.attendees.Num? && req.attendees.x >= 0.0 && req.attendees.x.Floor as real == req.attendees.x
    ensures req.notes.Missing? || req.notes.Null? || req.notes.Str?
  {
    assert EventType !in Validate(req, isDate);
    assert StartTime !in Validate(req, isDate);
    assert EndTime !in Validate(req, isDate);
    assert Attendees !in Validate(req, isDate);
    assert Notes !in Validate(req, isDate);
  }

  /** `observaciones` is optional: leaving it out, sending `null` or sending
      a string are all accepted, and any other value is not. */
  lemma NotesOptional(req: Request, isDate: DateRecognizer)
    ensures Notes !in Validate(req, isDate) <==> (req.notes.Missing? || req.notes.Null? || req.notes.Str?)
  {
  }

  /** `asistentes` accepts exactly the non-negative integers. */
  lemma AttendeesRule(req: Request, isDate: DateRecognizer)
    ensures Attendees !in Validate(req, isDate) <==>
      (req.attendees.Num? && req.attendees.x >= 0.0 && req.attendees.x.Floor as real == req.attendees.x)
    ensures req.attendees == Num(-1.0) ==> Attendees in Validate(req, isDate)
    ensures req.attendees == Num(2.5) ==> Attendees in Validate(req, isDate)
  {
    if req.attendees == Num(2.5) {
      assert (2.5).Floor == 2;
    }
  }

  /** Nothing relates `horaInicio` to `horaFin`: a request whose window ends
      before it starts is accepted. */
  lemma InvertedWindowAccepted()
    ensures var req := Request(Str("RES-1"), Num(1.0), Num(2.0), Str("Seminario"), Num(3.0),
                               Str("Otro"), Str("2025-06-05"), Str("11:30"), Str("09:00"),
                               Num(10.0), Missing);
            Validate(req, (d: string) => true) == {} &&
            ClockMinutes(req.endTime.s) < ClockMinutes(req.startTime.s)
  {
    var req := Request(Str("RES-1"), Num(1.0), Num(2.0), Str("Seminario"), Num(3.0),
                       Str("Otro"), Str("2025-06-05"), Str("11:30"), Str("09:00"),
                       Num(10.0), Missing);
    var isDate := (d: string) => true;
    assert req.eventType.s == EventTypes[5];
    assert IsClockTime(req.startTime.s) && IsClockTime(req.endTime.s);
    forall f: Field
      ensures FieldOkWith(req, f, isDate, EventTypeOk)
    {
      match f
      case Date => assert isDate(req.date.s);
      case _ =>
    }
    var r := Validate(req, isDate);
    assert forall f :: f !in r;
  }
}
