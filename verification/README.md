# Room reservations at CICESE — a Dafny model of the scheduling core

This project models the logic of the CICESE room-reservation backend that
sits on top of its database reads. It covers:

- the room-schedule rules of the rooms service (`salas.service.ts`):
  - the strict overlap test and conflict detection for a requested booking;
  - the free-room filter for a time window;
  - the "is there a free hour between 08:00 and 18:00" sweep;
  - the alternative-slot suggester;
  - the nine-item equipment inventory and its allow-listed update;
- adding an additional participant to a reservation (`participantes-ad.service.ts`);
- the field rules of the reservation request (`create-reservacione.dto.ts`).

Each database read is an in-memory sequence passed in. Each write returns the
new tables. Times of day are integer minutes since midnight (08:00 is 480),
and calendar dates are integers.

Modules:

| module | file | what it holds |
|---|---|---|
| `Common` | common.dfy | `Option`, `Result`, error kinds (NotFound, Conflict, BadRequest), `Max`/`Min` |
| `Text` | text.dfy | lower-casing, accent stripping (`normalizar`), substring containment |
| `Bookings` | bookings.dfy | rooms, reservations, the overlap test, sorting by start, a room's bookings on a day |
| `Suggestions` | suggestions.dfy | `generarSugerenciasHorario`, as written and corrected |
| `Conflicts` | conflicts.dfy | `validarDisponibilidadSala`, the filter of `ObtenerSalasDisponiblesPorHora` |
| `FreeHour` | freehour.dfy | `consultarDisponibilidadSala`, as written and corrected |
| `Inventory` | inventory.dfy | `obtenerInventarioSala` |
| `InventoryUpdate` | inventory_update.dfy | `actualizarInventarioSala` |
| `Participants` | participants.dfy | `agregarParticipante` |
| `ReservationRequest` | reservation_request.dfy | `CreateReservacioneDto` and its validators |

## Model

| member | source | states |
|---|---|---|
| Bookings.OverlapMeansSharedMinute | src/salas/salas.service.ts:217-224 | For non-empty windows, the strict test `s1 < e2 && e1 > s2` holds exactly when the windows share a minute. The test is symmetric, and windows that only touch do not conflict. |
| Bookings.InvertedWindowOverlaps | src/salas/salas.service.ts:217-224 | The test does not check that a window is well formed. An inverted window (end before start) can "overlap" a window with which it shares no minute. |
| Bookings.SortByStart | src/salas/salas.service.ts:249 | The bookings come out ordered by start time, as a permutation of the input. |
| Bookings.DayBookings | src/salas/salas.service.ts:497-503 | A window is among a room's bookings on a day exactly when some reservation has that room, that date and that window, and there are no more bookings than reservations. |
| Bookings.DayBookingsAppend | src/salas/salas.service.ts:497-503 | The day's bookings of two lists joined are the bookings of the first followed by those of the second, so the filter keeps input order. |
| Bookings.DayBookingsOne | src/salas/salas.service.ts:497-503 | A single reservation contributes its window exactly once when it has the room and date, and nothing otherwise. With `DayBookingsAppend` this fixes order and multiplicity. |
| Conflicts.Verdict | src/salas/salas.service.ts:179-211 | A conflict is reported exactly when some reservation has the same room and date and overlaps the request. The details are those of the first such reservation in input order, and the given suggestions are attached. |
| Conflicts.ValidateAvailabilityAsWritten | src/salas/salas.service.ts:179-211 | As written: the conflict verdict and details above, with the suggestions of `generarSugerenciasHorario` as written (`SuggestAsWritten`) attached. |
| Conflicts.ValidateAvailability | src/salas/salas.service.ts:179-211 | Corrected: the same verdict and details, with the corrected suggestions (`Suggest`) attached, which never overlap a booking of the day. |
| Conflicts.AsWrittenDiffersOnlyInSuggestions | src/salas/salas.service.ts:179-211 | Both versions report a conflict for the same requests, with the same details. When the day's bookings, sorted by start, also have ordered ends, the two answers are equal. |
| Conflicts.FirstClash | src/salas/salas.service.ts:179-193 | Finds the first clashing reservation at or after a position, or reports that none clashes. |
| Conflicts.StatusNotConsulted | src/salas/salas.service.ts:179-211 | Two reservation lists that differ only in status give the same answer. Cancelled and rejected bookings still conflict. |
| Conflicts.DayBookingsIgnoreStatus | src/salas/salas.service.ts:497-503 | A room's bookings on a day do not depend on reservation status. |
| Conflicts.OccupiedRooms | src/salas/salas.service.ts:50-70 | A room id counts as occupied exactly when a reservation that day has that id, is in the selection (when there is one), and overlaps the window. |
| Conflicts.RoomsWhere | src/salas/salas.service.ts:72-81 | Rooms are kept exactly when they are in the selection (or nothing is selected) and are not occupied. |
| Conflicts.AvailableRooms | src/salas/salas.service.ts:37-86 | A room is returned exactly when it is selected (or nothing is selected) and no same-day reservation for it overlaps the window. |
| FreeHour.PrevEndBounds | src/salas/salas.service.ts:252-260 | The running previous end starts at 08:00, never decreases, and is at least the end of every booking already visited. |
| FreeHour.SweepAsWritten | src/salas/salas.service.ts:251-264 | The loop with its early exit reports availability exactly when some booking starts an hour after the running end, or the running end is an hour before 18:00. |
| FreeHour.AsWrittenIgnoresClosing | src/salas/salas.service.ts:254-264 | A room booked 08:00-20:00 and again at 21:30 has no free hour in the working day, yet the sweep as written reports it available. |
| FreeHour.Sweep | src/salas/salas.service.ts:251-264 | The corrected loop, which caps each booking's start at 18:00, computes the corrected sweep predicate. |
| FreeHour.AgreeBeforeClosing | src/salas/salas.service.ts:254-264 | When no booking starts after 18:00, the corrected sweep and the sweep as written agree. |
| FreeHour.SweepSound | src/salas/salas.service.ts:242-264 | On bookings sorted by start, a positive corrected sweep means some hour between 08:00 and 18:00 overlaps no booking. |
| FreeHour.SweepComplete | src/salas/salas.service.ts:254-264 | If a free hour starts at or after the running end, the corrected sweep finds a free hour. |
| FreeHour.SweepIsExact | src/salas/salas.service.ts:242-264 | On sorted bookings, the corrected sweep is positive exactly when the day has a free hour between 08:00 and 18:00. |
| FreeHour.SameMembersSameFreeHours | src/salas/salas.service.ts:243-249 | Whether a free hour exists does not depend on the order of the bookings. |
| FreeHour.DayAvailabilityAsWritten | src/salas/salas.service.ts:226-275 | As written: one entry per room, in room order, with the room's id, name and location. A room is available exactly when the loop at lines 251-264 finds an hour in its bookings that day sorted by start. When no booking starts after 18:00, that is exactly when an hour between 08:00 and 18:00 is free. |
| FreeHour.AsWrittenAgreesByClosing | src/salas/salas.service.ts:242-264 | When every booking of the room that day starts by 18:00, the sweep as written is exact: it is positive exactly when an hour between 08:00 and 18:00 is free. |
| FreeHour.DayAvailability | src/salas/salas.service.ts:226-275 | Corrected (starts capped at 18:00): one entry per room, in room order, with the room's id, name and location. A room is available exactly when its bookings that day leave an hour free between 08:00 and 18:00. |
| Suggestions.LeadingSlot | src/salas/salas.service.ts:507-515 | An 08:00 slot up to the first booking is offered exactly when that booking starts at 09:00 or later. |
| Suggestions.MaxEnd | src/salas/salas.service.ts:518-530 | The latest end among the first bookings is one of their ends, and no end exceeds it. |
| Suggestions.GapIndices | src/salas/salas.service.ts:518-530 | The positions whose gap to the next booking lasts at least an hour: each qualifies, they increase strictly, and every qualifying position is listed. |
| Suggestions.GapSlotsAsWritten | src/salas/salas.service.ts:518-530 | As written: one slot per qualifying position, in position order, running from the current booking's end to the next booking's start, and nothing else. |
| Suggestions.IndexedMembers | src/salas/salas.service.ts:518-530 | A gap pass holds the slot of every qualifying gap, and each slot it holds is such a slot. |
| Suggestions.TrailingSlotAsWritten | src/salas/salas.service.ts:532-540 | As written: the slot from the end of the last booking by start to 18:00, offered exactly when that end is before 18:00. |
| Suggestions.AlternativesAsWritten | src/salas/salas.service.ts:505-540 | As written: the 08:00 slot when the first booking starts at 09:00 or later, then one slot per gap of an hour or more in booking order, then the slot up to 18:00 when the last booking by start ends before 18:00, and nothing else. A day without bookings has none. |
| Suggestions.SuggestAsWritten | src/salas/salas.service.ts:490-546 | As written: the alternatives are laid out as above over the room's bookings that day sorted by start, and the next available slot is the first of them. |
| Suggestions.AsWrittenSuggestsOccupiedSlot | src/salas/salas.service.ts:518-540 | With bookings 09:00-17:00, 10:00-11:00 and 12:00-13:00, the generator as written offers 11:00-12:00 and 13:00-18:00, and both overlap the long booking. |
| Suggestions.GapSlots | src/salas/salas.service.ts:518-530 | Corrected: one slot per position whose next booking starts an hour or more after the latest end so far, in position order, from that latest end to the next start. Every such slot is at least an hour long and overlaps no booking. |
| Suggestions.TrailingSlot | src/salas/salas.service.ts:532-540 | Corrected: the slot from the latest end to 18:00, offered exactly when that end is before 18:00. It overlaps no booking. |
| Suggestions.Alternatives | src/salas/salas.service.ts:505-540 | Corrected: the 08:00 slot, then the gap slots measured from the latest end, then the slot from the latest end to 18:00, each under its condition and nothing else. No alternative overlaps a booking. |
| Suggestions.Suggest | src/salas/salas.service.ts:490-546 | Corrected: the alternatives are laid out as in `Alternatives` over the room's bookings that day sorted by start, and the next slot is the first of them. Every alternative is a non-empty window that overlaps none of the room's reservations that day. |
| Suggestions.AgreeWhenEndsOrdered | src/salas/salas.service.ts:518-540 | When later-starting bookings never end earlier, the corrected and as-written generators give the same alternatives. |
| Suggestions.SuggestAgreesWhenEndsOrdered | src/salas/salas.service.ts:490-546 | When the room's bookings that day, sorted by start, have ordered ends, both suggestion records are equal. |
| Suggestions.TieOrderMatters | src/salas/salas.service.ts:497-530 | Sorting by start alone does not fix the gap slots: two orders of the same bookings, with an inverted window tied at 10:00, give different corrected gap slots. |
| Suggestions.GapsAgree | src/salas/salas.service.ts:518-530 | When ends are ordered like starts, the latest end so far is the current booking's end, and the gap slots coincide. |
| Inventory.FindRoom | src/salas/salas.service.ts:287-298 | Finds a room with the requested id, or reports that no room has it. |
| Inventory.MatchFrom | src/salas/salas.service.ts:334-348 | A record's type is credited to the first element, in list order, whose lower-cased name occurs in the lower-cased type name. |
| Inventory.RecordsOf | src/salas/salas.service.ts:301-306 | The records kept are exactly the room's records, each as many times as it occurs, since duplicate rows both count. |
| Inventory.EmptyInventory | src/salas/salas.service.ts:308-332 | The initial inventory has the nine elements in fixed order, each with four zero counters. |
| Inventory.TallyUpToAll | src/salas/salas.service.ts:334-349 | Summing every element's counters gives exactly the quantity of the records that match some element. |
| Inventory.CountRecords | src/salas/salas.service.ts:322-351 | The result has the nine elements in order. Each counter is the sum of the quantities of the records credited to that element with that status, and the counters add up to the matched quantity. |
| Inventory.GetInventory | src/salas/salas.service.ts:285-357 | It fails with NotFound exactly when the room does not exist. Otherwise it returns that room with the nine elements in order, per-status sums of the room's matched records, and a grand total equal to their quantity. |
| Text.Normalize | src/salas/salas.service.ts:399-404 | The normalized text holds no combining marks and only characters that folding leaves unchanged: no upper-case letter and no accented Latin-1 letter. On text without combining marks, each character is replaced by its lower-case base letter. |
| Text.NormalizeIdempotent | src/salas/salas.service.ts:399-404 | Normalizing twice is the same as normalizing once. |
| InventoryUpdate.FindType | src/salas/salas.service.ts:408-413 | The type found is the first related one, where related means equal after normalizing or one containing the other. No type is found exactly when none is related. |
| InventoryUpdate.AllowedResolves | src/salas/salas.service.ts:429-453 | Once every element has a related type, an allow-listed name always finds a type, so the NotFound branch cannot be reached. |
| InventoryUpdate.CreateMissingCovers | src/salas/salas.service.ts:406-424 | Every element that no fetched type is related to gets a type named after it. |
| InventoryUpdate.CreateMissingFresh | src/salas/salas.service.ts:415-423 | Created types are named after elements that no fetched type was related to, and they get increasing ids above every existing id. |
| InventoryUpdate.CreatedTypesResolve | src/salas/salas.service.ts:406-427 | After the first loop, every element has a related type. |
| InventoryUpdate.CreatedTypesUnique | src/salas/salas.service.ts:415-427 | Creating missing types keeps type ids unique. |
| InventoryUpdate.EnsureTypes | src/salas/salas.service.ts:406-427 | Existing types stay first and unchanged, and every element resolves. A type is created only for an element that no existing type was related to, as `if (!tipoExistente)` requires. Ids stay unique. |
| InventoryUpdate.FirstWithKey | src/salas/salas.service.ts:455-460 | Finds the first record with the room-and-type key, or reports that none has it. |
| InventoryUpdate.Upsert | src/salas/salas.service.ts:455-481 | Either the first record with the key is overwritten or a new record is appended. Nothing else changes, and with unique keys the key then holds exactly the new quantity and status. |
| InventoryUpdate.UpsertKeepsOtherKey | src/salas/salas.service.ts:455-481 | Writing one type leaves what another type holds unchanged. |
| InventoryUpdate.ApplyUpdates | src/salas/salas.service.ts:429-482 | Records of other rooms keep their place and value, and new records belong to the room. Keys stay unique. Once every element resolves, the loop succeeds exactly when every name is allow-listed, and otherwise fails with BadRequest. |
| InventoryUpdate.RejectionKeepsEarlierWrites | src/salas/salas.service.ts:429-440 | A rejected name stops the loop but keeps the writes of the names before it: the operation is not atomic. |
| InventoryUpdate.UntargetedKeyHolds | src/salas/salas.service.ts:441-481 | Updates that never target a type leave what that type holds unchanged. |
| InventoryUpdate.LastWriteWins | src/salas/salas.service.ts:429-482 | When every requested name is allow-listed and has a type, so that the loop succeeds, each requested element's type has exactly one record, holding the values of the last request that targets it. |
| InventoryUpdate.UpdateInventory | src/salas/salas.service.ts:365-488 | A missing room gives NotFound with nothing written. Otherwise the rooms table is untouched, existing types are kept, every element resolves, and a type is created only for an element no existing type was related to. Records of other rooms are unchanged and new records belong to the room. The call succeeds, returning the room, exactly when every name is allow-listed, and fails with BadRequest otherwise. Keys stay unique. |
| Participants.FindRegistered | src/participantes-ad/participantes-ad.service.ts:40-46 | Finds the first participant of the reservation with that email, or reports that none exists. |
| Participants.AddParticipant | src/participantes-ad/participantes-ad.service.ts:25-63 | A missing reservation gives NotFound, and this check comes first. An email already registered for the reservation gives Conflict. A failure stores nothing. On success, exactly one participant with the request's reservation, name and email and a fresh id is appended. A valid store stays valid: pairs and ids are unique and participants are attached to reservations. |
| Participants.AddTwiceConflicts | src/participantes-ad/participantes-ad.service.ts:40-53 | Repeating a successful request gives Conflict and stores nothing. |
| Participants.AddAllKeepsValid | src/participantes-ad/participantes-ad.service.ts:25-63 | Any sequence of additions keeps `(reservation, email)` pairs and ids unique, keeps earlier participants in place, and leaves the reservations untouched. |
| ReservationRequest.ClockMinutes | src/reservaciones/dto/create-reservacione.dto.ts:53-63 | An accepted `HH:mm` string denotes an hour in 0..23 and a minute in 0..59, so a time below 1440 minutes. |
| ReservationRequest.FormatAccepted | src/reservaciones/dto/create-reservacione.dto.ts:53-63 | Every time of day has a zero-padded spelling that the pattern accepts, and reading it back gives the same time. |
| ReservationRequest.AcceptedIsFormatted | src/reservaciones/dto/create-reservacione.dto.ts:53-63 | Every accepted string is the spelling of the time it denotes, so the pattern admits exactly one string per time of day. |
| ReservationRequest.FailingFields | src/reservaciones/dto/create-reservacione.dto.ts:23-72 | The reported fields are exactly the fields that fail their decorators. |
| ReservationRequest.ValidateAsWritten | src/reservaciones/dto/create-reservacione.dto.ts:43-48 | With `tipoEvento` required to be an integer and a string at once, every request is rejected on that field. |
| ReservationRequest.EventTypeAsWrittenRejectsAll | src/reservaciones/dto/create-reservacione.dto.ts:14-21 | No value passes the declared `tipoEvento` rule, not even `"Reunion"`, which the intended rule accepts. |
| ReservationRequest.Validate | src/reservaciones/dto/create-reservacione.dto.ts:23-72 | With the intended `tipoEvento` rule, a field is reported exactly when it fails its rule. |
| ReservationRequest.AcceptedRequest | src/reservaciones/dto/create-reservacione.dto.ts:43-71 | An accepted request has an event type from the six listed, clock times below 1440 minutes, a non-negative integer attendee count, and notes that are absent, null or a string. |
| ReservationRequest.NotesOptional | src/reservaciones/dto/create-reservacione.dto.ts:69-71 | `observaciones` passes exactly when it is absent, null or a string. |
| ReservationRequest.AttendeesRule | src/reservaciones/dto/create-reservacione.dto.ts:65-67 | `asistentes` passes exactly for non-negative integers. Both -1 and 2.5 are rejected. |
| ReservationRequest.InvertedWindowAccepted | src/reservaciones/dto/create-reservacione.dto.ts:53-63 | A request whose end time (09:00) comes before its start time (11:30) is accepted, since no rule relates the two. |

## Left out

- Database access (Prisma `findMany`, `findUnique`, `findFirst`, `create`, `update`) is not modelled. Every read is a sequence passed in, and every write returns the new table.
- The real tables are unordered, so the model fixes the order of the sequences it is given.
- Autoincrement ids are modelled as a counter in the participants store and as "largest id plus one" for equipment types.
- JavaScript `Date`, UTC versus local time, and `toISOString().split('T')[0]` are not modelled; dates are integers and times are minutes.
  - The schedule sweep reads local hours, while conflict detection reads UTC; with integer minutes this difference disappears.
  - Conflict detection builds the requested times on the event date (lines 174-176 of salas.service.ts), while `crearReservacion` stores the times of a booking on 1970-01-01 (lines 28-29 of src/reservaciones/reservaciones.service.ts). As written, the comparison at line 223 then sees a booking made through the API as long over for any later event date, so it never conflicts. The model compares minutes of the day only, as if both times were on the same day. Whether the stored times keep that date depends on the column type, which is not part of this model.
  - The `"HH:MM - HH:MM"` strings of the suggestions are modelled as minute pairs.
  - Invalid date strings, and the `try`/`catch` that turns them into a `{message, data: null}` answer in `ObtenerSalasDisponiblesPorHora`, are not modelled.
- Text.Normalize: `normalize('NFD')` is modelled on the Latin-1 letters. Upper-case letters are lower-cased, accented letters become their base letter, and combining marks U+0300-U+036F are dropped. Other scripts and other decompositions are not modelled. `toLowerCase` is modelled for ASCII and Latin-1 only.
- InventoryUpdate.ApplyUpdates: the update loop takes the normalizer as a parameter. `UpdateInventory` instantiates it with `Text.Normalize`.
- Inventory.GetInventory: the element matcher is passed to `CountRecords` as a function value. A record whose type id names no type reads as the empty name; with the foreign key in place this cannot happen.
- The `item.detalles[equipo.estado] = equipo.cantidad` branch (lines 342-344 of salas.service.ts) is not modelled. A status outside the four counters cannot occur, because the status is an enumeration.
- InventoryUpdate.ItemUpdate fixes `estado` to the four statuses and `cantidad` to an integer. The update request class declares no validators and nothing runs them, so an unknown status or a fractional quantity reaches the database, whose client then throws in the middle of the loop, after the writes of the earlier elements. That error path is not modelled.
- Equipment record ids and type descriptions are not modelled. An update addresses the first record with the room-and-type key, as `findFirst` followed by `update` by id does.
- `obtenerInventarioSala` matches names by lower-casing only, while `actualizarInventarioSala` also strips accents. A type named "Camara" is therefore found by the update but counted under no element by the read. The model keeps both rules as written.
- Bookings.DayBookings: its own contract states which windows are kept and a bound on their number. Their order and multiplicity (each matching reservation once, in input order) are stated by `DayBookingsAppend` and `DayBookingsOne` together.
- Bookings.SortByStart: its contract states ordering and permutation but not stability. The insertion it uses keeps bookings with equal starts in input order, as the stable `Array.prototype.sort` does, but no lemma states it. The suggestions can depend on that order: with the inverted windows the model admits (an end before the start), bookings 05:00-06:40, 10:00-08:20, 10:00-15:00 give the corrected gap slots 06:40-10:00 and 08:20-10:00, while 05:00-06:40, 10:00-15:00, 10:00-08:20 give only 06:40-10:00 (`Suggestions.TieOrderMatters`).
- Participants.AddParticipant: emails are compared exactly, with no case folding, which matches the default Prisma comparison.
- ReservationRequest.Validate: the decorators are declarative. `main.ts` installs no `ValidationPipe`, so nothing in the application runs them.
  - `@IsDateString()` is an ISO 8601 recognizer from the validator library and is taken as a parameter.
  - JSON numbers are reals, without NaN and Infinity.
- Other members of the rooms service are not modelled: `ObtenerEquipoDeSala`, `ObtenerSalaPorId`, `ActualizarEquipoDeSala`, the usage-history members and `obtenerDetalleEvento`. They are ORM queries with field projection, outside the scheduling core.
- Controllers, authentication, seeds, logging and Swagger metadata are not modelled.

## Findings

| source | as written | input that shows it | evidently intended | confidence | as-written member | corrected member |
|---|---|---|---|---|---|---|
| src/salas/salas.service.ts:518-540 | Each gap is measured from the current booking's end. The trailing slot starts at the end of the last booking by start. | Bookings 09:00-17:00, 10:00-11:00 and 12:00-13:00. The suggestions include 11:00-12:00 and 13:00-18:00, and both lie inside the 09:00-17:00 booking. | Measure each gap, and the trailing slot, from the latest end seen so far, so that no suggested slot is occupied. | not executed | Suggestions.AsWrittenSuggestsOccupiedSlot | Suggestions.Suggest |
| src/salas/salas.service.ts:254-264 | The sweep compares each booking's start with the running end, even when the booking starts after 18:00. | A room booked 08:00-20:00 and 21:30-22:00. The second booking starts 90 minutes after 20:00, so the room is reported available although 08:00-18:00 is fully booked. | Only free time within 08:00-18:00 counts, which means capping each start at 18:00. | not executed | FreeHour.AsWrittenIgnoresClosing | FreeHour.SweepIsExact |
| src/reservaciones/dto/create-reservacione.dto.ts:43-48 | `tipoEvento` carries both `@IsInt()` and `@IsString()`. | `tipoEvento: "Reunion"` fails `@IsInt()`, and no value is both an integer and a string. | A string from `TIPOS_EVENTO`. | not executed | ReservationRequest.ValidateAsWritten | ReservationRequest.Validate |
