/** `actualizarInventarioSala`: writes per-room equipment quantities for
    allow-listed elements. The nine elements first get an equipment type
    each (created when no existing type is related to the element); then
    the requested elements are processed in order, each one updating or
    creating the room's record for its type. The operation is not atomic:
    a rejected element leaves the earlier writes in place. */
module InventoryUpdate {
  import opened Common
  import opened Text
  import opened Bookings
  import opened Inventory

  /** `ActualizarElementoInventarioDto`. */
  datatype ItemUpdate = ItemUpdate(name: string, quantity: int, status: EquipmentStatus)

  /** The outcome: the tables after the call, and either the room's summary
      (`{id, nombreSala}`) or the exception raised. */
  datatype UpdateOutcome = UpdateOutcome(store: Store, result: Result<Room>)

  /** The name normalizer the operation compares names with. The
      operation itself uses `Normalize`; the loop-level definitions take it
      as a parameter, since nothing about them depends on which one it is. */
  type Normalizer = string -> string

  /** A type name and an element name refer to the same thing: after
      normalizing, they are equal or one contains the other. */
  predicate Related(norm: Normalizer, typeName: string, name: string) {
    var a := norm(typeName);
    var b := norm(name);
    a == b || Contains(a, b) || Contains(b, a)
  }

  /** `tipos.find(...)`: the first type related to `name`. */
  function FindType(norm: Normalizer, types: seq<EquipmentType>, name: string): (r: Option<EquipmentType>)
    ensures r.Some? ==> r.value in types && Related(norm, r.value.name, name)
    ensures r.None? <==> forall t :: t in types ==> !Related(norm, t.name, name)
  {
    if types == [] then None
    else if Related(norm, types[0].name, name) then Some(types[0])
    else
      assert forall t :: t in types <==> t == types[0] || t in types[1..];
      FindType(norm, types[1..], name)
  }

  /** The type id an update for `name` is written under, if any. */
  function TargetOf(norm: Normalizer, types: seq<EquipmentType>, name: string): Option<int> {
    match FindType(norm, types, name)
    case None => None
    case Some(t) => Some(t.id)
  }

  /** Every element has a related type. */
  predicate ElementsResolve(norm: Normalizer, types: seq<EquipmentType>) {
    Resolve(norm, types, Elements)
  }

  /** `elementosInventario.find(e => normalizar(e) === normalizar(nombre))`. */
  predicate Allowed(norm: Normalizer, name: string) {
    exists k :: 0 <= k < |Elements| && norm(Elements[k]) == norm(name)
  }

  /** Once every element resolves, every allowed name resolves too: the
      "type not found" error after the allow-list check cannot occur. */
  lemma AllowedResolves(norm: Normalizer, types: seq<EquipmentType>, name: string)
    requires ElementsResolve(norm, types) && Allowed(norm, name)
    ensures FindType(norm, types, name).Some?
  {
    var k :| 0 <= k < |Elements| && norm(Elements[k]) == norm(name);
    var t := FindType(norm, types, Elements[k]).value;
    assert Related(norm, t.name, name);
  }

  predicate TypeIdsUnique(types: seq<EquipmentType>) {
    forall i, j :: 0 <= i < j < |types| ==> types[i].id != types[j].id
  }

  function MaxTypeId(types: seq<EquipmentType>): (m: int)
    ensures forall t :: t in types ==> t.id <= m
  {
    if types == [] then 0
    else
      assert forall t :: t in types <==> t == types[0] || t in types[1..];
      Max(types[0].id, MaxTypeId(types[1..]))
  }

  /** Creates, from name `k` on, a type for each name no type of `fetched`
      (the types as read before the pass) is related to. Created types get
      ids above every id so far, as an auto-increment key does. */
  function CreateMissing(norm: Normalizer, fetched: seq<EquipmentType>, types: seq<EquipmentType>,
                         names: seq<string>, k: nat): (r: seq<EquipmentType>)
    requires k <= |names|
    ensures |r| >= |types| && r[..|types|] == types
    decreases |names| - k
  {
    if k == |names| then types
    else if FindType(norm, fetched, names[k]).Some? then CreateMissing(norm, fetched, types, names, k + 1)
    else
      var r := CreateMissing(norm, fetched, types + [EquipmentType(MaxTypeId(types) + 1, names[k])], names, k + 1);
      assert r[..|types| + 1][..|types|] == r[..|types|];
      r
  }

  predicate HasTypeNamed(types: seq<EquipmentType>, name: string) {
    exists t :: t in types && t.name == name
  }

  /** `name` is one of `names` and no type of `fetched` is related to it. */
  predicate Missing(norm: Normalizer, fetched: seq<EquipmentType>, names: seq<string>, name: string) {
    name in names && FindType(norm, fetched, name).None?
  }

  /** The types after position `n` of `r` are named after names of `names`
      that had no related type in `fetched`, and carry increasing ids above
      `floor`. */
  predicate FreshAfter(norm: Normalizer, fetched: seq<EquipmentType>, r: seq<EquipmentType>, n: nat, floor: int,
                       names: seq<string>) {
    (forall i :: n <= i < |r| ==> r[i].id > floor && Missing(norm, fetched, names, r[i].name)) &&
    (forall i, j :: n <= i < j < |r| ==> r[i].id < r[j].id)
  }

  /** Every name from `k` on that no type of `fetched` is related to has a
      type of `r` named after it. */
  predicate Covers(norm: Normalizer, fetched: seq<EquipmentType>, r: seq<EquipmentType>, names: seq<string>, k: nat) {
    forall j :: k <= j < |names| && FindType(norm, fetched, names[j]).None? ==> HasTypeNamed(r, names[j])
  }

  lemma CoversStep(norm: Normalizer, fetched: seq<EquipmentType>, r: seq<EquipmentType>, names: seq<string>, k: nat)
    requires k < |names| && Covers(norm, fetched, r, names, k + 1)
    requires FindType(norm, fetched, names[k]).None? ==> HasTypeNamed(r, names[k])
    ensures Covers(norm, fetched, r, names, k)
  {
  }

  /** Every name from `k` on that no fetched type is related to gets a type
      named after it. */
  lemma {:induction false} CreateMissingCovers(norm: Normalizer, fetched: seq<EquipmentType>, types: seq<EquipmentType>,
                                              names: seq<string>, k: nat)
    requires k <= |names|
    ensures Covers(norm, fetched, CreateMissing(norm, fetched, types, names, k), names, k)
    decreases |names| - k
  {
    if k < |names| {
      var r := CreateMissing(norm, fetched, types, names, k);
      if FindType(norm, fetched, names[k]).Some? {
        assert r == CreateMissing(norm, fetched, types, names, k + 1);
        CreateMissingCovers(norm, fetched, types, names, k + 1);
      } else {
        var created := EquipmentType(MaxTypeId(types) + 1, names[k]);
        var ext := types + [created];
        assert r == CreateMissing(norm, fetched, ext, names, k + 1);
        CreateMissingCovers(norm, fetched, ext, names, k + 1);
        assert HasTypeNamed(r, names[k]) by {
          assert r[..|ext|] == ext;
          assert r[|types|] == created;
        }
      }
      CoversStep(norm, fetched, r, names, k);
    }
  }

  /** The created types are named after names no fetched type is related
      to, and carry increasing ids above every existing id. */
  lemma {:induction false} CreateMissingFresh(norm: Normalizer, fetched: seq<EquipmentType>, types: seq<EquipmentType>,
                                             names: seq<string>, k: nat)
    requires k <= |names|
    ensures FreshAfter(norm, fetched, CreateMissing(norm, fetched, types, names, k), |types|, MaxTypeId(types), names)
    decreases |names| - k
  {
    if k < |names| {
      var r := CreateMissing(norm, fetched, types, names, k);
      if FindType(norm, fetched, names[k]).Some? {
        assert r == CreateMissing(norm, fetched, types, names, k + 1);
        CreateMissingFresh(norm, fetched, types, names, k + 1);
      } else {
        var created := EquipmentType(MaxTypeId(types) + 1, names[k]);
        var ext := types + [created];
        assert r == CreateMissing(norm, fetched, ext, names, k + 1);
        CreateMissingFresh(norm, fetched, ext, names, k + 1);
        assert created in ext;
        assert r[..|ext|] == ext;
        assert r[|types|] == created;
        assert Missing(norm, fetched, names, created.name);
        forall i | |types| <= i < |r|
          ensures r[i].id > MaxTypeId(types) && Missing(norm, fetched, names, r[i].name)
        {
          if i > |types| {
            assert r[i].id > MaxTypeId(ext) >= created.id;
          }
        }
        forall i, j | |types| <= i < j < |r|
          ensures r[i].id < r[j].id
        {
          if i == |types| {
            assert r[j].id > MaxTypeId(ext) >= created.id;
          }
        }
      }
    }
  }

  /** Every name in `names` has a related type. */
  predicate Resolve(norm: Normalizer, types: seq<EquipmentType>, names: seq<string>) {
    forall k :: 0 <= k < |names| ==> FindType(norm, types, names[k]).Some?
  }

  lemma CreatedTypesResolve(norm: Normalizer, types: seq<EquipmentType>, names: seq<string>)
    ensures Resolve(norm, CreateMissing(norm, types, types, names, 0), names)
  {
    var r := CreateMissing(norm, types, types, names, 0);
    CreateMissingCovers(norm, types, types, names, 0);
    forall k | 0 <= k < |names|
      ensures FindType(norm, r, names[k]).Some?
    {
      var e := names[k];
      if FindType(norm, types, e).Some? {
        var t := FindType(norm, types, e).value;
        var i :| 0 <= i < |types| && types[i] == t;
        assert r[..|types|][i] == t;
        assert t in r;
      } else {
        var t :| t in r && t.name == e;
        ContainsSelf(norm(e));
        assert Related(norm, t.name, e);
      }
    }
  }

  lemma CreatedTypesUnique(norm: Normalizer, types: seq<EquipmentType>, names: seq<string>)
    requires TypeIdsUnique(types)
    ensures TypeIdsUnique(CreateMissing(norm, types, types, names, 0))
  {
    var r := CreateMissing(norm, types, types, names, 0);
    CreateMissingFresh(norm, types, types, names, 0);
    forall i, j | 0 <= i < j < |r|
      ensures r[i].id != r[j].id
    {
      if j < |types| {
        assert r[i] == r[..|types|][i] && r[j] == r[..|types|][j];
      } else if i < |types| {
        assert r[i] == r[..|types|][i] == types[i];
        assert types[i] in types;
      }
    }
  }

  /** The first loop of the operation, over the names `names`: afterwards
      every name resolves, the existing types are untouched and come first,
      every new type is named after a name that no existing type was related
      to, and type ids stay unique. */
  function EnsureTypes(norm: Normalizer, types: seq<EquipmentType>, names: seq<string>): (r: seq<EquipmentType>)
    ensures |r| >= |types| && r[..|types|] == types
    ensures Resolve(norm, r, names)
    ensures forall i :: |types| <= i < |r| ==> r[i].name in names && FindType(norm, types, r[i].name).None?
    ensures TypeIdsUnique(types) ==> TypeIdsUnique(r)
  {
    var r := CreateMissing(norm, types, types, names, 0);
    CreatedTypesResolve(norm, types, names);
    CreateMissingFresh(norm, types, types, names, 0);
    assert TypeIdsUnique(types) ==> TypeIdsUnique(r) by {
      if TypeIdsUnique(types) { CreatedTypesUnique(norm, types, names); }
    }
    r
  }

  // -----------------------------------------------------------------------
  // Upsert of one (room, type) record.
  // -----------------------------------------------------------------------

  predicate HasKey(e: Equipment, room: int, typeId: int) {
    e.room == room && e.typeId == typeId
  }

  /** At most one record per (room, type). */
  predicate KeysUnique(eq: seq<Equipment>) {
    forall i, j :: 0 <= i < j < |eq| && eq[i].room == eq[j].room ==> eq[i].typeId != eq[j].typeId
  }

  /** Some record holds `q` units in status `st` for (room, type), and every
      record with that key does. */
  predicate Holds(eq: seq<Equipment>, room: int, typeId: int, q: int, st: EquipmentStatus) {
    (exists k :: 0 <= k < |eq| && eq[k] == Equipment(room, typeId, q, st)) &&
    forall k :: 0 <= k < |eq| && HasKey(eq[k], room, typeId) ==> eq[k] == Equipment(room, typeId, q, st)
  }

  /** `equiposSala.findFirst({ where: { idSala, idTipoEquipo } })`. */
  function FirstWithKey(eq: seq<Equipment>, room: int, typeId: int, i: nat): (k: Option<nat>)
    requires i <= |eq|
    ensures k.Some? ==> i <= k.value < |eq| && HasKey(eq[k.value], room, typeId)
    ensures k.Some? ==> forall j :: i <= j < k.value ==> !HasKey(eq[j], room, typeId)
    ensures k.None? ==> forall j :: i <= j < |eq| ==> !HasKey(eq[j], room, typeId)
    decreases |eq| - i
  {
    if i == |eq| then None
    else if HasKey(eq[i], room, typeId) then Some(i)
    else FirstWithKey(eq, room, typeId, i + 1)
  }

  /** Update the first record with the key, or create one at the end. Every
      record keeps its place; only a record with the key can change, and it
      becomes the new value; the key then holds the new value, and keys that
      were unique stay unique. */
  function Upsert(eq: seq<Equipment>, room: int, typeId: int, q: int, st: EquipmentStatus): (r: seq<Equipment>)
    ensures |r| == |eq| || (|r| == |eq| + 1 && r[|eq|] == Equipment(room, typeId, q, st))
    ensures |r| == |eq| + 1 ==> forall i :: 0 <= i < |eq| ==> !HasKey(eq[i], room, typeId)
    ensures forall i :: 0 <= i < |eq| ==>
      r[i] == eq[i] || (HasKey(eq[i], room, typeId) && r[i] == Equipment(room, typeId, q, st))
    ensures forall i :: 0 <= i < |eq| ==> r[i].room == eq[i].room
    ensures exists k :: 0 <= k < |r| && r[k] == Equipment(room, typeId, q, st)
    ensures KeysUnique(eq) ==> KeysUnique(r) && Holds(r, room, typeId, q, st)
  {
    var written := Equipment(room, typeId, q, st);
    match FirstWithKey(eq, room, typeId, 0)
    case None =>
      var r := eq + [written];
      assert r[|eq|] == written;
      r
    case Some(k) =>
      var r := eq[k := written];
      assert r[k] == written;
      r
  }

  /** Writing one key leaves what another key holds unchanged. */
  lemma UpsertKeepsOtherKey(eq: seq<Equipment>, room: int, typeId: int, q: int, st: EquipmentStatus,
                            other: int, q2: int, st2: EquipmentStatus)
    requires other != typeId && Holds(eq, room, other, q2, st2)
    ensures Holds(Upsert(eq, room, typeId, q, st), room, other, q2, st2)
  {
    var r := Upsert(eq, room, typeId, q, st);
    var k :| 0 <= k < |eq| && eq[k] == Equipment(room, other, q2, st2);
    assert r[k] == eq[k];
  }

  // -----------------------------------------------------------------------
  // The second loop: the requested elements in order.
  // -----------------------------------------------------------------------

  /** The equipment table after the loop, and the exception that stopped it. */
  datatype Applied = Applied(equipment: seq<Equipment>, error: Option<ErrorKind>)

  /** `out` is `eq` after writes to room `room` only: records keep their
      place and room, records of other rooms keep their value, appended
      records belong to `room`, and unique keys stay unique. */
  predicate Framed(eq: seq<Equipment>, out: seq<Equipment>, room: int) {
    |out| >= |eq| &&
    (forall i :: 0 <= i < |eq| && eq[i].room != room ==> out[i] == eq[i]) &&
    (forall i :: 0 <= i < |eq| ==> out[i].room == eq[i].room) &&
    (forall i :: |eq| <= i < |out| ==> out[i].room == room) &&
    (KeysUnique(eq) ==> KeysUnique(out))
  }

  lemma FramedUpsertThen(eq: seq<Equipment>, room: int, typeId: int, q: int, st: EquipmentStatus, out: seq<Equipment>)
    requires Framed(Upsert(eq, room, typeId, q, st), out, room)
    ensures Framed(eq, out, room)
  {
    var next := Upsert(eq, room, typeId, q, st);
    assert forall i :: |eq| <= i < |next| ==> next[i].room == room;
  }

  /** How the loop's outcome answers for the requested names. */
  predicate Answers(norm: Normalizer, types: seq<EquipmentType>, reqs: seq<ItemUpdate>, error: Option<ErrorKind>) {
    (error.None? ==> forall i :: 0 <= i < |reqs| ==> Allowed(norm, reqs[i].name) && TargetOf(norm, types, reqs[i].name).Some?) &&
    (ElementsResolve(norm, types) ==>
      (error.None? <==> forall i :: 0 <= i < |reqs| ==> Allowed(norm, reqs[i].name))) &&
    (ElementsResolve(norm, types) && error.Some? ==> error.value == BadRequest)
  }

  lemma AnswersStep(norm: Normalizer, types: seq<EquipmentType>, reqs: seq<ItemUpdate>, error: Option<ErrorKind>)
    requires reqs != [] && Allowed(norm, reqs[0].name) && FindType(norm, types, reqs[0].name).Some?
    requires Answers(norm, types, reqs[1..], error)
    ensures Answers(norm, types, reqs, error)
  {
    assert forall i :: 1 <= i < |reqs| ==> reqs[i] == reqs[1..][i - 1];
    if ElementsResolve(norm, types) && error.Some? {
      var i :| 0 <= i < |reqs[1..]| && !Allowed(norm, reqs[1..][i].name);
      assert !Allowed(norm, reqs[i + 1].name);
    }
  }

  function ApplyUpdates(norm: Normalizer, types: seq<EquipmentType>, room: int, eq: seq<Equipment>, reqs: seq<ItemUpdate>): (r: Applied)
    ensures |r.equipment| >= |eq|
    ensures forall i :: 0 <= i < |eq| && eq[i].room != room ==> r.equipment[i] == eq[i]
    ensures forall i :: 0 <= i < |eq| ==> r.equipment[i].room == eq[i].room
    ensures forall i :: |eq| <= i < |r.equipment| ==> r.equipment[i].room == room
    ensures KeysUnique(eq) ==> KeysUnique(r.equipment)
    ensures r.error.None? ==> forall i :: 0 <= i < |reqs| ==> Allowed(norm, reqs[i].name) && TargetOf(norm, types, reqs[i].name).Some?
    ensures ElementsResolve(norm, types) ==>
      (r.error.None? <==> forall i :: 0 <= i < |reqs| ==> Allowed(norm, reqs[i].name))
    ensures ElementsResolve(norm, types) && r.error.Some? ==> r.error.value == BadRequest
    decreases |reqs|
  {
    if reqs == [] then Applied(eq, None)
    else if !Allowed(norm, reqs[0].name) then Applied(eq, Some(BadRequest))
    else match FindType(norm, types, reqs[0].name)
      case None => Applied(eq, Some(NotFound))
      case Some(t) =>
        var r := ApplyUpdates(norm, types, room, Upsert(eq, room, t.id, reqs[0].quantity, reqs[0].status), reqs[1..]);
        assert Framed(eq, r.equipment, room) by {
          FramedUpsertThen(eq, room, t.id, reqs[0].quantity, reqs[0].status, r.equipment);
        }
        assert Answers(norm, types, reqs, r.error) by {
          AnswersStep(norm, types, reqs, r.error);
        }
        r
  }

  /** A rejected element stops the loop but keeps the writes of the
      elements before it. */
  lemma {:induction false} RejectionKeepsEarlierWrites(norm: Normalizer, types: seq<EquipmentType>, room: int, eq: seq<Equipment>,
                                                      reqs: seq<ItemUpdate>, j: nat)
    requires j < |reqs| && !Allowed(norm, reqs[j].name)
    requires forall i :: 0 <= i < j ==> Allowed(norm, reqs[i].name) && FindType(norm, types, reqs[i].name).Some?
    ensures ApplyUpdates(norm, types, room, eq, reqs) ==
      Applied(ApplyUpdates(norm, types, room, eq, reqs[..j]).equipment, Some(BadRequest))
    decreases j
  {
    if j > 0 {
      var t := FindType(norm, types, reqs[0].name).value;
      var next := Upsert(eq, room, t.id, reqs[0].quantity, reqs[0].status);
      assert reqs[..j][1..] == reqs[1..][..j - 1];
      RejectionKeepsEarlierWrites(norm, types, room, next, reqs[1..], j - 1);
    }
  }

  /** Updates that never target `typeId` leave what it holds unchanged. */
  lemma {:induction false} UntargetedKeyHolds(norm: Normalizer, types: seq<EquipmentType>, room: int, eq: seq<Equipment>,
                                              reqs: seq<ItemUpdate>, typeId: int, q: int, st: EquipmentStatus)
    requires Holds(eq, room, typeId, q, st)
    requires forall j :: 0 <= j < |reqs| ==> TargetOf(norm, types, reqs[j].name) != Some(typeId)
    ensures Holds(ApplyUpdates(norm, types, room, eq, reqs).equipment, room, typeId, q, st)
    decreases |reqs|
  {
    if reqs != [] && Allowed(norm, reqs[0].name) && FindType(norm, types, reqs[0].name).Some? {
      var t := FindType(norm, types, reqs[0].name).value;
      UpsertKeepsOtherKey(eq, room, t.id, reqs[0].quantity, reqs[0].status, typeId, q, st);
      var next := Upsert(eq, room, t.id, reqs[0].quantity, reqs[0].status);
      assert forall j :: 1 <= j < |reqs| ==> reqs[j] == reqs[1..][j - 1];
      UntargetedKeyHolds(norm, types, room, next, reqs[1..], typeId, q, st);
    }
  }

  /** Last write wins: when every element is allowed and has a type (so
      the loop succeeds) over a table with unique keys, the record of each element's type holds the values of the last
      element targeting that type, and it is the only record with that key. */
  lemma {:induction false} LastWriteWins(norm: Normalizer, types: seq<EquipmentType>, room: int, eq: seq<Equipment>,
                                         reqs: seq<ItemUpdate>, i: nat)
    requires KeysUnique(eq)
    requires forall j :: 0 <= j < |reqs| ==> Allowed(norm, reqs[j].name) && TargetOf(norm, types, reqs[j].name).Some?
    requires i < |reqs|
    requires forall j :: i < j < |reqs| ==> TargetOf(norm, types, reqs[j].name) != TargetOf(norm, types, reqs[i].name)
    ensures TargetOf(norm, types, reqs[i].name).Some? &&
      Holds(ApplyUpdates(norm, types, room, eq, reqs).equipment, room,
            TargetOf(norm, types, reqs[i].name).value, reqs[i].quantity, reqs[i].status)
    decreases i
  {
    var t := FindType(norm, types, reqs[0].name).value;
    var next := Upsert(eq, room, t.id, reqs[0].quantity, reqs[0].status);
    ApplyHead(norm, types, room, eq, reqs);
    var tail := reqs[1..];
    assert forall j :: 0 <= j < |tail| ==> tail[j] == reqs[j + 1];
    if i == 0 {
      UntargetedKeyHolds(norm, types, room, next, tail, t.id, reqs[0].quantity, reqs[0].status);
    } else {
      assert tail[i - 1] == reqs[i];
      LastWriteWins(norm, types, room, next, tail, i - 1);
    }
  }

  /** One turn of the loop: an allowed element with a type is written, and
      the loop goes on with the rest. */
  lemma ApplyHead(norm: Normalizer, types: seq<EquipmentType>, room: int, eq: seq<Equipment>, reqs: seq<ItemUpdate>)
    requires reqs != [] && Allowed(norm, reqs[0].name) && FindType(norm, types, reqs[0].name).Some?
    ensures ApplyUpdates(norm, types, room, eq, reqs) ==
      ApplyUpdates(norm, types, room,
                   Upsert(eq, room, FindType(norm, types, reqs[0].name).value.id, reqs[0].quantity, reqs[0].status),
                   reqs[1..])
  {
  }

  /** `actualizarInventarioSala`. NotFound, with nothing written, when the
      room does not exist. Otherwise the types are completed so that every
      element resolves (existing types untouched), the rooms table is
      untouched, a type is created only for an element no existing type was
      related to, records of other rooms keep their place and value, new
      records belong to this room, and the call fails with BadRequest
      exactly when some requested name is not an allowed element. */
  function UpdateInventory(s: Store, roomId: int, reqs: seq<ItemUpdate>): (r: UpdateOutcome)
    ensures FindRoom(s.rooms, roomId).None? ==> r == UpdateOutcome(s, Failure(NotFound))
    ensures FindRoom(s.rooms, roomId).Some? ==>
      r.store.rooms == s.rooms &&
      |r.store.types| >= |s.types| && r.store.types[..|s.types|] == s.types &&
      ElementsResolve(Normalize, r.store.types) &&
      (forall i :: |s.types| <= i < |r.store.types| ==>
        r.store.types[i].name in Elements && FindType(Normalize, s.types, r.store.types[i].name).None?)
    ensures FindRoom(s.rooms, roomId).Some? ==>
      |r.store.equipment| >= |s.equipment| &&
      (forall i :: 0 <= i < |s.equipment| && s.equipment[i].room != roomId ==> r.store.equipment[i] == s.equipment[i]) &&
      (forall i :: |s.equipment| <= i < |r.store.equipment| ==> r.store.equipment[i].room == roomId)
    ensures FindRoom(s.rooms, roomId).Some? ==>
      (r.result.Success? <==> forall i :: 0 <= i < |reqs| ==> Allowed(Normalize, reqs[i].name))
    ensures r.result.Success? ==> r.result.value.id == roomId
    ensures FindRoom(s.rooms, roomId).Some? && r.result.Failure? ==> r.result.error == BadRequest
    ensures KeysUnique(s.equipment) ==> KeysUnique(r.store.equipment)
  {
    match FindRoom(s.rooms, roomId)
    case None => UpdateOutcome(s, Failure(NotFound))
    case Some(room) =>
      var types := EnsureTypes(Normalize, s.types, Elements);
      var applied := ApplyUpdates(Normalize, types, roomId, s.equipment, reqs);
      var store := s.(types := types, equipment := applied.equipment);
      match applied.error
      case None => UpdateOutcome(store, Success(room))
      case Some(e) => UpdateOutcome(store, Failure(e))
  }
}
