/** Per-room equipment inventory (`obtenerInventarioSala`): the room's
    equipment records are folded into a fixed list of nine elements, each
    with a counter per equipment status. */
module Inventory {
  import opened Common
  import opened Text
  import opened Bookings

  /** `EstadoEquipo`: Operativo, Dañado, NoOperativo, EnMantenimiento. */
  datatype EquipmentStatus = Operational | Damaged | OutOfService | InMaintenance

  /** A row of the equipment-types table. */
  datatype EquipmentType = EquipmentType(id: int, name: string)

  /** A row of the room-equipment table (`EquiposSala`): `quantity` units of
      one type in one room, all in one status. */
  datatype Equipment = Equipment(room: int, typeId: int, quantity: int, status: EquipmentStatus)

  /** The tables the inventory operations read and write. */
  datatype Store = Store(rooms: seq<Room>, types: seq<EquipmentType>, equipment: seq<Equipment>)

  /** `elementosInventario`: Cámara, Micrófono, Pantalla, Proyector, Silla,
      Mesa, Pizarrón, Plumón, Borrador. */
  const Elements: seq<string> := [
    "C\U{E1}mara", "Micr\U{F3}fono", "Pantalla", "Proyector", "Silla",
    "Mesa", "Pizarr\U{F3}n", "Plum\U{F3}n", "Borrador"]

  /** The per-status counters of one element (`detalles`). */
  datatype Counts = Counts(operational: int, damaged: int, outOfService: int, inMaintenance: int) {
    function Get(s: EquipmentStatus): int {
      match s
      case Operational => operational
      case Damaged => damaged
      case OutOfService => outOfService
      case InMaintenance => inMaintenance
    }

    /** `detalles[estado] += cantidad`. */
    function Add(s: EquipmentStatus, q: int): (c: Counts)
      ensures c.Get(s) == Get(s) + q
      ensures forall t :: t != s ==> c.Get(t) == Get(t)
    {
      match s
      case Operational => this.(operational := operational + q)
      case Damaged => this.(damaged := damaged + q)
      case OutOfService => this.(outOfService := outOfService + q)
      case InMaintenance => this.(inMaintenance := inMaintenance + q)
    }

    function Total(): int {
      operational + damaged + outOfService + inMaintenance
    }
  }

  datatype InventoryItem = InventoryItem(name: string, counts: Counts)

  /** `{ sala, inventario }`. */
  datatype RoomInventory = RoomInventory(room: Room, items: seq<InventoryItem>)

  /** `salas.findUnique({ where: { id } })`. */
  function FindRoom(rooms: seq<Room>, id: int): (r: Option<Room>)
    ensures r.Some? ==> r.value in rooms && r.value.id == id
    ensures r.None? ==> forall x :: x in rooms ==> x.id != id
  {
    if rooms == [] then None
    else if rooms[0].id == id then Some(rooms[0])
    else FindRoom(rooms[1..], id)
  }

  /** The name of the type a record refers to. The foreign key guarantees
      the type exists; a dangling reference would read as the empty name,
      which matches no element. */
  function TypeName(types: seq<EquipmentType>, id: int): string {
    if types == [] then ""
    else if types[0].id == id then types[0].name
    else TypeName(types[1..], id)
  }

  /** Element `k` occurs in `name`, ignoring case (`toLowerCase().includes`). */
  predicate NamesElement(name: string, k: nat)
    requires k < |Elements|
  {
    Contains(LowerString(name), LowerString(Elements[k]))
  }

  /** The first element, from position `k` on, that occurs in `name`. */
  function MatchFrom(name: string, k: nat): (r: Option<nat>)
    requires k <= |Elements|
    ensures r.Some? ==> k <= r.value < |Elements| && NamesElement(name, r.value)
    ensures r.Some? ==> forall j :: k <= j < r.value ==> !NamesElement(name, j)
    ensures r.None? ==> forall j :: k <= j < |Elements| ==> !NamesElement(name, j)
    decreases |Elements| - k
  {
    if k == |Elements| then None
    else if NamesElement(name, k) then Some(k)
    else MatchFrom(name, k + 1)
  }

  /** The element a record of type `name` is counted under, if any. */
  function Match(name: string): Option<nat> {
    MatchFrom(name, 0)
  }

  function RecordsOf(equipment: seq<Equipment>, room: int): (r: seq<Equipment>)
    ensures forall e :: e in r <==> e in equipment && e.room == room
    ensures forall e :: multiset(r)[e] == if e.room == room then multiset(equipment)[e] else 0
  {
    if equipment == [] then []
    else
      var rest := RecordsOf(equipment[1..], room);
      assert equipment == [equipment[0]] + equipment[1..];
      assert multiset(equipment) == multiset([equipment[0]]) + multiset(equipment[1..]);
      if equipment[0].room == room then [equipment[0]] + rest else rest
  }

  /** The element each record is counted under: the first element whose
      name occurs in the record's type name, ignoring case. */
  function ElementOf(types: seq<EquipmentType>): Equipment -> Option<nat> {
    (e: Equipment) => Match(TypeName(types, e.typeId))
  }

  /** The quantity of `recs` counted under element `k` and status `st`,
      when each record is counted under the element `cls` assigns it. */
  function Tally(cls: Equipment -> Option<nat>, recs: seq<Equipment>, k: nat, st: EquipmentStatus): int {
    if recs == [] then 0
    else
      var e := recs[|recs| - 1];
      Tally(cls, recs[..|recs| - 1], k, st) + (if cls(e) == Some(k) && e.status == st then e.quantity else 0)
  }

  /** Total quantity of the records `cls` assigns to some element. */
  function MatchedQuantity(cls: Equipment -> Option<nat>, recs: seq<Equipment>): int {
    if recs == [] then 0
    else
      var e := recs[|recs| - 1];
      MatchedQuantity(cls, recs[..|recs| - 1]) + (if cls(e).Some? then e.quantity else 0)
  }

  /** Sum of all counters of `items`. */
  function ItemsTotal(items: seq<InventoryItem>): int {
    if items == [] then 0 else ItemsTotal(items[..|items| - 1]) + items[|items| - 1].counts.Total()
  }

  /** All counters the first `n` elements receive from `recs`. */
  function TallyUpTo(cls: Equipment -> Option<nat>, recs: seq<Equipment>, n: nat): int {
    if n == 0 then 0
    else
      TallyUpTo(cls, recs, n - 1) +
        Tally(cls, recs, n - 1, Operational) + Tally(cls, recs, n - 1, Damaged) +
        Tally(cls, recs, n - 1, OutOfService) + Tally(cls, recs, n - 1, InMaintenance)
  }

  /** Appending a record adds its quantity to the counters of the first `n`
      elements exactly when it is assigned one of them. */
  lemma {:induction false} TallyUpToStep(cls: Equipment -> Option<nat>, recs: seq<Equipment>, n: nat)
    requires recs != []
    ensures TallyUpTo(cls, recs, n) ==
      TallyUpTo(cls, recs[..|recs| - 1], n) +
        (if cls(recs[|recs| - 1]).Some? && cls(recs[|recs| - 1]).value < n then recs[|recs| - 1].quantity else 0)
  {
    if n > 0 {
      TallyUpToStep(cls, recs, n - 1);
    }
  }

  lemma {:induction false} TallyUpToEmpty(cls: Equipment -> Option<nat>, n: nat)
    ensures TallyUpTo(cls, [], n) == 0
  {
    if n > 0 {
      TallyUpToEmpty(cls, n - 1);
    }
  }

  /** Every record is counted under at most one element and one status, so
      the counters of all elements add up to the quantity of the records
      assigned an element. */
  lemma {:induction false} TallyUpToAll(cls: Equipment -> Option<nat>, recs: seq<Equipment>)
    requires forall e :: cls(e).Some? ==> cls(e).value < |Elements|
    ensures TallyUpTo(cls, recs, |Elements|) == MatchedQuantity(cls, recs)
  {
    if recs == [] {
      TallyUpToEmpty(cls, |Elements|);
    } else {
      TallyUpToStep(cls, recs, |Elements|);
      TallyUpToAll(cls, recs[..|recs| - 1]);
    }
  }

  lemma {:induction false} ItemsTotalIsTally(cls: Equipment -> Option<nat>, recs: seq<Equipment>, items: seq<InventoryItem>, n: nat)
    requires n <= |items|
    requires forall k, st :: 0 <= k < |items| ==> items[k].counts.Get(st) == Tally(cls, recs, k, st)
    ensures ItemsTotal(items[..n]) == TallyUpTo(cls, recs, n)
  {
    if n > 0 {
      ItemsTotalIsTally(cls, recs, items, n - 1);
      assert items[..n][..n - 1] == items[..n - 1];
      var c := items[n - 1].counts;
      assert c.Total() == c.Get(Operational) + c.Get(Damaged) + c.Get(OutOfService) + c.Get(InMaintenance);
    }
  }

  /** The nine elements, in order, with every counter at zero. */
  function EmptyInventory(): (items: seq<InventoryItem>)
    ensures |items| == |Elements|
    ensures forall k :: 0 <= k < |items| ==> items[k] == InventoryItem(Elements[k], Counts(0, 0, 0, 0))
  {
    seq(|Elements|, k requires 0 <= k < |Elements| => InventoryItem(Elements[k], Counts(0, 0, 0, 0)))
  }

  /** The `forEach` over the room's records: each record adds its quantity
      to the counter of its status in the element `cls` assigns it, if any. */
  method CountRecords(cls: Equipment -> Option<nat>, recs: seq<Equipment>) returns (items: seq<InventoryItem>)
    requires forall e :: cls(e).Some? ==> cls(e).value < |Elements|
    ensures |items| == |Elements|
    ensures forall k :: 0 <= k < |items| ==> items[k].name == Elements[k]
    ensures forall k, st :: 0 <= k < |items| ==> items[k].counts.Get(st) == Tally(cls, recs, k, st)
    ensures ItemsTotal(items) == MatchedQuantity(cls, recs)
  {
    items := EmptyInventory();
    for i := 0 to |recs|
      invariant |items| == |Elements|
      invariant forall k :: 0 <= k < |items| ==> items[k].name == Elements[k]
      invariant forall k, st :: 0 <= k < |items| ==> items[k].counts.Get(st) == Tally(cls, recs[..i], k, st)
    {
      var e := recs[i];
      assert recs[..i + 1][..i] == recs[..i];
      var m := cls(e);
      if m.Some? {
        var k := m.value;
        items := items[k := items[k].(counts := items[k].counts.Add(e.status, e.quantity))];
      }
    }
    assert recs[..|recs|] == recs;
    ItemsTotalIsTally(cls, recs, items, |items|);
    assert items[..|items|] == items;
    TallyUpToAll(cls, recs);
  }

  lemma ElementOfInRange(types: seq<EquipmentType>)
    ensures forall e :: ElementOf(types)(e).Some? ==> ElementOf(types)(e).value < |Elements|
  {
  }

  /** `obtenerInventarioSala`: NotFound when the room does not exist;
      otherwise the nine elements in their fixed order, each counter holding
      the quantity of the room's records counted under that element and
      status, and all counters together holding exactly the quantity of the
      records that match an element. */
  method GetInventory(s: Store, roomId: int) returns (r: Result<RoomInventory>)
    ensures r.Failure? <==> FindRoom(s.rooms, roomId).None?
    ensures r.Failure? ==> r.error == NotFound
    ensures r.Success? ==> r.value.room in s.rooms && r.value.room.id == roomId
    ensures r.Success? ==> |r.value.items| == |Elements|
    ensures r.Success? ==> forall k :: 0 <= k < |r.value.items| ==> r.value.items[k].name == Elements[k]
    ensures r.Success? ==>
      forall k, st :: 0 <= k < |r.value.items| ==>
        r.value.items[k].counts.Get(st) == Tally(ElementOf(s.types), RecordsOf(s.equipment, roomId), k, st)
    ensures r.Success? ==>
      ItemsTotal(r.value.items) == MatchedQuantity(ElementOf(s.types), RecordsOf(s.equipment, roomId))
  {
    var room := FindRoom(s.rooms, roomId);
    if room.None? {
      return Failure(NotFound);
    }
    ElementOfInRange(s.types);
    var items := CountRecords(ElementOf(s.types), RecordsOf(s.equipment, roomId));
    return Success(RoomInventory(room.value, items));
  }
}
