/**
 * The room inventory shared by every server variant: the catalog of room types
 * (`hotel_data.json`'s "habitaciones"), the reservation records
 * (`reservas.json`), the case-insensitive first-match lookup, the per-(type, date)
 * booking count, the capacity check of the reservation writer and the one
 * invariant that check maintains.
 */
module Inventory {

  import opened Wrappers
  import opened Text

  /** One catalog entry. Keys a document may leave out are `Option`s; "tipo" is read by
      indexing everywhere except main_backup.py's listing (`hab.get("tipo", "")`), so it is
      required here. */
  datatype Room = Room(
    tipo: string,
    descripcion: Option<string>,
    precio: Option<int>,
    moneda: Option<string>,
    total: Option<int>)

  /** One stored reservation. `tipoHabitacion` keeps the caller's spelling of the type,
      not the catalog's. */
  datatype Reservation = Reservation(
    id: string,
    nombre: string,
    tipoHabitacion: string,
    fecha: string,
    email: string,
    telefono: string,
    personas: int,
    timestamp: string)

  /** What the structured `consultar_disponibilidad` returns: the availability report
      (`"ok": True`) or a refusal carrying its message (`"ok": False`). */
  datatype AvailabilityReply =
    | Availability(tipo: string, descripcion: string, precio: Option<int>, moneda: string,
                   fecha: string, total: int, reservadas: nat, disponibles: nat)
    | Refusal(mensaje: string)

  /** What the structured `crear_reserva` returns: "ok", "mensaje" and, on success, "reserva". */
  datatype BookingReply = BookingReply(ok: bool, mensaje: string, reserva: Option<Reservation>)

  /** Room-type names are compared through `.lower()`. */
  predicate SameType(a: string, b: string) {
    Lower(a) == Lower(b)
  }

  /** Index of the first catalog entry whose type matches `tipo` case-insensitively (the
      `for hab in ...: if ...: break` scan). */
  function FirstMatch(catalog: seq<Room>, tipo: string): (r: Option<nat>)
    ensures r.Some? ==> r.value < |catalog| && SameType(catalog[r.value].tipo, tipo)
    ensures r.Some? ==> forall j :: 0 <= j < r.value ==> !SameType(catalog[j].tipo, tipo)
    ensures r.None? ==> forall j :: 0 <= j < |catalog| ==> !SameType(catalog[j].tipo, tipo)
  {
    if catalog == [] then None
    else if SameType(catalog[0].tipo, tipo) then Some(0)
    else match FirstMatch(catalog[1..], tipo)
      case None => None
      case Some(k) => Some(k + 1)
  }

  /** The lookup only sees the lower-case form of the requested type. */
  lemma FirstMatchSameType(catalog: seq<Room>, a: string, b: string)
    requires SameType(a, b)
    ensures FirstMatch(catalog, a) == FirstMatch(catalog, b)
  {
    var fa, fb := FirstMatch(catalog, a), FirstMatch(catalog, b);
    if fa.Some? && fb.Some? {
      assert !(fa.value < fb.value) && !(fb.value < fa.value);
    }
  }

  /** The imperative scan of the catalog: the first case-insensitive match wins. */
  method LookUpRoom(catalog: seq<Room>, tipo: string) returns (found: Option<Room>)
    ensures found.None? <==> FirstMatch(catalog, tipo).None?
    ensures found.Some? ==> found.value == catalog[FirstMatch(catalog, tipo).value]
  {
    var key := Lower(tipo);
    var i := 0;
    while i < |catalog|
      invariant 0 <= i <= |catalog|
      invariant forall j :: 0 <= j < i ==> !SameType(catalog[j].tipo, tipo)
    {
      if Lower(catalog[i].tipo) == key {
        found := Some(catalog[i]);
        return;
      }
      i := i + 1;
    }
    found := None;
  }

  /** A reservation occupies the (type, date) slot when its type matches in lower case and
      its date matches exactly. */
  predicate Occupies(r: Reservation, tipo: string, fecha: string) {
    Lower(r.tipoHabitacion) == Lower(tipo) && r.fecha == fecha
  }

  /** `sum(1 for r in reservas if ...)`: how many reservations occupy the slot. */
  function CountReserved(reservations: seq<Reservation>, tipo: string, fecha: string): (n: nat)
    ensures n <= |reservations|
    ensures n == 0 <==> forall i :: 0 <= i < |reservations| ==> !Occupies(reservations[i], tipo, fecha)
  {
    if reservations == [] then 0
    else
      var rest := reservations[..|reservations| - 1];
      CountReserved(rest, tipo, fecha)
      + (if Occupies(reservations[|reservations| - 1], tipo, fecha) then 1 else 0)
  }

  /** Appending a record adds one to its own slot's count and leaves every other slot alone. */
  lemma CountAppend(reservations: seq<Reservation>, r: Reservation, tipo: string, fecha: string)
    ensures CountReserved(reservations + [r], tipo, fecha)
            == CountReserved(reservations, tipo, fecha) + (if Occupies(r, tipo, fecha) then 1 else 0)
  {
    assert (reservations + [r])[..|reservations|] == reservations;
  }

  /** The count only sees the lower-case form of the requested type. */
  lemma {:induction false} CountSameType(reservations: seq<Reservation>, a: string, b: string, fecha: string)
    requires SameType(a, b)
    ensures CountReserved(reservations, a, fecha) == CountReserved(reservations, b, fecha)
  {
    if reservations != [] {
      CountSameType(reservations[..|reservations| - 1], a, b, fecha);
    }
  }

  /** Where a room's capacity comes from when its entry has no "total" key: main_backup.py
      falls back to a default (`hab.get("total", 1)`), main_new.py and main_simple.py index
      the key and fail. */
  datatype TotalPolicy = DefaultTotal(fallback: int) | TotalRequired

  function Capacity(room: Room, policy: TotalPolicy): Option<int> {
    match room.total
    case Some(n) => Some(n)
    case None => if policy.DefaultTotal? then Some(policy.fallback) else None
  }

  /** The writer's verdict on a request, before anything is written. */
  datatype Verdict =
    | UnknownType
    | MissingTotal
    | SoldOut(total: int, reserved: nat)
    | Admitted(total: int, reserved: nat)

  /** Steps 1-3 of the reservation writer: resolve the type, count the slot, refuse when
      `total - count <= 0`. */
  function Admit(catalog: seq<Room>, reservations: seq<Reservation>, tipo: string, fecha: string,
                 policy: TotalPolicy): (v: Verdict)
    ensures v.UnknownType? <==> FirstMatch(catalog, tipo).None?
    ensures (v.SoldOut? || v.Admitted?) ==> v.reserved == CountReserved(reservations, tipo, fecha)
    ensures v.Admitted? ==> v.reserved < v.total
    ensures v.SoldOut? ==> v.total <= v.reserved
    ensures FirstMatch(catalog, tipo).Some? ==>
              var c := Capacity(catalog[FirstMatch(catalog, tipo).value], policy);
              && (v.MissingTotal? <==> c.None?)
              && (c.Some? ==> (v.SoldOut? || v.Admitted?) && v.total == c.value
                              && (v.SoldOut? <==> c.value - v.reserved <= 0))
  {
    match FirstMatch(catalog, tipo)
    case None => UnknownType
    case Some(k) =>
      match Capacity(catalog[k], policy)
      case None => MissingTotal
      case Some(total) =>
        var n := CountReserved(reservations, tipo, fecha);
        if total - n <= 0 then SoldOut(total, n) else Admitted(total, n)
  }

  /** The capacity invariant at one (type, date) slot: when the catalog knows the type and
      its total, the slot holds no more reservations than that total (a non-positive total
      allows none). */
  predicate Fits(catalog: seq<Room>, reservations: seq<Reservation>, policy: TotalPolicy,
                 tipo: string, fecha: string)
  {
    match FirstMatch(catalog, tipo)
    case None => true
    case Some(k) =>
      match Capacity(catalog[k], policy)
      case None => true
      case Some(total) =>
        var n := CountReserved(reservations, tipo, fecha);
        n == 0 || n <= total
  }

  /** The engine's invariant: every (type, date) slot fits. */
  ghost predicate WithinCapacity(catalog: seq<Room>, reservations: seq<Reservation>, policy: TotalPolicy) {
    forall tipo, fecha :: Fits(catalog, reservations, policy, tipo, fecha)
  }

  /** No reservations: every slot fits. */
  lemma EmptyWithinCapacity(catalog: seq<Room>, policy: TotalPolicy)
    ensures WithinCapacity(catalog, [], policy)
  {
  }

  /** Sequential capacity invariant: appending the record of an admitted request keeps every
      slot within its total. The record is filed under the caller's spelling of the type;
      this is harmless because the lookup and the count both compare lower-case forms. */
  lemma AdmittedBookingKeepsCapacity(catalog: seq<Room>, reservations: seq<Reservation>,
                                     policy: TotalPolicy, r: Reservation)
    requires WithinCapacity(catalog, reservations, policy)
    requires Admit(catalog, reservations, r.tipoHabitacion, r.fecha, policy).Admitted?
    ensures WithinCapacity(catalog, reservations + [r], policy)
  {
    forall tipo, fecha
      ensures Fits(catalog, reservations + [r], policy, tipo, fecha)
    {
      assert Fits(catalog, reservations, policy, tipo, fecha);
      CountAppend(reservations, r, tipo, fecha);
      if Occupies(r, tipo, fecha) {
        FirstMatchSameType(catalog, tipo, r.tipoHabitacion);
        CountSameType(reservations, tipo, r.tipoHabitacion, fecha);
      }
    }
  }

  /** A slot that is full refuses further requests for it, whichever spelling of the type
      they use. */
  lemma FullSlotRefuses(catalog: seq<Room>, reservations: seq<Reservation>, policy: TotalPolicy,
                        tipo: string, other: string, fecha: string)
    requires SameType(tipo, other)
    requires FirstMatch(catalog, tipo).Some?
    requires Capacity(catalog[FirstMatch(catalog, tipo).value], policy)
             == Some(CountReserved(reservations, tipo, fecha))
    ensures Admit(catalog, reservations, other, fecha, policy).SoldOut?
  {
    FirstMatchSameType(catalog, tipo, other);
    CountSameType(reservations, tipo, other, fecha);
  }
}
