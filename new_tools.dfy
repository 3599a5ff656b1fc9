/**
 * The inventory tools of main_new.py: `crear_reserva`,
 * `consultar_disponibilidad` and `listar_tipos_habitaciones`, with structured
 * replies. Unlike main_backup.py, a catalog entry is indexed for "total"
 * (`hab["total"]`): an entry without it raises `KeyError('total')`, which the
 * tool's `except` turns into an error reply.
 */
module NewTools {

  import opened Wrappers
  import opened Text
  import opened Inventory
  import opened JsonStore

  /** `hab["total"]`. */
  const Policy: TotalPolicy := TotalRequired

  function UnknownTypeMessage(tipo: string): string {
    "Tipo de habitación '" + tipo + "' no encontrado"
  }

  function SoldOutMessage(tipo: string, fecha: string): string {
    "No hay habitaciones " + tipo + " disponibles para " + fecha
  }

  function BookedMessage(id: string): string {
    "Reserva creada exitosamente con ID " + id
  }

  const SaveFailedMessage := "Error guardando la reserva"

  /** `str(KeyError('total'))` inside the writer's error message. */
  const WriterKeyErrorMessage := "Error al crear reserva: 'total'"

  /** The same, inside the availability query's error message. */
  const QueryKeyErrorMessage := "Error consultando disponibilidad: 'total'"

  /** `consultar_disponibilidad(tipo_habitacion, fecha)`: an unknown type and an entry
      without "total" are refusals; otherwise the report echoes the caller's spelling, counts
      the slot, defaults "precio" to 0 and "moneda" to "EUR", and never reports a negative
      number of free rooms. */
  function ConsultarDisponibilidad(catalog: seq<Room>, reservations: seq<Reservation>,
                                   tipo: string, fecha: string): (r: AvailabilityReply)
    ensures FirstMatch(catalog, tipo).None? ==> r == Refusal(UnknownTypeMessage(tipo))
    ensures FirstMatch(catalog, tipo).Some? && catalog[FirstMatch(catalog, tipo).value].total.None?
            ==> r == Refusal(QueryKeyErrorMessage)
    ensures r.Availability? <==> FirstMatch(catalog, tipo).Some? && catalog[FirstMatch(catalog, tipo).value].total.Some?
    ensures r.Availability? ==>
      var room := catalog[FirstMatch(catalog, tipo).value];
      && r.tipo == tipo && r.fecha == fecha
      && room.total == Some(r.total)
      && r.reservadas == CountReserved(reservations, tipo, fecha)
      && r.disponibles == (if r.total > r.reservadas then r.total - r.reservadas else 0)
      && r.descripcion == (if room.descripcion.Some? then room.descripcion.value else "")
      && r.precio == Some(if room.precio.Some? then room.precio.value else 0)
      && r.moneda == (if room.moneda.Some? then room.moneda.value else "EUR")
  {
    match FirstMatch(catalog, tipo)
    case None => Refusal(UnknownTypeMessage(tipo))
    case Some(k) =>
      var room := catalog[k];
      match room.total
      case None => Refusal(QueryKeyErrorMessage)
      case Some(total) =>
        var count := CountReserved(reservations, tipo, fecha);
        var disponibles := total - count;
        Availability(
          tipo,
          if room.descripcion.Some? then room.descripcion.value else "",
          Some(if room.precio.Some? then room.precio.value else 0),
          if room.moneda.Some? then room.moneda.value else "EUR",
          fecha, total, count,
          if disponibles > 0 then disponibles else 0)
  }

  /** On the same catalog and list, the writer's capacity check passes exactly when the
      availability query reports a free room. */
  lemma AdmitIffAvailable(catalog: seq<Room>, reservations: seq<Reservation>, tipo: string, fecha: string)
    ensures Admit(catalog, reservations, tipo, fecha, Policy).Admitted?
            <==> (var r := ConsultarDisponibilidad(catalog, reservations, tipo, fecha);
                  r.Availability? && r.disponibles > 0)
  {
  }

  /** `crear_reserva(...)`, as in main_backup.py except for its messages and for an entry
      without "total", which is refused with the `KeyError` message. A refused request
      neither appends nor saves; `ok` is true exactly when the save succeeded; and the
      capacity invariant survives the call. */
  method CrearReserva(store: Store, nombre: string, tipoHabitacion: string, fecha: string,
                      email: string, telefono: string, personas: int, id: string, timestamp: string)
    returns (reply: BookingReply)
    modifies store`reservationsFile
    ensures var rec := Reservation(id, nombre, tipoHabitacion, fecha, email, telefono, personas, timestamp);
            var verdict := Admit(old(store.Catalog()), old(store.Reservations()), tipoHabitacion, fecha, Policy);
            && (verdict.UnknownType? ==> reply == BookingReply(false, UnknownTypeMessage(tipoHabitacion), None))
            && (verdict.MissingTotal? ==> reply == BookingReply(false, WriterKeyErrorMessage, None))
            && (verdict.SoldOut? ==> reply == BookingReply(false, SoldOutMessage(tipoHabitacion, fecha), None))
            && (!verdict.Admitted? ==> store.reservationsFile == old(store.reservationsFile))
            && (reply.ok ==> verdict.Admitted? && reply == BookingReply(true, BookedMessage(id), Some(rec))
                             && store.Reservations() == old(store.Reservations()) + [rec])
            && (verdict.Admitted? && !reply.ok ==>
                  reply == BookingReply(false, SaveFailedMessage, None)
                  && (store.reservationsFile == old(store.reservationsFile) || store.reservationsFile == Corrupt))
    ensures WithinCapacity(old(store.Catalog()), old(store.Reservations()), Policy)
            ==> WithinCapacity(store.Catalog(), store.Reservations(), Policy)
  {
    var reservas := store.Reservations();
    var catalog := store.Catalog();
    ghost var before := reservas;

    var room := LookUpRoom(catalog, tipoHabitacion);
    if room.None? {
      return BookingReply(false, UnknownTypeMessage(tipoHabitacion), None);
    }
    if room.value.total.None? {
      return BookingReply(false, WriterKeyErrorMessage, None);
    }
    var total := room.value.total.value;

    var count := CountReserved(reservas, tipoHabitacion, fecha);
    if total - count <= 0 {
      return BookingReply(false, SoldOutMessage(tipoHabitacion, fecha), None);
    }

    var reserva := Reservation(id, nombre, tipoHabitacion, fecha, email, telefono, personas, timestamp);
    reservas := reservas + [reserva];

    var saved := store.Save(reservas);
    if saved {
      reply := BookingReply(true, BookedMessage(id), Some(reserva));
    } else {
      reply := BookingReply(false, SaveFailedMessage, None);
    }

    if WithinCapacity(catalog, before, Policy) {
      if saved {
        AdmittedBookingKeepsCapacity(catalog, before, Policy, reserva);
      } else if store.reservationsFile == Corrupt {
        EmptyWithinCapacity(catalog, Policy);
      }
    }
  }

  /** One entry of `listar_tipos_habitaciones`' list. */
  datatype RoomSummary = RoomSummary(tipo: string, descripcion: string, precio: int, moneda: string, total: int)

  /** The list, or the single `{"error": ...}` entry the tool returns when it raises. */
  datatype TypesReply = Types(rooms: seq<RoomSummary>) | TypesError(mensaje: string)

  const ListKeyErrorMessage := "Error leyendo la base de datos: 'total'"

  /** The catalog has an entry without "total". */
  predicate LacksTotal(catalog: seq<Room>) {
    exists i :: 0 <= i < |catalog| && catalog[i].total.None?
  }

  /** The summary of an entry: its own type and total, its description, price and currency
      or their defaults ("", 0, "EUR"). */
  predicate Summarizes(summary: RoomSummary, room: Room) {
    && summary.tipo == room.tipo
    && room.total == Some(summary.total)
    && summary.descripcion == (if room.descripcion.Some? then room.descripcion.value else "")
    && summary.precio == (if room.precio.Some? then room.precio.value else 0)
    && summary.moneda == (if room.moneda.Some? then room.moneda.value else "EUR")
  }

  /** `listar_tipos_habitaciones()`: one summary per catalog entry, in catalog order, with the
      entry's own type and total and the defaults for the rest; an entry without "total"
      turns the whole answer into the error entry. */
  method ListarTiposHabitaciones(store: Store) returns (r: TypesReply)
    ensures r.TypesError? <==> LacksTotal(store.Catalog())
    ensures r.TypesError? ==> r.mensaje == ListKeyErrorMessage
    ensures r.Types? ==> |r.rooms| == |store.Catalog()|
                         && forall i :: 0 <= i < |r.rooms| ==> Summarizes(r.rooms[i], store.Catalog()[i])
  {
    var catalog := store.Catalog();
    var tipos: seq<RoomSummary> := [];
    var i := 0;
    while i < |catalog|
      invariant 0 <= i <= |catalog|
      invariant |tipos| == i
      invariant forall j :: 0 <= j < i ==> catalog[j].total.Some?
      invariant forall j :: 0 <= j < i ==> Summarizes(tipos[j], catalog[j])
    {
      var hab := catalog[i];
      if hab.total.None? {
        return TypesError(ListKeyErrorMessage);
      }
      tipos := tipos + [RoomSummary(
        hab.tipo,
        if hab.descripcion.Some? then hab.descripcion.value else "",
        if hab.precio.Some? then hab.precio.value else 0,
        if hab.moneda.Some? then hab.moneda.value else "EUR",
        hab.total.value)];
      i := i + 1;
    }
    r := Types(tipos);
  }
}
