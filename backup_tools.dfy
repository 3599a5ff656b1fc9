/**
 * The inventory tools of main_backup.py: `consultar_disponibilidad` and
 * `crear_reserva`, both returning structured replies. A catalog entry without
 * "total" counts as one room here (`hab.get("total", 1)`).
 */
module BackupTools {

  import opened Wrappers
  import opened Text
  import opened Inventory
  import opened JsonStore

  /** `hab.get("total", 1)`. */
  const Policy: TotalPolicy := DefaultTotal(1)

  function UnknownTypeMessage(tipo: string): string {
    "No se reconoce el tipo de habitación '" + tipo + "'."
  }

  function SoldOutMessage(tipo: string, fecha: string): string {
    "No quedan habitaciones '" + tipo + "' para la fecha " + fecha + "."
  }

  const BookedMessage := "Reserva realizada correctamente"
  const SaveFailedMessage := "Error al guardar la reserva"

  /** `consultar_disponibilidad(tipo_habitacion, fecha)` on the loaded catalog and
      reservation list. An unknown type is a refusal, never a zero-availability report; a
      report echoes the caller's spelling of the type, counts the slot, and never reports a
      negative number of free rooms. */
  function ConsultarDisponibilidad(catalog: seq<Room>, reservations: seq<Reservation>,
                                   tipo: string, fecha: string): (r: AvailabilityReply)
    ensures r.Refusal? <==> FirstMatch(catalog, tipo).None?
    ensures r.Refusal? ==> r.mensaje == UnknownTypeMessage(tipo)
    ensures r.Availability? ==>
      var room := catalog[FirstMatch(catalog, tipo).value];
      && r.tipo == tipo && r.fecha == fecha
      && Capacity(room, Policy) == Some(r.total)
      && r.reservadas == CountReserved(reservations, tipo, fecha)
      && r.disponibles == (if r.total > r.reservadas then r.total - r.reservadas else 0)
      && r.descripcion == (if room.descripcion.Some? then room.descripcion.value else "")
      && r.precio == room.precio
      && r.moneda == (if room.moneda.Some? then room.moneda.value else "")
  {
    match FirstMatch(catalog, tipo)
    case None => Refusal(UnknownTypeMessage(tipo))
    case Some(k) =>
      var room := catalog[k];
      var total := if room.total.Some? then room.total.value else 1;
      var count := CountReserved(reservations, tipo, fecha);
      var disponibles := total - count;
      Availability(
        tipo,
        if room.descripcion.Some? then room.descripcion.value else "",
        room.precio,
        if room.moneda.Some? then room.moneda.value else "",
        fecha, total, count,
        if disponibles > 0 then disponibles else 0)
  }

  /** On the same catalog and list, the writer's capacity check passes exactly when the
      availability query reports a free room. */
  lemma AdmitIffAvailable(catalog: seq<Room>, reservations: seq<Reservation>, tipo: string, fecha: string)
    ensures Admit(catalog, reservations, tipo, fecha, Policy).Admitted?
            <==> (var r := ConsultarDisponibilidad(catalog, reservations, tipo, fecha);
                  r.Availability? && r.disponibles > 0)
  {
  }

  /** The writer of this variant never meets an entry without a total. */
  lemma NeverMissingTotal(catalog: seq<Room>, reservations: seq<Reservation>, tipo: string, fecha: string)
    ensures !Admit(catalog, reservations, tipo, fecha, Policy).MissingTotal?
  {
  }

  /** Matching is case-insensitive: two spellings of one type get the same answer, except
      that each report echoes its own spelling. */
  lemma ConsultCaseInsensitive(catalog: seq<Room>, reservations: seq<Reservation>,
                               a: string, b: string, fecha: string)
    requires SameType(a, b)
    ensures var ra := ConsultarDisponibilidad(catalog, reservations, a, fecha);
            var rb := ConsultarDisponibilidad(catalog, reservations, b, fecha);
            ra.Availability? == rb.Availability?
            && (ra.Availability? ==> ra.(tipo := b) == rb)
  {
    FirstMatchSameType(catalog, a, b);
    CountSameType(reservations, a, b, fecha);
  }

  /** `crear_reserva(...)`: resolve the type, recount the slot, refuse when no room is
      left, otherwise append the new record to the loaded list and save the whole list.
      The record's id and timestamp (`uuid4`, `now()`) are parameters. A refused request
      neither appends nor saves; `ok` is true exactly when the save succeeded; and the
      capacity invariant survives the call. */
  method CrearReserva(store: Store, nombre: string, tipoHabitacion: string, fecha: string,
                      email: string, telefono: string, personas: int, id: string, timestamp: string)
    returns (reply: BookingReply)
    modifies store`reservationsFile
    ensures var rec := Reservation(id, nombre, tipoHabitacion, fecha, email, telefono, personas, timestamp);
            var verdict := Admit(old(store.Catalog()), old(store.Reservations()), tipoHabitacion, fecha, Policy);
            && (verdict.UnknownType? ==> reply == BookingReply(false, UnknownTypeMessage(tipoHabitacion), None))
            && (verdict.SoldOut? ==> reply == BookingReply(false, SoldOutMessage(tipoHabitacion, fecha), None))
            && (!verdict.Admitted? ==> store.reservationsFile == old(store.reservationsFile))
            && (reply.ok ==> verdict.Admitted? && reply == BookingReply(true, BookedMessage, Some(rec))
                             && store.Reservations() == old(store.Reservations()) + [rec])
            && (verdict.Admitted? && !reply.ok ==>
                  reply == BookingReply(false, SaveFailedMessage, None)
                  && (store.reservationsFile == old(store.reservationsFile) || store.reservationsFile == Corrupt))
    ensures WithinCapacity(old(store.Catalog()), old(store.Reservations()), Policy)
            ==> WithinCapacity(store.Catalog(), store.Reservations(), Policy)
  {
    var reservas := store.Reservations();
    var catalog := store.Catalog();
    ghost var before := reservas;

    var room := LookUpRoom(catalog, tipoHabitacion);
    if room.None? {
      return BookingReply(false, UnknownTypeMessage(tipoHabitacion), None);
    }
    var total := if room.value.total.Some? then room.value.total.value else 1;

    var count := CountReserved(reservas, tipoHabitacion, fecha);
    if total - count <= 0 {
      return BookingReply(false, SoldOutMessage(tipoHabitacion, fecha), None);
    }

    var reserva := Reservation(id, nombre, tipoHabitacion, fecha, email, telefono, personas, timestamp);
    reservas := reservas + [reserva];

    var saved := store.Save(reservas);
    if saved {
      reply := BookingReply(true, BookedMessage, Some(reserva));
    } else {
      reply := BookingReply(false, SaveFailedMessage, None);
    }

    if WithinCapacity(catalog, before, Policy) {
      if saved {
        AdmittedBookingKeepsCapacity(catalog, before, Policy, reserva);
      } else if store.reservationsFile == Corrupt {
        EmptyWithinCapacity(catalog, Policy);
      }
    }
  }

  /** One entry of `listar_tipos_habitaciones`' list: every key read with a default, the
      price `None` where the entry has none (the tool's default is ""). */
  datatype TypeSummary = TypeSummary(tipo: string, descripcion: string, precio: Option<int>,
                                     moneda: string, total: int)

  /** The summary of an entry: its type and price, its description and currency or "",
      and the total the writer enforces for it (1 when the entry has none). */
  predicate Lists(summary: TypeSummary, room: Room) {
    && summary.tipo == room.tipo
    && summary.descripcion == (if room.descripcion.Some? then room.descripcion.value else "")
    && summary.precio == room.precio
    && summary.moneda == (if room.moneda.Some? then room.moneda.value else "")
    && Capacity(room, Policy) == Some(summary.total)
  }

  /** `listar_tipos_habitaciones()`: one summary per catalog entry, in catalog order, built
      in a loop; the total each reports is the capacity `crear_reserva` checks against. */
  method ListarTiposHabitaciones(store: Store) returns (r: seq<TypeSummary>)
    ensures |r| == |store.Catalog()|
    ensures forall i :: 0 <= i < |r| ==> Lists(r[i], store.Catalog()[i])
  {
    var catalog := store.Catalog();
    r := [];
    var i := 0;
    while i < |catalog|
      invariant 0 <= i <= |catalog|
      invariant |r| == i
      invariant forall j :: 0 <= j < i ==> Lists(r[j], catalog[j])
    {
      var hab := catalog[i];
      r := r + [TypeSummary(
        hab.tipo,
        if hab.descripcion.Some? then hab.descripcion.value else "",
        hab.precio,
        if hab.moneda.Some? then hab.moneda.value else "",
        if hab.total.Some? then hab.total.value else 1)];
      i := i + 1;
    }
  }
}
