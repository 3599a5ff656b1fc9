/**
 * The inventory tools of main_simple.py, which answer with formatted text
 * instead of structured replies: `consultar_disponibilidad`, `crear_reserva`,
 * `listar_tipos_habitaciones` and `listar_reservas`. Catalog entries are indexed
 * for "total" and "precio"; a missing key raises `KeyError`, which each tool's
 * `except` turns into an error text naming the key.
 */
module SimpleTools {

  import opened Wrappers
  import opened Text
  import opened Inventory
  import opened JsonStore

  const Policy: TotalPolicy := TotalRequired

  /** The catalog's type names, in catalog order. */
  function TypeNames(catalog: seq<Room>): (names: seq<string>)
    ensures |names| == |catalog| && forall i :: 0 <= i < |catalog| ==> names[i] == catalog[i].tipo
  {
    seq(|catalog|, i requires 0 <= i < |catalog| => catalog[i].tipo)
  }

  const UnknownTypePrefix := "Los tipos disponibles son: "

  function UnknownTypeText(tipo: string, catalog: seq<Room>): string {
    "No encontré el tipo de habitación '" + tipo + "'. " + UnknownTypePrefix + Join(TypeNames(catalog), ", ")
  }

  /** The line stating how many rooms are free: never a negative count. */
  function FreeLine(disponibles: int, total: int): string {
    "🏠 Disponibles: " + IntToString(if disponibles > 0 then disponibles else 0) + " de "
    + IntToString(total) + " habitaciones\n"
  }

  const AvailableLine := "✅ Hay habitaciones disponibles para reservar"
  /** Written in two pieces: the solver checks that '✅' is absent piece by piece, where the
      whole literal at once is beyond its budget. */
  const FullLine := "❌ No hay habitaciones" + " disponibles para esta fecha"

  function AvailabilityText(fecha: string, tipo: string, precio: int, moneda: string,
                            disponibles: int, total: int): string
  {
    "📊 Disponibilidad para " + fecha + ":\n"
    + "🛏️ " + tipo + "\n"
    + "💰 " + IntToString(precio) + " " + moneda + " por noche\n"
    + FreeLine(disponibles, total)
    + (if disponibles > 0 then AvailableLine else FullLine)
  }

  /** Only the "available" line carries the mark '✅'. */
  lemma AvailabilityLabelsLackMark()
    ensures '✅' !in "📊 Disponibilidad para " && '✅' !in ":\n" && '✅' !in "🛏️ " && '✅' !in "\n"
    ensures '✅' !in "💰 " && '✅' !in " " && '✅' !in " por noche\n"
    ensures '✅' !in "🏠 Disponibles: " && '✅' !in " de " && '✅' !in " habitaciones\n"
  {
  }

  /** The two closing lines: only the "available" one carries the mark. */
  lemma ClosingLinesMark()
    ensures '✅' in AvailableLine && '✅' !in FullLine
  {
    assert AvailableLine[0] == '✅';
  }

  /** The availability text carries the mark '✅' exactly when rooms are free, provided the
      date, the type and the currency do not carry it themselves. */
  lemma AvailabilityTextMark(fecha: string, tipo: string, precio: int, moneda: string,
                             disponibles: int, total: int)
    ensures '✅' !in fecha && '✅' !in tipo && '✅' !in moneda
            ==> ('✅' in AvailabilityText(fecha, tipo, precio, moneda, disponibles, total) <==> disponibles > 0)
  {
    AvailabilityLabelsLackMark();
    ClosingLinesMark();
    NumberLacks(precio, '✅');
    NumberLacks(if disponibles > 0 then disponibles else 0, '✅');
    NumberLacks(total, '✅');
  }

  /** `consultar_disponibilidad(tipo_habitacion, fecha)` as text. An unknown type lists every
      catalog type; a missing "total" or "precio" gives the `KeyError` text; otherwise the
      text reports `max(0, total - count)` free rooms and carries the "available" line
      exactly when `total - count > 0`. */
  function ConsultarDisponibilidad(catalog: seq<Room>, reservations: seq<Reservation>,
                                   tipo: string, fecha: string): (r: string)
    ensures FirstMatch(catalog, tipo).None? ==> r == UnknownTypeText(tipo, catalog)
    ensures FirstMatch(catalog, tipo).Some? ==>
      var room := catalog[FirstMatch(catalog, tipo).value];
      var count := CountReserved(reservations, tipo, fecha);
      && (room.total.None? ==> r == "Error consultando disponibilidad: 'total'")
      && (room.total.Some? && room.precio.None? ==> r == "Error consultando disponibilidad: 'precio'")
      && (room.total.Some? && room.precio.Some? ==>
            var moneda := if room.moneda.Some? then room.moneda.value else "EUR";
            && Contains(r, FreeLine(room.total.value - count, room.total.value))
            && ('✅' !in fecha && '✅' !in room.tipo && '✅' !in moneda
                ==> ('✅' in r <==> room.total.value - count > 0)))
  {
    match FirstMatch(catalog, tipo)
    case None => UnknownTypeText(tipo, catalog)
    case Some(k) =>
      var room := catalog[k];
      if room.total.None? then "Error consultando disponibilidad: 'total'"
      else
        var disponibles := room.total.value - CountReserved(reservations, tipo, fecha);
        if room.precio.None? then "Error consultando disponibilidad: 'precio'"
        else
          var moneda := if room.moneda.Some? then room.moneda.value else "EUR";
          var text := AvailabilityText(fecha, room.tipo, room.precio.value, moneda, disponibles, room.total.value);
          AvailabilityTextMark(fecha, room.tipo, room.precio.value, moneda, disponibles, room.total.value);
          ContainsSpliced(
            "📊 Disponibilidad para " + fecha + ":\n" + "🛏️ " + room.tipo + "\n"
            + "💰 " + IntToString(room.precio.value) + " " + moneda + " por noche\n",
            FreeLine(disponibles, room.total.value),
            if disponibles > 0 then AvailableLine else FullLine);
          text
  }

  /** The refusal for an unknown type names every catalog type, in catalog order, separated
      by ", ". */
  lemma UnknownTypeNamesEveryType(catalog: seq<Room>, tipo: string, i: nat)
    requires i < |catalog|
    ensures var names := TypeNames(catalog);
            UnknownTypeText(tipo, catalog)
            == "No encontré el tipo de habitación '" + tipo + "'. " + UnknownTypePrefix
               + Join(names[..i], ", ") + (if i > 0 then ", " else "") + catalog[i].tipo
               + (if i + 1 < |catalog| then ", " + Join(names[i + 1..], ", ") else "")
  {
    JoinElement(TypeNames(catalog), ", ", i);
  }

  /** No field printed ahead of the email line carries the email mark '📧'. */
  predicate MailFree(rec: Reservation) {
    '📧' !in rec.id && '📧' !in rec.nombre && '📧' !in rec.tipoHabitacion && '📧' !in rec.fecha
  }

  /** The title and the closing line of the confirmation carry no email mark. */
  lemma ConfirmationFrameLacksMail()
    ensures '📧' !in "✅ **¡Reserva Confirmada!**\n\n"
    ensures '📧' !in "\n¡Gracias por elegir Hotel AselvIA! 🏨"
  {
  }

  /** The field labels of the confirmation carry no email mark. */
  lemma ConfirmationLabelsLackMail()
    ensures '📧' !in "🎫 **ID:** " && '📧' !in "👤 **Cliente:** " && '📧' !in "🛏️ **Habitación:** "
    ensures '📧' !in "📅 **Fecha:** " && '📧' !in "👥 **Personas:** " && '📧' !in "\n"
  {
  }

  /** The confirmation text of a created reservation; it has an email line only when the
      email is non-empty. */
  function Confirmation(rec: Reservation): (r: string)
    ensures Contains(r, "🎫 **ID:** " + rec.id + "\n")
    ensures MailFree(rec) ==> ('📧' in r <==> rec.email != "")
  {
    var head := "✅ **¡Reserva Confirmada!**\n\n";
    var ticket := "🎫 **ID:** " + rec.id + "\n";
    var details :=
      "👤 **Cliente:** " + rec.nombre + "\n"
      + "🛏️ **Habitación:** " + rec.tipoHabitacion + "\n"
      + "📅 **Fecha:** " + rec.fecha + "\n"
      + "👥 **Personas:** " + IntToString(rec.personas) + "\n";
    var mail := if rec.email != "" then "📧 **Email:** " + rec.email + "\n" else "";
    var rest := details + mail + "\n¡Gracias por elegir Hotel AselvIA! 🏨";
    NumberLacks(rec.personas, '📧');
    ConfirmationFrameLacksMail();
    ConfirmationLabelsLackMail();
    ContainsSpliced(head, ticket, rest);
    head + ticket + rest
  }

  function UnknownTypeError(tipo: string): string {
    "❌ Error: No existe el tipo de habitación '" + tipo + "'"
  }

  function SoldOutError(tipo: string, fecha: string): string {
    "❌ No hay habitaciones " + tipo + " disponibles para " + fecha
  }

  const KeyErrorText := "❌ Error creando reserva: 'total'"
  const SaveFailedText := "❌ Error guardando la reserva"

  /** `crear_reserva(...)` as text: the same check-then-append-then-save as the structured
      writers. An unknown type, a missing "total" or a full slot is refused with its own
      text, without appending or saving; an admitted request either is stored (appended at
      the end) and confirmed, or reports the failed save. The capacity invariant survives
      the call. */
  method CrearReserva(store: Store, nombre: string, tipoHabitacion: string, fecha: string,
                      email: string, telefono: string, personas: int, id: string, timestamp: string)
    returns (r: string)
    modifies store`reservationsFile
    ensures var rec := Reservation(id, nombre, tipoHabitacion, fecha, email, telefono, personas, timestamp);
            var verdict := Admit(old(store.Catalog()), old(store.Reservations()), tipoHabitacion, fecha, Policy);
            && (verdict.UnknownType? ==> r == UnknownTypeError(tipoHabitacion))
            && (verdict.MissingTotal? ==> r == KeyErrorText)
            && (verdict.SoldOut? ==> r == SoldOutError(tipoHabitacion, fecha))
            && (!verdict.Admitted? ==> store.reservationsFile == old(store.reservationsFile))
            && (verdict.Admitted? ==>
                  || (r == Confirmation(rec) && store.Reservations() == old(store.Reservations()) + [rec])
                  || (r == SaveFailedText
                      && (store.reservationsFile == old(store.reservationsFile) || store.reservationsFile == Corrupt)))
    ensures WithinCapacity(old(store.Catalog()), old(store.Reservations()), Policy)
            ==> WithinCapacity(store.Catalog(), store.Reservations(), Policy)
  {
    var catalog := store.Catalog();
    var habitacion := LookUpRoom(catalog, tipoHabitacion);
    if habitacion.None? {
      return UnknownTypeError(tipoHabitacion);
    }

    var reservas := store.Reservations();
    ghost var before := reservas;
    var count := CountReserved(reservas, tipoHabitacion, fecha);
    if habitacion.value.total.None? {
      return KeyErrorText;
    }
    if habitacion.value.total.value - count <= 0 {
      return SoldOutError(tipoHabitacion, fecha);
    }

    var nueva := Reservation(id, nombre, tipoHabitacion, fecha, email, telefono, personas, timestamp);
    reservas := reservas + [nueva];

    var saved := store.Save(reservas);
    if saved {
      r := Confirmation(nueva);
    } else {
      r := SaveFailedText;
    }

    if WithinCapacity(catalog, before, Policy) {
      if saved {
        AdmittedBookingKeepsCapacity(catalog, before, Policy, nueva);
      } else if store.reservationsFile == Corrupt {
        EmptyWithinCapacity(catalog, Policy);
      }
    }
  }

  const NoReservationsText := "📝 No hay reservas registradas actualmente."

  function ReservationsHeader(n: nat): string {
    "📝 **Reservas Actuales (" + NatToString(n) + " total)**\n\n"
  }

  /** The block `listar_reservas` prints for one reservation. */
  function Entry(res: Reservation): string {
    var lines :=
      "🎫 **" + res.id + "**\n"
      + "👤 " + res.nombre + "\n"
      + "🛏️ " + res.tipoHabitacion + "\n"
      + "📅 " + res.fecha + "\n"
      + "👥 " + IntToString(res.personas) + " persona(s)\n";
    (if res.email != "" then lines + "📧 " + res.email + "\n" else lines) + "\n"
  }

  /** The text of `listar_reservas` for a given list. */
  function ReservationsListing(list: seq<Reservation>): string {
    if list == [] then NoReservationsText else AppendAll(ReservationsHeader(|list|), list, Entry)
  }

  /** `listar_reservas` prints the reservations in stored order: the block of the i-th one
      stands after the header and the blocks of all earlier ones and before those of all
      later ones. */
  lemma EntriesInOrder(list: seq<Reservation>, i: nat)
    requires i < |list|
    ensures ReservationsListing(list)
            == AppendAll(ReservationsHeader(|list|), list[..i], Entry) + Entry(list[i])
               + AppendAll("", list[i + 1..], Entry)
  {
    AppendAllElement(ReservationsHeader(|list|), list, Entry, i);
  }

  /** A block has an email line exactly when the reservation has a non-empty email. */
  lemma EntryEmailLine(res: Reservation)
    requires MailFree(res)
    ensures '📧' in Entry(res) <==> res.email != ""
  {
    NumberLacks(res.personas, '📧');
    EntryLabelsLackMail();
  }

  /** The fixed parts of a block carry no email mark. */
  lemma EntryLabelsLackMail()
    ensures '📧' !in "🎫 **" && '📧' !in "**\n" && '📧' !in "👤 " && '📧' !in "\n"
    ensures '📧' !in "🛏️ " && '📧' !in "📅 " && '📧' !in "👥 " && '📧' !in " persona(s)\n"
  {
  }

  /** The header prints a decimal count that reads back as the number of reservations. */
  lemma HeaderCount(list: seq<Reservation>)
    ensures exists digits :: && ReservationsHeader(|list|) == "📝 **Reservas Actuales (" + digits + " total)**\n\n"
                             && AllDigits(digits) && DigitsValue(digits) == |list|
  {
    NatToStringRoundTrip(|list|);
    var digits := NatToString(|list|);
    assert ReservationsHeader(|list|) == "📝 **Reservas Actuales (" + digits + " total)**\n\n";
  }

  /** `listar_reservas()`: a fixed text for no reservations; otherwise the header with the
      count and one block per reservation, built by appending in a loop. */
  method ListarReservas(store: Store) returns (r: string)
    ensures r == ReservationsListing(store.Reservations())
  {
    var reservas := store.Reservations();
    if reservas == [] {
      return NoReservationsText;
    }
    r := ReservationsHeader(|reservas|);
    var i := 0;
    while i < |reservas|
      invariant 0 <= i <= |reservas|
      invariant r == AppendAll(ReservationsHeader(|reservas|), reservas[..i], Entry)
    {
      var res := reservas[i];
      assert reservas[..i + 1][..i] == reservas[..i];
      r := r + Entry(res);
      i := i + 1;
    }
    assert reservas[..i] == reservas;
  }

  const NoRoomsText := "No hay información de habitaciones disponible"
  const RoomsHeader := "🏨 **Habitaciones Disponibles - Hotel AselvIA**\n\n"

  /** The key whose absence makes `listar_tipos_habitaciones` raise on this entry: "precio"
      is read before "total". */
  function MissingKey(room: Room): Option<string> {
    if room.precio.None? then Some("precio") else if room.total.None? then Some("total") else None
  }

  /** The block printed for one entry (defined only when it has both keys). */
  function RoomBlock(room: Room): string
    requires MissingKey(room).None?
  {
    "🛏️ **" + room.tipo + "**\n"
    + "📝 " + (if room.descripcion.Some? then room.descripcion.value else "Sin descripción") + "\n"
    + "💰 " + IntToString(room.precio.value) + " "
    + (if room.moneda.Some? then room.moneda.value else "EUR") + " por noche\n"
    + "🏠 Total de habitaciones: " + IntToString(room.total.value) + "\n\n"
  }

  /** `acc` followed by the blocks of a catalog, or the key missing from its first faulty
      entry. */
  function RoomBlocks(acc: string, catalog: seq<Room>): (r: Result)
    ensures r.KeyMissing? <==> exists i :: 0 <= i < |catalog| && MissingKey(catalog[i]).Some?
  {
    if catalog == [] then Text(acc)
    else
      match RoomBlocks(acc, catalog[..|catalog| - 1])
      case KeyMissing(key) => KeyMissing(key)
      case Text(t) =>
        var last := catalog[|catalog| - 1];
        if MissingKey(last).Some? then KeyMissing(MissingKey(last).value) else Text(t + RoomBlock(last))
  }

  datatype Result = Text(text: string) | KeyMissing(key: string)

  /** `str(KeyError(key))` inside the tool's error text. */
  function TypesErrorText(key: string): string {
    "Error obteniendo tipos de habitaciones: '" + key + "'"
  }

  /** The text of `listar_tipos_habitaciones` for a given catalog. */
  function TypesListing(catalog: seq<Room>): string {
    if catalog == [] then NoRoomsText
    else match RoomBlocks(RoomsHeader, catalog)
      case KeyMissing(key) => TypesErrorText(key)
      case Text(t) => t
  }

  /** `listar_tipos_habitaciones()`: a fixed text for an empty catalog; otherwise the header
      and one block per entry in catalog order, built in a loop, unless some entry lacks
      "precio" or "total", in which case the text names the key missing from the first
      such entry. */
  method ListarTiposHabitaciones(store: Store) returns (r: string)
    ensures r == TypesListing(store.Catalog())
  {
    var catalog := store.Catalog();
    if catalog == [] {
      return NoRoomsText;
    }
    r := RoomsHeader;
    var i := 0;
    while i < |catalog|
      invariant 0 <= i <= |catalog|
      invariant RoomBlocks(RoomsHeader, catalog[..i]) == Text(r)
    {
      var hab := catalog[i];
      assert catalog[..i + 1][..i] == catalog[..i];
      if MissingKey(hab).Some? {
        FaultyEntryDecides(catalog, i);
        return TypesErrorText(MissingKey(hab).value);
      }
      r := r + RoomBlock(hab);
      i := i + 1;
    }
    assert catalog[..i] == catalog;
  }

  /** The first faulty entry decides the whole answer: the error text naming its missing key. */
  lemma FaultyEntryDecides(catalog: seq<Room>, i: nat)
    requires i < |catalog|
    requires RoomBlocks(RoomsHeader, catalog[..i]).Text?
    requires MissingKey(catalog[i]).Some?
    ensures TypesListing(catalog) == TypesErrorText(MissingKey(catalog[i]).value)
  {
    assert catalog[..i + 1][..i] == catalog[..i];
    FirstFaultDecides(RoomsHeader, catalog, i + 1);
  }

  /** Once a prefix of the catalog has a faulty entry, the whole catalog reports the same key. */
  lemma {:induction false} FirstFaultDecides(acc: string, catalog: seq<Room>, n: nat)
    requires n <= |catalog|
    requires RoomBlocks(acc, catalog[..n]).KeyMissing?
    ensures RoomBlocks(acc, catalog) == RoomBlocks(acc, catalog[..n])
    decreases |catalog| - n
  {
    if n < |catalog| {
      assert catalog[..n + 1][..n] == catalog[..n];
      FirstFaultDecides(acc, catalog, n + 1);
    } else {
      assert catalog[..n] == catalog;
    }
  }
}
