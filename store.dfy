/**
 * The JSON-file data store: `hotel_data.json` (the catalog document) and
 * `reservas.json` (the reservation list). Each file is modelled by what reading
 * it would find, the loaders `cargar_hotel_data` / `cargar_reservas` by the
 * collection they hand back, and `guardar_reservas` by a rewrite of the whole
 * reservation file whose outcome the model does not control.
 */
module JsonStore {

  import opened Wrappers
  import opened Inventory

  /** What opening and parsing a JSON file finds. */
  datatype FileRead<T> = Absent | Corrupt | Loaded(content: T)

  /** `cargar_hotel_data().get("habitaciones", [])`: the catalog, where a missing file, an
      unreadable file and a document without "habitaciones" all give an empty catalog. */
  function LoadCatalog(f: FileRead<Option<seq<Room>>>): (rooms: seq<Room>)
    ensures rooms != [] ==> f.Loaded? && f.content == Some(rooms)
    ensures f.Loaded? && f.content.Some? ==> rooms == f.content.value
  {
    match f
    case Loaded(Some(rooms)) => rooms
    case _ => []
  }

  /** `cargar_reservas()`: a missing or unreadable file gives the empty list. */
  function LoadReservations(f: FileRead<seq<Reservation>>): (list: seq<Reservation>)
    ensures list != [] ==> f == Loaded(list)
    ensures f.Loaded? ==> list == f.content
  {
    match f
    case Loaded(list) => list
    case _ => []
  }

  /** The two files, as the tools find them. */
  class Store {
    var hotelFile: FileRead<Option<seq<Room>>>
    var reservationsFile: FileRead<seq<Reservation>>

    constructor (hotel: FileRead<Option<seq<Room>>>, reservations: FileRead<seq<Reservation>>)
      ensures hotelFile == hotel && reservationsFile == reservations
    {
      hotelFile := hotel;
      reservationsFile := reservations;
    }

    /** The catalog every tool works on. */
    function Catalog(): seq<Room>
      reads this
    {
      LoadCatalog(hotelFile)
    }

    /** The reservation list every tool works on. */
    function Reservations(): seq<Reservation>
      reads this
    {
      LoadReservations(reservationsFile)
    }

    /** `guardar_reservas(list)`: rewrites the reservation file with the whole list. On
        success a later load gives back exactly `list`; on failure the file was either
        never opened (unchanged) or truncated part-way through the write (unreadable). */
    method Save(list: seq<Reservation>) returns (ok: bool)
      modifies this`reservationsFile
      ensures ok ==> reservationsFile == Loaded(list) && Reservations() == list
      ensures !ok ==> reservationsFile == old(reservationsFile) || reservationsFile == Corrupt
    {
      ok :| true;
      if ok {
        reservationsFile := Loaded(list);
      } else {
        var truncated: bool :| true;
        if truncated {
          reservationsFile := Corrupt;
        }
      }
    }
  }
}
