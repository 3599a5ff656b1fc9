/**
 * main_new.py's agent: the code fence around the intent reply, and
 * `_handle_reservation_request` — when the name, room type or date is missing,
 * the whole chat history and the user's text are read as one text, the missing
 * fields are taken from it, "hoy"/"mañana" give the date, and the request is
 * handed to the reservation writer once name, type and date are known.
 */
module NewAgent {

  import opened Wrappers
  import opened Text
  import opened Inventory
  import opened JsonStore
  import opened Dates
  import opened Chat
  import NewTools

  /** The fence rule on the stripped reply: text opening with "```json" loses its first
      seven and last three characters, other text opening with "```" its first and last
      three. */
  function Unfence(content: string): string {
    if StartsWith(content, "```json") then SliceDropping(content, 7, 3)
    else if StartsWith(content, "```") then SliceDropping(content, 3, 3)
    else content
  }

  /** The intent reply with surrounding whitespace and a "```json" or "```" fence removed. */
  function StripCodeFence(reply: string): string {
    Unfence(Strip(reply))
  }

  /** Three pieces put together are found again by slicing. */
  lemma FenceCuts(open: string, body: string, close: string)
    ensures var s := open + body + close;
            && s[..|open|] == open && s[|open|..|s| - |close|] == body
            && s[|open|..] == body + close
  {
  }

  /** A reply that begins and ends with a backquote is its own stripped form. */
  lemma FenceStripped(s: string)
    requires s != [] && s[0] == '`' && s[|s| - 1] == '`'
    ensures StripCodeFence(s) == Unfence(s)
  {
    StripKeeps(s);
  }

  /** A "```json" fence gives back exactly what it encloses. */
  lemma JsonFenceRemoved(body: string)
    ensures StripCodeFence("```json" + body + "```") == body
  {
    var s := "```json" + body + "```";
    FenceCuts("```json", body, "```");
    assert s[0] == '`' && s[|s| - 1] == '`';
    FenceStripped(s);
    assert StartsWith(s, "```json");
    assert Unfence(s) == s[7..|s| - 3];
  }

  /** A bare "```" fence gives back what it encloses, unless that begins with "json". */
  lemma PlainFenceRemoved(body: string)
    requires !StartsWith(body + "```", "json")
    ensures StripCodeFence("```" + body + "```") == body
  {
    var s := "```" + body + "```";
    FenceCuts("```", body, "```");
    assert s[0] == '`' && s[|s| - 1] == '`';
    FenceStripped(s);
    assert s == "```" + (body + "```");
    OpensWithoutJson(body + "```");
    assert Unfence(s) == s[3..|s| - 3];
  }

  /** A reply holding no backquote has no fence: it comes back only stripped. */
  lemma UnfencedKept(reply: string)
    requires forall i :: 0 <= i < |reply| ==> reply[i] != '`'
    ensures StripCodeFence(reply) == Strip(reply)
  {
    var t := TrimStart(reply);
    var s := Strip(reply);
    assert s == TrimEnd(t);
    if s != [] {
      assert s[0] == t[0] == reply[|reply| - |t|];
    }
  }

  lemma OpensWithoutJson(rest: string)
    requires !StartsWith(rest, "json")
    ensures StartsWith("```" + rest, "```") && !StartsWith("```" + rest, "```json")
  {
    var s := "```" + rest;
    if |rest| >= 4 {
      assert s[3..7] == rest[..4];
    }
  }

  /** The room-type keyword rule on the lower-cased history: "doble" together with "estándar"
      gives "Doble Estándar", otherwise "suite" together with "junior" gives "Suite Junior";
      "" when neither pair is present. */
  function KeywordType(low: string): (r: string)
    ensures r == "" || r == "Doble Estándar" || r == "Suite Junior"
    ensures r == "Doble Estándar" <==> Contains(low, "doble") && Contains(low, "estándar")
    ensures r == "Suite Junior" <==> !(Contains(low, "doble") && Contains(low, "estándar"))
                                     && Contains(low, "suite") && Contains(low, "junior")
  {
    if Contains(low, "doble") && Contains(low, "estándar") then "Doble Estándar"
    else if Contains(low, "suite") && Contains(low, "junior") then "Suite Junior"
    else ""
  }

  /** Text naming the catalog's "Suite Junior" in any capitalisation, and no double room,
      gets that type. */
  lemma KeywordFindsSuite(text: string)
    requires Contains(Lower(text), "suite junior") && !Contains(Lower(text), "doble")
    ensures KeywordType(Lower(text)) == "Suite Junior"
  {
    var low := Lower(text);
    ContainsIff(low, "suite junior");
    var i: nat :| OccursAt(low, "suite junior", i);
    assert low[i..i + 12] == "suite junior";
    assert low[i..i + 5] == "suite" by { assert low[i..i + 5] == low[i..i + 12][..5]; }
    assert low[i + 6..i + 12] == "junior" by { assert low[i + 6..i + 12] == low[i..i + 12][6..]; }
    assert OccursAt(low, "suite", i);
    assert OccursAt(low, "junior", i + 6);
    ContainsIff(low, "suite");
    ContainsIff(low, "junior");
  }

  /** One message's share of the history text: its content and a space. */
  function Spaced(msg: Message): string {
    msg.content + " "
  }

  /** `historial_texto`: every message of the history, the assistant's included, each
      followed by a space, and then the user's text. */
  function HistoryText(history: seq<Message>, input: string): string {
    AppendAll("", history, Spaced) + input
  }

  /** The history text around one message: what the earlier messages contribute, the
      message's content, and everything after it. */
  lemma MessageInHistory(history: seq<Message>, input: string, i: nat)
    requires i < |history|
    ensures HistoryText(history, input)
            == AppendAll("", history[..i], Spaced) + history[i].content
               + (" " + AppendAll("", history[i + 1..], Spaced) + input)
  {
    var before, after := AppendAll("", history[..i], Spaced), AppendAll("", history[i + 1..], Spaced);
    AppendAllElement("", history, Spaced, i);
    Regroup(before, history[i].content, after, input);
  }

  lemma Regroup(before: string, content: string, after: string, input: string)
    ensures before + (content + " ") + after + input == before + content + (" " + after + input)
  {
  }

  /** A word in any message, the assistant's included, or in the user's text, is in the
      history text, whatever its capitalisation. */
  lemma HistoryHolds(history: seq<Message>, input: string, w: string)
    requires (exists i :: 0 <= i < |history| && Contains(Lower(history[i].content), w))
             || Contains(Lower(input), w)
    ensures Contains(Lower(HistoryText(history, input)), w)
  {
    var all := AppendAll("", history, Spaced);
    if Contains(Lower(input), w) {
      assert HistoryText(history, input) == all + input + "";
      ContainsLowerSpliced(all, input, "", w);
    } else {
      var i :| 0 <= i < |history| && Contains(Lower(history[i].content), w);
      MessageInHistory(history, input, i);
      ContainsLowerSpliced(AppendAll("", history[..i], Spaced), history[i].content,
                           " " + AppendAll("", history[i + 1..], Spaced) + input, w);
    }
  }

  /** The rules that need a regular-expression engine, as functions of the history text: the
      last name after "soy", "me llamo" or "mi nombre es", stripped, and the last email
      address; each gives "" when it finds nothing. */
  datatype Extractors = Extractors(name: string -> string, email: string -> string)

  /** The date after the history branch: the intent reply's own, or else what the relative
      rule finds in the history text ("" when it finds nothing); `None` when the day after
      `today` cannot be represented. */
  function DateFrom(fecha: string, text: string, today: Date): (r: Option<string>)
    requires ValidDate(today)
    ensures r.None? <==> fecha == "" && RelativeDate(text, today).Overflow?
    ensures fecha != "" ==> r == Some(fecha)
  {
    if fecha != "" then Some(fecha)
    else
      match RelativeDate(text, today)
      case Dated(iso) => Some(iso)
      case NoMention => Some("")
      case Overflow => None
  }

  /** A missing date is today's when the text says "hoy", otherwise the next day's when it says
      "mañana", and stays missing when it says neither. */
  lemma DateFromMeaning(text: string, today: Date)
    requires ValidDate(today)
    ensures var r := DateFrom("", text, today);
            && (Contains(Lower(text), "hoy") ==> r.Some? && ParseIso(r.value) == Some(today))
            && (!Contains(Lower(text), "hoy") && Contains(Lower(text), "mañana") && today != LastDate
                ==> r.Some? && ParseIso(r.value) == NextDay(today))
            && (!Contains(Lower(text), "hoy") && !Contains(Lower(text), "mañana") ==> r == Some(""))
  {
    RelativeDateMeaning(text, today);
  }

  /** Name, email and room type after the history branch: each one missing takes what its
      rule finds in the history text; the phone is never looked for. */
  function Filled(d: Request, text: string, x: Extractors): (r: Request)
    ensures d.nombre != "" ==> r.nombre == d.nombre
    ensures d.email != "" ==> r.email == d.email
    ensures d.tipo != "" ==> r.tipo == d.tipo
    ensures d.nombre == "" ==> r.nombre == x.name(text)
    ensures d.email == "" ==> r.email == x.email(text)
    ensures d.tipo == "" ==> r.tipo == KeywordType(Lower(text))
    ensures r.tipo == d.tipo || r.tipo == "Doble Estándar" || r.tipo == "Suite Junior"
    ensures r.fecha == d.fecha && r.telefono == d.telefono && r.personas == d.personas
  {
    d.(nombre := if d.nombre == "" then x.name(text) else d.nombre,
       email := if d.email == "" then x.email(text) else d.email,
       tipo := if d.tipo == "" then KeywordType(Lower(text)) else d.tipo)
  }

  /** The request after the history branch, or `None` when the `OverflowError` escapes the
      handler. Only when the name, type or date is missing is the history read; then the
      missing fields are filled and the date comes from the relative rule. */
  function Completed(d: Request, text: string, x: Extractors, today: Date): (r: Option<Request>)
    requires ValidDate(today)
    ensures r.None? <==> (d.fecha == "" && RelativeDate(text, today).Overflow?)
    ensures r.Some? ==>
      var c := r.value;
      && (d.nombre != "" ==> c.nombre == d.nombre)
      && (d.email != "" ==> c.email == d.email)
      && (d.tipo != "" ==> c.tipo == d.tipo)
      && (d.fecha != "" ==> c.fecha == d.fecha)
      && c.telefono == d.telefono && c.personas == d.personas
      && (c.tipo == d.tipo || c.tipo == "Doble Estándar" || c.tipo == "Suite Junior")
      && (d.fecha == "" ==> Some(c.fecha) == DateFrom("", text, today))
      && (d.nombre == "" ==> c.nombre == x.name(text))
      && (d.tipo == "" ==> c.tipo == KeywordType(Lower(text)))
      && (d.email == "" && (d.nombre == "" || d.tipo == "" || d.fecha == "") ==> c.email == x.email(text))
    ensures d.nombre != "" && d.tipo != "" && d.fecha != "" ==> r == Some(d)
  {
    if d.nombre != "" && d.tipo != "" && d.fecha != "" then Some(d)
    else
      match DateFrom(d.fecha, text, today)
      case None => None
      case Some(f) => Some(Filled(d, text, x).(fecha := f))
  }

  /** A request without a date, read against a text saying "hoy", is for today; against one
      saying "mañana" but not "hoy", for the day after. */
  lemma RelativeFromText(d: Request, text: string, x: Extractors, today: Date)
    requires ValidDate(today) && d.fecha == ""
    ensures var r := Completed(d, text, x, today);
            && (Contains(Lower(text), "hoy") ==> r.Some? && ParseIso(r.value.fecha) == Some(today))
            && (!Contains(Lower(text), "hoy") && Contains(Lower(text), "mañana") && today != LastDate
                ==> r.Some? && ParseIso(r.value.fecha) == NextDay(today))
  {
    DateFromMeaning(text, today);
  }

  /** A request without a date, whose history says "hoy" in any message or in the user's
      text, is for today. */
  lemma TodayFromHistory(d: Request, history: seq<Message>, input: string, x: Extractors, today: Date)
    requires ValidDate(today) && d.fecha == ""
    requires (exists i :: 0 <= i < |history| && Contains(Lower(history[i].content), "hoy"))
             || Contains(Lower(input), "hoy")
    ensures var r := Completed(d, HistoryText(history, input), x, today);
            r.Some? && ParseIso(r.value.fecha) == Some(today)
  {
    HistoryHolds(history, input, "hoy");
    RelativeFromText(d, HistoryText(history, input), x, today);
  }

  /** A request without a type gets "Doble Estándar" when "doble" and "estándar" occur
      anywhere in the history, each in any message, the assistant's included, or in the
      user's text. */
  lemma DobleFromHistory(d: Request, history: seq<Message>, input: string, x: Extractors, today: Date)
    requires ValidDate(today) && d.tipo == ""
    requires (exists i :: 0 <= i < |history| && Contains(Lower(history[i].content), "doble"))
             || Contains(Lower(input), "doble")
    requires (exists i :: 0 <= i < |history| && Contains(Lower(history[i].content), "estándar"))
             || Contains(Lower(input), "estándar")
    ensures var r := Completed(d, HistoryText(history, input), x, today);
            r.Some? ==> r.value.tipo == "Doble Estándar"
  {
    HistoryHolds(history, input, "doble");
    HistoryHolds(history, input, "estándar");
  }

  /** The required fields, in the order the handler lists them. */
  const RequiredNames: seq<string> := ["nombre", "tipo_habitacion", "fecha"]

  function RequiredValues(d: Request): seq<string> {
    [d.nombre, d.tipo, d.fecha]
  }

  /** The handler asks for a field exactly when it is empty: the three answers, by name. */
  lemma MissingNamesEmpty(d: Request)
    ensures var m := MissingFields(RequiredNames, RequiredValues(d));
            && ("nombre" in m <==> d.nombre == "")
            && ("tipo_habitacion" in m <==> d.tipo == "")
            && ("fecha" in m <==> d.fecha == "")
  {
    var names, values := RequiredNames, RequiredValues(d);
    assert forall a, b :: 0 <= a < b < |names| ==> names[a] != names[b];
    MissingFieldNamed(names, values, 0);
    MissingFieldNamed(names, values, 1);
    MissingFieldNamed(names, values, 2);
  }

  /** The loop that builds `historial_texto`. */
  method ReadHistory(history: seq<Message>, input: string) returns (text: string)
    ensures text == HistoryText(history, input)
  {
    text := "";
    var i := 0;
    while i < |history|
      invariant 0 <= i <= |history|
      invariant text == AppendAll("", history[..i], Spaced)
    {
      text := text + (history[i].content + " ");
      assert history[..i + 1][..i] == history[..i];
      i := i + 1;
    }
    assert history[..i] == history;
    text := text + input;
  }

  /** The name, email and room-type rules of the history branch. */
  method FillFromText(intent: Request, text: string, x: Extractors) returns (d: Request)
    ensures d == Filled(intent, text, x)
  {
    d := intent;
    if d.nombre == "" {
      d := d.(nombre := x.name(text));
    }
    if d.email == "" {
      d := d.(email := x.email(text));
    }
    if d.tipo == "" {
      d := d.(tipo := KeywordType(Lower(text)));
    }
  }

  /** The history branch of the handler: `None` where the `OverflowError` escapes. */
  method CompleteRequest(intent: Request, history: seq<Message>, input: string, x: Extractors, today: Date)
    returns (r: Option<Request>)
    requires ValidDate(today)
    ensures r == Completed(intent, HistoryText(history, input), x, today)
  {
    if intent.nombre != "" && intent.tipo != "" && intent.fecha != "" {
      return Some(intent);
    }
    var text := ReadHistory(history, input);
    var d := FillFromText(intent, text, x);
    if d.fecha == "" {
      var low := Lower(text);
      if Contains(low, "hoy") {
        d := d.(fecha := FormatIso(today));
      } else if Contains(low, "mañana") {
        var next := NextDay(today);
        if next.None? {
          return None;
        }
        d := d.(fecha := FormatIso(next.value));
      }
    }
    assert Some(d.fecha) == DateFrom(intent.fecha, text, today);
    r := Some(d);
  }

  /** `_handle_reservation_request(intent_result, input_text, chat_history)`, with `today` for
      the clock: complete the request from the history when name, type or date is missing,
      ask for whatever of the three is still missing, and otherwise hand the request to
      `crear_reserva` with the email and phone as they stand and one guest unless the intent
      reply says otherwise. A crash or a request for data changes nothing, the writer is never
      called without name, type and date, and the capacity invariant survives the call. */
  method HandleReservation(store: Store, intent: Request, history: seq<Message>, input: string,
                           x: Extractors, today: Date, id: string, timestamp: string)
    returns (o: Outcome)
    requires ValidDate(today)
    modifies store`reservationsFile
    ensures var c := Completed(intent, HistoryText(history, input), x, today);
            && (o.Crashed? <==> c.None?)
            && (o.Crashed? ==> store.reservationsFile == old(store.reservationsFile))
            && (c.Some? ==>
                  var d := c.value;
                  var missing := MissingFields(RequiredNames, RequiredValues(d));
                  && (o.AskFor? <==> missing != [])
                  && (o.AskFor? ==> o.missing == missing && store.reservationsFile == old(store.reservationsFile))
                  && (o.Attempted? ==> d.nombre != "" && d.tipo != "" && d.fecha != "")
                  && (o.Attempted? && o.reply.ok ==>
                        store.Reservations() == old(store.Reservations())
                          + [Reservation(id, d.nombre, d.tipo, d.fecha, d.email, intent.telefono,
                                         Personas(intent), timestamp)])
                  && (o.Attempted? && !o.reply.ok ==>
                        store.reservationsFile == old(store.reservationsFile) || store.reservationsFile == Corrupt))
    ensures var c := Completed(intent, HistoryText(history, input), x, today);
            o.Attempted? ==>
              c.Some? &&
              var d := c.value;
              var v := Admit(old(store.Catalog()), old(store.Reservations()), d.tipo, d.fecha, NewTools.Policy);
              && (o.reply.ok ==> v.Admitted? && o.reply.mensaje == NewTools.BookedMessage(id))
              && (v.UnknownType? ==> o.reply == BookingReply(false, NewTools.UnknownTypeMessage(d.tipo), None))
              && (v.MissingTotal? ==> o.reply == BookingReply(false, NewTools.WriterKeyErrorMessage, None))
              && (v.SoldOut? ==> o.reply == BookingReply(false, NewTools.SoldOutMessage(d.tipo, d.fecha), None))
              && (v.Admitted? && !o.reply.ok ==> o.reply == BookingReply(false, NewTools.SaveFailedMessage, None))
    ensures WithinCapacity(old(store.Catalog()), old(store.Reservations()), NewTools.Policy)
            ==> WithinCapacity(store.Catalog(), store.Reservations(), NewTools.Policy)
  {
    var c := CompleteRequest(intent, history, input, x, today);
    if c.None? {
      return Crashed;
    }
    var d := c.value;
    var missing := MissingFields(RequiredNames, RequiredValues(d));
    if missing != [] {
      return AskFor(missing);
    }
    MissingNamesEmpty(d);
    var reply := NewTools.CrearReserva(store, d.nombre, d.tipo, d.fecha, d.email, d.telefono,
                                       Personas(d), id, timestamp);
    o := Attempted(reply);
  }
}
