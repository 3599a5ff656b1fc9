/**
 * main_backup.py's `_handle_reservation_request`: the reservation data of the
 * intent reply, completed from the last ten chat messages (each field still
 * empty takes what its rule finds in a human message), the five-field
 * required check, and the call to the reservation writer.
 */
module BackupAgent {

  import opened Wrappers
  import opened Text
  import opened Inventory
  import opened JsonStore
  import opened Dates
  import opened Chat
  import BackupTools

  /** The rules that need a regular-expression engine (the name, email and phone patterns),
      as functions of a message's text; each gives "" when it finds nothing. The name rule
      reads the lower-cased text, the email and phone rules the text as written. */
  datatype Extractors = Extractors(name: string -> string, email: string -> string, phone: string -> string)

  /** The room-type keyword rule on lower-cased text: "doble" together with "estándar" gives
      "Doble Estándar", otherwise "suite" gives "Suite Junior"; "" when neither applies. */
  function KeywordType(low: string): (r: string)
    ensures r == "" || r == "Doble Estándar" || r == "Suite Junior"
    ensures r == "Doble Estándar" <==> Contains(low, "doble") && Contains(low, "estándar")
    ensures r == "Suite Junior" <==> !(Contains(low, "doble") && Contains(low, "estándar")) && Contains(low, "suite")
  {
    if Contains(low, "doble") && Contains(low, "estándar") then "Doble Estándar"
    else if Contains(low, "suite") then "Suite Junior"
    else ""
  }

  /** Text naming the catalog's "Doble Estándar" in any capitalisation gets that type, even
      when it also mentions a suite. */
  lemma KeywordFindsDoble(text: string)
    requires Contains(Lower(text), "doble estándar")
    ensures KeywordType(Lower(text)) == "Doble Estándar"
  {
    var low := Lower(text);
    ContainsIff(low, "doble estándar");
    var i: nat :| OccursAt(low, "doble estándar", i);
    assert low[i..i + 14] == "doble estándar";
    assert low[i..i + 5] == "doble" by { assert low[i..i + 5] == low[i..i + 14][..5]; }
    assert low[i + 6..i + 14] == "estándar" by { assert low[i + 6..i + 14] == low[i..i + 14][6..]; }
    assert OccursAt(low, "doble", i);
    assert OccursAt(low, "estándar", i + 6);
    ContainsIff(low, "doble");
    ContainsIff(low, "estándar");
  }

  /** A human message's date mention, normalised by `_parse_date`; "" when it has none. */
  function MentionDate(low: string): (r: string)
    ensures r == "" || IsIsoDate(r)
  {
    match DateMention(low)
    case None => ""
    case Some(m) =>
      MentionParsesToIso(low);
      ParseDate(m)
  }

  /** What one message adds: in a human message each field still empty takes what its rule
      finds; the assistant's messages add nothing. */
  function Step(d: Request, msg: Message, x: Extractors): Request {
    if !msg.human then d
    else
      var low := Lower(msg.content);
      d.(nombre := if d.nombre == "" then x.name(low) else d.nombre,
         email := if d.email == "" then x.email(msg.content) else d.email,
         telefono := if d.telefono == "" then x.phone(msg.content) else d.telefono,
         tipo := if d.tipo == "" then KeywordType(low) else d.tipo,
         fecha := if d.fecha == "" then MentionDate(low) else d.fecha)
  }

  /** The request after the messages, oldest first. */
  function Gathered(d: Request, msgs: seq<Message>, x: Extractors): Request {
    if msgs == [] then d else Step(Gathered(d, msgs[..|msgs| - 1], x), msgs[|msgs| - 1], x)
  }

  /** `chat_history[-10:]`. */
  function LastTen(history: seq<Message>): (r: seq<Message>)
    ensures |r| == if |history| > 10 then 10 else |history|
    ensures r == history[|history| - |r|..]
  {
    if |history| > 10 then history[|history| - 10..] else history
  }

  /** The history loop: the request of the intent reply, completed from the last ten
      messages. */
  method GatherRequest(intent: Request, history: seq<Message>, x: Extractors) returns (d: Request)
    ensures d == Gathered(intent, LastTen(history), x)
  {
    d := intent;
    var recent := LastTen(history);
    var i := 0;
    while i < |recent|
      invariant 0 <= i <= |recent|
      invariant d == Gathered(intent, recent[..i], x)
    {
      d := ReadMessage(d, recent[i], x);
      GatheredNext(intent, recent, i, x);
      i := i + 1;
    }
    assert recent[..i] == recent;
  }

  /** The loop body: a human message fills each field still empty with what its rule finds. */
  method ReadMessage(before: Request, msg: Message, x: Extractors) returns (d: Request)
    ensures d == Step(before, msg, x)
  {
    d := before;
    if msg.human {
      var content := Lower(msg.content);
      if d.nombre == "" {
        d := d.(nombre := x.name(content));
      }
      if d.email == "" {
        d := d.(email := x.email(msg.content));
      }
      if d.telefono == "" {
        d := d.(telefono := x.phone(msg.content));
      }
      if d.tipo == "" {
        d := d.(tipo := KeywordType(content));
      }
      if d.fecha == "" {
        var mention := DateMention(content);
        if mention.Some? {
          d := d.(fecha := ParseDate(mention.value));
        }
      }
    }
    ghost var next := Step(before, msg, x);
    assert d.nombre == next.nombre && d.email == next.email && d.telefono == next.telefono;
    assert d.tipo == next.tipo && d.fecha == next.fecha && d.personas == next.personas;
  }

  lemma GatheredNext(d: Request, msgs: seq<Message>, i: nat, x: Extractors)
    requires i < |msgs|
    ensures Gathered(d, msgs[..i + 1], x) == Step(Gathered(d, msgs[..i], x), msgs[i], x)
  {
    assert msgs[..i + 1][..i] == msgs[..i];
  }

  /** A field that is already filled is never overwritten, and the number of guests is never
      touched: the intent reply's values win over the history, and an earlier message's over
      a later one's. */
  lemma {:induction false} GatheredKeeps(d: Request, msgs: seq<Message>, x: Extractors)
    ensures var r := Gathered(d, msgs, x);
            && (d.nombre != "" ==> r.nombre == d.nombre)
            && (d.email != "" ==> r.email == d.email)
            && (d.telefono != "" ==> r.telefono == d.telefono)
            && (d.tipo != "" ==> r.tipo == d.tipo)
            && (d.fecha != "" ==> r.fecha == d.fecha)
            && r.personas == d.personas
  {
    if msgs != [] {
      GatheredKeeps(d, msgs[..|msgs| - 1], x);
    }
  }

  /** The room type is the intent reply's or one of the two the keyword rule names. */
  lemma {:induction false} GatheredTipo(d: Request, msgs: seq<Message>, x: Extractors)
    ensures var t := Gathered(d, msgs, x).tipo;
            t == d.tipo || t == "Doble Estándar" || t == "Suite Junior"
  {
    if msgs != [] {
      GatheredTipo(d, msgs[..|msgs| - 1], x);
    }
  }

  /** The keyword rule names a type for this message: it is a human one and its lower-cased
      text holds the keywords. */
  predicate Fires(msg: Message) {
    msg.human && KeywordType(Lower(msg.content)) != ""
  }

  /** A type missing from the intent reply is taken from the first human message for which
      the keyword rule names one; it stays missing when the rule fires for none. */
  lemma {:induction false} GatheredTipoFirst(d: Request, msgs: seq<Message>, x: Extractors)
    requires d.tipo == ""
    ensures Gathered(d, msgs, x).tipo == "" <==> forall i :: 0 <= i < |msgs| ==> !Fires(msgs[i])
    ensures forall i :: 0 <= i < |msgs| && Fires(msgs[i]) && (forall j :: 0 <= j < i ==> !Fires(msgs[j]))
                        ==> Gathered(d, msgs, x).tipo == KeywordType(Lower(msgs[i].content))
  {
    if msgs != [] {
      var n := |msgs| - 1;
      var front, last := msgs[..n], msgs[n];
      var g := Gathered(d, front, x);
      GatheredTipoFirst(d, front, x);
      StepTipo(g, last, x);
      var t := Gathered(d, msgs, x).tipo;
      assert t == if last.human && g.tipo == "" then KeywordType(Lower(last.content)) else g.tipo;
      assert forall j :: 0 <= j < n ==> front[j] == msgs[j];
      forall i | 0 <= i < |msgs| && Fires(msgs[i]) && (forall j :: 0 <= j < i ==> !Fires(msgs[j]))
        ensures t == KeywordType(Lower(msgs[i].content))
      {
        if i < n {
          assert Fires(front[i]) && forall j :: 0 <= j < i ==> !Fires(front[j]);
        } else {
          assert forall j :: 0 <= j < n ==> !Fires(front[j]);
        }
      }
    }
  }

  /** The type after one message. */
  lemma StepTipo(g: Request, msg: Message, x: Extractors)
    ensures Step(g, msg, x).tipo == if msg.human && g.tipo == "" then KeywordType(Lower(msg.content)) else g.tipo
  {
  }

  /** The date is the intent reply's, or a `YYYY-MM-DD` date `_parse_date` made from a
      message. */
  lemma {:induction false} GatheredFecha(d: Request, msgs: seq<Message>, x: Extractors)
    ensures var f := Gathered(d, msgs, x).fecha;
            f == d.fecha || IsIsoDate(f)
  {
    if msgs != [] {
      GatheredFecha(d, msgs[..|msgs| - 1], x);
    }
  }

  /** The human messages, in order. */
  function Humans(msgs: seq<Message>): (r: seq<Message>)
    ensures |r| <= |msgs|
    ensures forall k :: 0 <= k < |r| ==> r[k].human && r[k] in msgs
  {
    if msgs == [] then []
    else
      var last := msgs[|msgs| - 1];
      Humans(msgs[..|msgs| - 1]) + (if last.human then [last] else [])
  }

  /** Only human messages count: dropping the assistant's changes nothing. */
  lemma {:induction false} GatheredHumansOnly(d: Request, msgs: seq<Message>, x: Extractors)
    ensures Gathered(d, msgs, x) == Gathered(d, Humans(msgs), x)
  {
    if msgs != [] {
      var front, last := msgs[..|msgs| - 1], msgs[|msgs| - 1];
      GatheredHumansOnly(d, front, x);
      if last.human {
        var h := Humans(front) + [last];
        assert h[..|h| - 1] == Humans(front);
      } else {
        assert Humans(msgs) == Humans(front);
      }
    }
  }

  /** The history read in two runs: the second run completes what the first left. */
  lemma {:induction false} GatheredSplit(d: Request, a: seq<Message>, b: seq<Message>, x: Extractors)
    ensures Gathered(d, a + b, x) == Gathered(Gathered(d, a, x), b, x)
  {
    if b == [] {
      assert a + b == a;
    } else {
      GatheredSplit(d, a, b[..|b| - 1], x);
      assert (a + b)[..|a + b| - 1] == a + b[..|b| - 1];
    }
  }

  /** The required fields, in the order the handler lists them. */
  const RequiredNames: seq<string> := ["nombre", "tipo_habitacion", "fecha", "email", "telefono"]

  function RequiredValues(d: Request): seq<string> {
    [d.nombre, d.tipo, d.fecha, d.email, d.telefono]
  }

  /** The handler asks for a field exactly when it is empty: the five answers, by name. */
  lemma MissingNamesEmpty(d: Request)
    ensures var m := MissingFields(RequiredNames, RequiredValues(d));
            && ("nombre" in m <==> d.nombre == "")
            && ("tipo_habitacion" in m <==> d.tipo == "")
            && ("fecha" in m <==> d.fecha == "")
            && ("email" in m <==> d.email == "")
            && ("telefono" in m <==> d.telefono == "")
  {
    var names, values := RequiredNames, RequiredValues(d);
    assert forall a, b :: 0 <= a < b < |names| ==> names[a] != names[b];
    MissingFieldNamed(names, values, 0);
    MissingFieldNamed(names, values, 1);
    MissingFieldNamed(names, values, 2);
    MissingFieldNamed(names, values, 3);
    MissingFieldNamed(names, values, 4);
  }

  /** `_handle_reservation_request(intent_result, input_text, chat_history)`: complete the
      request from the history, ask for whatever of the five fields is still missing, and
      otherwise hand the request to `crear_reserva`, with one guest unless the intent reply
      says otherwise. The writer is never called with a missing field; a request for data
      changes nothing; and the capacity invariant survives the call. */
  method HandleReservation(store: Store, intent: Request, history: seq<Message>, x: Extractors,
                           id: string, timestamp: string)
    returns (o: Outcome)
    modifies store`reservationsFile
    ensures var d := Gathered(intent, LastTen(history), x);
            var missing := MissingFields(RequiredNames, RequiredValues(d));
            && !o.Crashed?
            && (o.AskFor? <==> missing != [])
            && (o.AskFor? ==> o.missing == missing && store.reservationsFile == old(store.reservationsFile))
            && (o.Attempted? ==> d.nombre != "" && d.tipo != "" && d.fecha != "" && d.email != "" && d.telefono != "")
            && (o.Attempted? && o.reply.ok ==>
                  store.Reservations() == old(store.Reservations())
                    + [Reservation(id, d.nombre, d.tipo, d.fecha, d.email, d.telefono, Personas(intent), timestamp)])
            && (o.Attempted? && !o.reply.ok ==>
                  store.reservationsFile == old(store.reservationsFile) || store.reservationsFile == Corrupt)
    ensures var d := Gathered(intent, LastTen(history), x);
            var v := Admit(old(store.Catalog()), old(store.Reservations()), d.tipo, d.fecha, BackupTools.Policy);
            o.Attempted? ==>
              && (o.reply.ok ==> v.Admitted?)
              && (v.UnknownType? ==> o.reply == BookingReply(false, BackupTools.UnknownTypeMessage(d.tipo), None))
              && (v.SoldOut? ==> o.reply == BookingReply(false, BackupTools.SoldOutMessage(d.tipo, d.fecha), None))
              && (v.Admitted? && !o.reply.ok ==> o.reply == BookingReply(false, BackupTools.SaveFailedMessage, None))
              && (o.reply.ok ==> o.reply.mensaje == BackupTools.BookedMessage)
    ensures WithinCapacity(old(store.Catalog()), old(store.Reservations()), BackupTools.Policy)
            ==> WithinCapacity(store.Catalog(), store.Reservations(), BackupTools.Policy)
  {
    var d := GatherRequest(intent, history, x);
    GatheredKeeps(intent, LastTen(history), x);
    var missing := MissingFields(RequiredNames, RequiredValues(d));
    if missing != [] {
      return AskFor(missing);
    }
    MissingNamesEmpty(d);
    var reply := BackupTools.CrearReserva(store, d.nombre, d.tipo, d.fecha, d.email, d.telefono,
                                          Personas(d), id, timestamp);
    o := Attempted(reply);
  }
}
