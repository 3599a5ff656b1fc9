# Hotel reservation engine — a verified model

The hotel chatbot keeps its room catalog in `hotel_data.json` ("habitaciones": type,
description, price, currency, number of rooms) and its bookings in `reservas.json`. Three
server variants (main_backup.py, main_new.py, main_simple.py) carry the same inventory
engine:

- `consultar_disponibilidad` looks a room type up case-insensitively, first match
  winning. It counts the bookings for that (type, date) slot and reports
  `max(0, total - count)` free rooms.
- `crear_reserva` performs the same lookup and count. It refuses when
  `total - count <= 0`; otherwise it appends the new record to the loaded list and
  rewrites the file.
- `listar_tipos_habitaciones` and `listar_reservas` print or list the two files.

Around the engine, the chat agents of main_backup.py and main_new.py turn a reservation
request into a call to the writer. They fill missing fields from the chat history with
keyword and date rules, normalise dates with `_parse_date`, and ask for whatever is still
missing. main_new.py also strips a Markdown code fence from the language model's
intent reply.

The model proves that the writer keeps the engine's one invariant: no (type, date) slot
ever holds more bookings than the catalog's total for that type. It proves this for every
variant and for the agents that call the writer. Beside that invariant, each modelled tool
and each date or keyword rule has a contract relating its result to its inputs, within the
limits listed under "Left out".

Modules:

| file | module | contents |
|---|---|---|
| wrappers.dfy | `Wrappers` | `Option` |
| text.dfy | `Text` | Python string operations: `.lower()`, `.strip()`, `in`, `startswith`, `str(int)`, `zfill`, `join`, slicing |
| inventory.dfy | `Inventory` | rooms, reservations, lookup, slot count, the writer's verdict, the capacity invariant |
| store.dfy | `JsonStore` | the two JSON files, the loaders' fallbacks, `guardar_reservas` |
| backup_tools.dfy | `BackupTools` | main_backup.py's structured tools |
| new_tools.dfy | `NewTools` | main_new.py's structured tools |
| simple_tools.dfy | `SimpleTools` | main_simple.py's text-returning tools |
| dates.dfy | `Dates` | `_parse_date` of both agents, the chat date patterns, the calendar and "hoy"/"mañana" |
| chat.dfy | `Chat` | chat messages, reservation requests, the required-field check |
| backup_agent.dfy | `BackupAgent` | main_backup.py's `_handle_reservation_request` |
| new_agent.dfy | `NewAgent` | main_new.py's fence stripping and `_handle_reservation_request` |

The store is a class whose two fields are what reading each file would find
(`Absent | Corrupt | Loaded(...)`). The loaders are functions of those fields. `Save` is a
method with a nondeterministic outcome:
- on success, the file holds exactly the new list;
- on failure, the file is untouched or left unreadable by a partial write.

Each writer loads, appends, saves and reports. Its postcondition gives the reply and the new
file state for each verdict. It also states that `WithinCapacity` before the call implies
`WithinCapacity` after it. A failed save that corrupts the file leaves the empty list, which
fits trivially.

The writers store the caller's spelling of the type, not the catalog's (main_backup.py:155).
The invariant survives this because the lookup and the count both compare lower-case forms
(`FirstMatchSameType`, `CountSameType`). The capacity lemma relies on exactly those two facts.

Regular expressions are modelled as greedy prefix matchers (`DayDigits`, `SpaceRun`,
`WordRun`) combined with a leftmost search (`FindFirst`). In each pattern of `_parse_date` and
of the chat date search, a run is followed by a character the run cannot contain, so
backtracking never changes the result.

"Today" (`datetime.now().date()`), the record id (`uuid4`) and the timestamp are
parameters. The name, email and phone patterns of the history search are function
parameters (`Extractors`).

## Model

| member | source | states |
|---|---|---|
| Inventory.FirstMatch | main_backup.py:123-126 | the index found is the first catalog entry whose type equals the request after `.lower()`; no earlier entry matches; `None` exactly when no entry matches |
| Inventory.FirstMatchSameType | main_backup.py:124 | two spellings with the same lower-case form find the same entry |
| Inventory.LookUpRoom | main_new.py:112-116 | the scan with `break` returns the entry `FirstMatch` designates, and nothing exactly when no entry matches |
| Inventory.CountReserved | main_backup.py:136-140 | the count of bookings whose type matches in lower case and whose date matches exactly; at most the list's length; zero exactly when no booking occupies the slot |
| Inventory.CountAppend | main_backup.py:136-163 | appending a record adds one to the count of its own slot and leaves every other slot's count unchanged |
| Inventory.CountSameType | main_backup.py:136-140 | the count sees only the lower-case form of the requested type |
| Inventory.Admit | main_backup.py:122-149 | the writer's verdict: unknown type exactly when the lookup fails; for a found entry, a missing total exactly when the entry has no capacity under the variant's rule (absent "total" in main_new.py and main_simple.py; never with main_backup.py's default of 1); otherwise the verdict carries that capacity as total and the slot's count, and is sold out exactly when `total - count <= 0` and admitted otherwise |
| Inventory.EmptyWithinCapacity | main_backup.py:85-86 | an empty reservation list (missing or unreadable file) satisfies the capacity invariant |
| Inventory.AdmittedBookingKeepsCapacity | main_backup.py:136-163 | sequential capacity invariant: if every slot holds at most its total, appending the record of an admitted request keeps that true for every slot, even though the record keeps the caller's spelling |
| Inventory.FullSlotRefuses | main_backup.py:144-149 | a slot filled to its total refuses the next request for it, under any spelling of the type |
| JsonStore.LoadCatalog | main_backup.py:68-80 | a missing file, an unreadable file or a document without "habitaciones" gives the empty catalog; a loaded document gives its rooms |
| JsonStore.LoadReservations | main_backup.py:82-93 | a missing or unreadable file gives `[]`; a loaded file gives its list |
| JsonStore.Store.Save | main_backup.py:95-103 | on success, the file and a later load hold exactly the saved list; on failure, the file is unchanged or unreadable |
| BackupTools.ConsultarDisponibilidad | main_backup.py:187-233 | refusal exactly when the type is unknown, distinct from a zero report; otherwise the report echoes the request's spelling, gives the total (default 1), the slot count and `max(0, total - count)`, with description and currency defaulting to "" |
| BackupTools.AdmitIffAvailable | main_backup.py:144-232 | on the same files, the writer's capacity check passes exactly when the query reports a free room |
| BackupTools.NeverMissingTotal | main_backup.py:125 | with the default of 1, no entry is ever without a total |
| BackupTools.ConsultCaseInsensitive | main_backup.py:196-217 | two spellings of one type get the same report apart from the echoed spelling |
| BackupTools.CrearReserva | main_backup.py:106-184 | unknown type or a full slot gives its refusal message and leaves the file untouched; `ok` only when admitted and saved, and then the list grows by exactly the new record at the end; a failed save reports the save error; the capacity invariant is preserved |
| BackupTools.ListarTiposHabitaciones | main_backup.py:243-261 | one summary per catalog entry, in catalog order, built in a loop; each entry's type and price, its description and currency or "", and as total the capacity the writer enforces (1 when the entry has none) |
| NewTools.ConsultarDisponibilidad | main_new.py:174-230 | unknown type gives the not-found refusal; an entry without "total" gives the `KeyError` refusal; a report is returned exactly when the type is found with a total, so a sold-out slot is a report with 0 free rooms, never a refusal; in it `reservadas` is the count and `disponibles = max(0, total - count)`, with price defaulting to 0 and currency to "EUR" |
| NewTools.AdmitIffAvailable | main_new.py:133-222 | the writer admits exactly when the query reports a free room |
| NewTools.CrearReserva | main_new.py:96-171 | as the backup writer, with this variant's messages; an entry without "total" is refused with the `KeyError` message and nothing is written; the capacity invariant is preserved |
| NewTools.ListarTiposHabitaciones | main_new.py:233-255 | one summary per catalog entry, in catalog order, each with the entry's own type and total and the defaults for the rest; the error entry exactly when some entry lacks "total" |
| SimpleTools.ConsultarDisponibilidad | main_simple.py:74-115 | unknown type gives the text listing every catalog type; a missing "total" or "precio" gives the `KeyError` text naming it; otherwise the text reports `max(0, total - count)` of the total, and carries the "available" line exactly when `total - count > 0` |
| SimpleTools.AvailabilityTextMark | main_simple.py:101-109 | the availability text carries the mark of the "available" line exactly when rooms are free |
| SimpleTools.UnknownTypeNamesEveryType | main_simple.py:88-89 | the unknown-type text names every catalog type, in catalog order, separated by ", " |
| SimpleTools.Confirmation | main_simple.py:186-194 | the confirmation names the record's id, and has an email line exactly when the email is non-empty |
| SimpleTools.CrearReserva | main_simple.py:143-203 | an unknown type, a missing "total" or a full slot gives its error text without writing; an admitted request is either stored at the end and confirmed, or reports "❌ Error guardando la reserva"; the capacity invariant is preserved |
| SimpleTools.EntriesInOrder | main_simple.py:216-228 | the listing prints the reservations in stored order: each block comes after the header and the earlier blocks, and before the later ones |
| SimpleTools.EntryEmailLine | main_simple.py:219-226 | a reservation's block has an email line exactly when its email is non-empty |
| SimpleTools.HeaderCount | main_simple.py:216 | the header prints a decimal count that reads back as the number of reservations |
| SimpleTools.ListarReservas | main_simple.py:206-232 | the fixed message for no reservations; otherwise the header followed by one block per reservation, appended in a loop |
| SimpleTools.RoomBlocks | main_simple.py:130-134 | the blocks fail exactly when some entry lacks "precio" or "total" |
| SimpleTools.ListarTiposHabitaciones | main_simple.py:118-140 | the fixed text for an empty catalog; otherwise the header and the entries' blocks, built in a loop, or the error text naming the key missing from the first faulty entry |
| SimpleTools.FaultyEntryDecides | main_simple.py:130-140 | the first entry missing a key decides the whole answer |
| SimpleTools.FirstFaultDecides | main_simple.py:130-140 | once a prefix of the catalog has failed, the whole catalog fails with the same key |
| Text.Lower | main_backup.py:124 | `.lower()` keeps the length and lower-cases each character |
| Text.StripKeeps | main_new.py:401 | `strip()` leaves text that neither starts nor ends with whitespace unchanged |
| Text.ContainsLowerSpliced | main_new.py:542 | a word found in the lower-case form of a piece is found in the lower-case form of any text containing that piece |
| Dates.DayMonthAt | main_backup.py:691 | a match of `(\d{1,2})\s+de\s+(\w+)` has a day group of one or two digits |
| Dates.DeAtOf | main_backup.py:691 | a text built from a day, two whitespace runs and what follows is matched back to exactly those groups |
| Dates.DayMonthAtText | main_backup.py:691 | a day, "de" and a word put together match with that day and that word |
| Dates.SlashAt | main_backup.py:703 | a match of `(\d{1,2})/(\d{1,2})/(\d{4})` at the start has groups of those sizes, all digits, and the text starts with them |
| Dates.SlashAtText | main_backup.py:703-705 | a slash date put together is matched back to its groups |
| Dates.FindFirst | main_backup.py:691 | `re.search`: whatever it finds is a match at some position of the text |
| Dates.FindFirstAt | main_backup.py:691 | conversely, a match at a position with none before it is what `re.search` finds |
| Dates.FindFirstLeftmost | main_backup.py:691 | `re.search` finds the leftmost match: the pattern matches at no earlier position; it finds nothing only when the pattern matches at no position |
| Dates.NoSpaceNoDayMonth | main_backup.py:691 | text without whitespace holds no "D de month" match |
| Dates.MonthsTable | main_backup.py:684-688 | the month table knows exactly the twelve Spanish month names and maps each to its two-digit calendar number |
| Dates.ParseDate | main_backup.py:677-710 | `_parse_date`'s four rules in order; its contract is stated by `ParseDateShape`, `ParseDateKeepsIso`, `ParseDateIdempotent`, `ParseDayMonth`, `ParseDayMonthIn`, `ParseSlashDate` and `ParseDateNoDigits` below |
| Dates.ParseDateShape | main_backup.py:677-710 | `_parse_date` returns its input or a `YYYY-MM-DD` text |
| Dates.ParseDateKeepsIso | main_backup.py:698-700 | a text starting `YYYY-MM-DD` and holding no whitespace (an ISO date, or "2025-07-25T10:00") is returned unchanged |
| Dates.ParseDateIdempotent | main_backup.py:677-710 | normalising twice is normalising once |
| Dates.ParseDayMonth | main_backup.py:690-696 | "D de <month>" becomes "2025-MM-DD" with the day zero-padded |
| Dates.ParseDayMonthIn | main_backup.py:690-696 | rule 1 searches the whole lower-cased text: a "D de <mes>" after text without digits, followed by anything that does not extend the month's word, gives "2025-MM-DD" |
| Dates.ParseDateNoDigits | main_backup.py:690-708 | text without a digit matches none of the three patterns and is returned unchanged (rule 4) |
| Dates.ParseSlashDate | main_backup.py:702-706 | "D/M/YYYY" becomes "YYYY-MM-DD" with day and month zero-padded |
| Dates.NamedDayAt | main_backup.py:606 | a match of the handler's `(\d{1,2})\s+de\s+(enero\|...\|diciembre)` pattern names a month and is a prefix of the text |
| Dates.IsoAt | main_backup.py:607 | a match of `(\d{4}-\d{2}-\d{2})` is a `YYYY-MM-DD` prefix of the text |
| Dates.DateMention | main_backup.py:604-614 | the first of the handler's three date patterns found anywhere in a message; its contract is stated by `DateMentionNone`, `DateMentionNamedFirst`, `DateMentionIsoNext`, `DateMentionSlashLast` and `MentionParsesToIso` |
| Dates.DateMentionNone | main_backup.py:604-614 | a message has no date mention exactly when none of the three patterns matches at any position |
| Dates.DateMentionNamedFirst | main_backup.py:605-614 | a "D de <mes>" anywhere wins: the mention is the text of its leftmost match, whatever other dates the message holds |
| Dates.DateMentionIsoNext | main_backup.py:605-614 | without a "D de <mes>", the leftmost ISO date is the mention, ahead of any "D/M/YYYY" |
| Dates.DateMentionSlashLast | main_backup.py:605-614 | with neither of the first two, the leftmost "D/M/YYYY" is the mention |
| Dates.LeftmostFound | main_backup.py:611-612 | a pattern that matches somewhere is found at its leftmost match |
| Dates.NowhereNotFound | main_backup.py:611-612 | a pattern that matches nowhere is not found |
| Dates.MentionParsesToIso | main_backup.py:604-614 | every date mention the handler finds becomes a `YYYY-MM-DD` date under `_parse_date` |
| Dates.NextDay | main_new.py:553 | `today + timedelta(days=1)` is a valid later date, and fails exactly on the last representable date |
| Dates.NextDayIsSuccessor | main_new.py:553 | no valid date lies strictly between a date and its next day |
| Dates.FormatIso | main_new.py:551 | `strftime("%Y-%m-%d")` gives a `YYYY-MM-DD` text |
| Dates.IsoRoundTrip | main_new.py:551 | reading a formatted date back gives the same date |
| Dates.RelativeDate | main_new.py:548-553 | what the relative rule finds is a `YYYY-MM-DD` text whenever it names a date; which date is stated by `RelativeDateMeaning` |
| Dates.RelativeDateMeaning | main_new.py:548-553 | "hoy" anywhere means today and wins over "mañana"; "mañana" means the day after, or the `OverflowError` on the last date; neither means no date |
| Dates.ParseRelativeDate | main_new.py:597-610 | main_new.py's `_parse_date` returns the relative rule's `YYYY-MM-DD` date when it finds one, and its input otherwise, the overflow included |
| Dates.ParseRelativeDateMeaning | main_new.py:600-610 | "hoy" gives today's date and wins over "mañana"; "mañana" gives the next day's date, or the input back on the last representable date; any other text comes back unchanged |
| Chat.MissingFields | main_backup.py:624 | the missing list is empty exactly when every value is non-empty; every empty field is listed; only empty fields are listed |
| Chat.MissingFieldNamed | main_backup.py:617-624 | with distinct field names, a field is listed exactly when its value is empty |
| Chat.MissingFieldsInOrder | main_new.py:556-557 | the missing fields are listed in the order of the field list |
| BackupAgent.KeywordType | main_backup.py:598-602 | "Doble Estándar" exactly when "doble" and "estándar" both occur, anywhere; otherwise "Suite Junior" exactly when "suite" occurs; "" otherwise |
| BackupAgent.KeywordFindsDoble | main_backup.py:598-602 | text containing "doble estándar" in any capitalisation gets "Doble Estándar", even when it also mentions a suite |
| BackupAgent.MentionDate | main_backup.py:604-614 | a message's date is "" or `YYYY-MM-DD` |
| BackupAgent.LastTen | main_backup.py:572 | `chat_history[-10:]` is the last `min(10, n)` messages |
| BackupAgent.GatherRequest | main_backup.py:571-614 | the history loop computes the request after folding the last ten messages, oldest first |
| BackupAgent.ReadMessage | main_backup.py:573-614 | the loop body computes one message's step: a human message fills each field still empty with what its rule finds; the assistant's changes nothing |
| BackupAgent.Step | main_backup.py:573-614 | one message's share of the history loop; its contract is `ReadMessage`'s ensures, and `GatheredKeeps`, `GatheredTipoFirst` and `GatheredHumansOnly` state what it does over a history |
| BackupAgent.Gathered | main_backup.py:571-614 | the history loop's result, oldest message first; its contract is stated by `GatherRequest`, `GatheredKeeps`, `GatheredTipo`, `GatheredTipoFirst`, `GatheredFecha`, `GatheredHumansOnly` and `GatheredSplit` |
| BackupAgent.GatheredKeeps | main_backup.py:576-604 | a field already filled is never overwritten, so the intent reply wins over the history and an earlier message over a later one; the number of guests is untouched |
| BackupAgent.GatheredTipo | main_backup.py:598-602 | the room type is the intent reply's or one of the two keyword types |
| BackupAgent.GatheredTipoFirst | main_backup.py:571-602 | a type missing from the intent reply is the keyword rule's answer for the first human message where the rule names one, and stays "" when it names one for none |
| BackupAgent.GatheredFecha | main_backup.py:604-614 | the date is the intent reply's or a `YYYY-MM-DD` date |
| BackupAgent.GatheredHumansOnly | main_backup.py:573 | only human messages count: dropping the assistant's changes nothing |
| BackupAgent.GatheredSplit | main_backup.py:572-614 | reading the history in two runs is reading it in one |
| BackupAgent.MissingNamesEmpty | main_backup.py:617-624 | each of the five fields is asked for exactly when it is empty |
| BackupAgent.HandleReservation | main_backup.py:561-675 | never raises; asks for data exactly when some of the five fields is missing, with the missing list, and without writing; the writer is called only with all five filled; the writer's reply is its verdict on the gathered type and date against the files as they were: the unknown-type or sold-out refusal for those verdicts, `ok` only when admitted, and otherwise the save-failure reply; a booking stores the gathered fields with one guest when the intent reply gives no count; the capacity invariant is preserved |
| NewAgent.StripCodeFence | main_new.py:401-405 | the intent reply stripped and unfenced; its contract is stated by `FenceStripped`, `JsonFenceRemoved`, `PlainFenceRemoved` and `UnfencedKept` |
| NewAgent.Unfence | main_new.py:402-405 | the fence rule on the stripped reply; its contract is stated by `JsonFenceRemoved`, `PlainFenceRemoved` and `UnfencedKept` |
| NewAgent.UnfencedKept | main_new.py:401-405 | a reply holding no backquote has no fence and comes back only stripped |
| NewAgent.FenceStripped | main_new.py:401 | a reply that begins and ends with a backquote is not changed by `strip()` |
| NewAgent.JsonFenceRemoved | main_new.py:401-403 | "```json" + body + "```" gives back exactly the body |
| NewAgent.PlainFenceRemoved | main_new.py:401-405 | "```" + body + "```" gives back the body, unless the body begins with "json" |
| NewAgent.KeywordType | main_new.py:541-545 | "Doble Estándar" exactly when "doble" and "estándar" both occur, anywhere; otherwise "Suite Junior" exactly when "suite" and "junior" both occur; "" otherwise |
| NewAgent.KeywordFindsSuite | main_new.py:541-545 | text containing "suite junior", and no "doble", gets "Suite Junior" |
| NewAgent.HistoryText | main_new.py:520-526 | `historial_texto`; its contract is stated by `ReadHistory`, `MessageInHistory` and `HistoryHolds` |
| NewAgent.MessageInHistory | main_new.py:520-526 | the history text is the earlier messages' text, then a message's content, then the rest |
| NewAgent.HistoryHolds | main_new.py:520-550 | a word in any message, the assistant's included, or in the user's text, occurs in the lower-cased history text |
| NewAgent.DateFrom | main_new.py:548-553 | a date already present is kept; a missing one fails exactly on the overflow |
| NewAgent.DateFromMeaning | main_new.py:548-553 | a missing date becomes today on "hoy", otherwise the next day on "mañana", and stays missing otherwise |
| NewAgent.Filled | main_new.py:528-545 | name, email and type already present are kept; a missing name or email is what its pattern finds in the history text, a missing type the keyword rule's answer on its lower-cased form; date, phone and guests untouched |
| NewAgent.Completed | main_new.py:518-553 | the request after the history branch: a request with name, type and date comes back as it was, so a missing email stays missing; otherwise it fails exactly on the date overflow, keeps every field already present, never touches phone or guests, and fills a missing name, email and type from the history text and a missing date from the relative rule |
| NewAgent.RelativeFromText | main_new.py:548-553 | a request without a date is for today when the text says "hoy", and for the day after when it says "mañana" but not "hoy" |
| NewAgent.TodayFromHistory | main_new.py:520-551 | a request without a date whose history says "hoy" anywhere is for today |
| NewAgent.DobleFromHistory | main_new.py:520-543 | a request without a type gets "Doble Estándar" when "doble" and "estándar" occur anywhere in the history or the user's text, even in different messages |
| NewAgent.MissingNamesEmpty | main_new.py:556-557 | each of the three fields is asked for exactly when it is empty |
| NewAgent.ReadHistory | main_new.py:520-526 | the loop builds every message's content followed by a space, then the user's text |
| NewAgent.FillFromText | main_new.py:528-545 | the three rules compute `Filled` |
| NewAgent.CompleteRequest | main_new.py:518-553 | the history branch computes `Completed` |
| NewAgent.HandleReservation | main_new.py:513-595 | for an intent reply carrying an `extracted_data` object, raises only on the date overflow, and then writes nothing; asks for data exactly when name, type or date is missing, without writing; the writer is called only with all three; the writer's reply is its verdict on the completed type and date against the files as they were: the unknown-type, `KeyError` or sold-out refusal for those verdicts, `ok` with the confirmation only when admitted, and otherwise the save-failure reply; a booking stores the completed fields, the request's phone, and one guest when the request gives no count; the capacity invariant is preserved |

## Left out

- Transport and I/O: the FastAPI endpoints, Socket.IO events, the LLM calls and the LangChain agents are not modelled. Neither is main.py, or the rest of `_analyze_intent` after the fence step (the prompt and the `json.loads` fallback). None of these has visible semantics to state.
- JSON reading and writing are not modelled byte by byte: a file is what reading it would find. Documents of the wrong shape are not modelled; for example, "habitaciones" not being a list, or a record missing "tipo_habitacion" or "fecha". The tools' `except` branches for those are therefore not modelled.
- A JSON `null` where a key is expected is treated as a missing key. main_backup.py's `hab.get("total", 1)` then gives 1, where Python would see `None` and report an unknown type.
- Concurrency: each writer loads, checks, appends and rewrites without a lock, so two concurrent writers can both pass the capacity check. The invariant is proved for sequential calls only.
- Prices are integers; JSON floats are not modelled.
- main_backup.py's `consultar_disponibilidad` and `listar_tipos_habitaciones` (main_backup.py:254-255) default "precio" and "moneda" to "". The model reports a missing price as `None`, and a missing currency as "".
- `listar_reservas` of main_backup.py and of main_new.py is not modelled: it returns the loaded list as it is, which is `JsonStore.LoadReservations`.
- Text.Lower: `.lower()` folds ASCII and Latin-1 letters only. Regular-expression `\d` is ASCII only and `\w` is ASCII letters, digits, `_` and Latin-1 letters; wider Unicode classes are not modelled.
- The name, email and phone regular expressions of both handlers are parameters (`Extractors`), including `.strip().title()` of the name. They would need a regular-expression engine.
- NewAgent.HandleReservation: the `KeyError` or `AttributeError` of main_new.py:515 when the intent reply has no `extracted_data` object, or a `null` one, is not modelled; the request is taken as given. A JSON `null` for "personas" or "email" is modelled as an absent key, so the model stores 1 guest and "" where main_new.py:573-574 would store `None`.
- BackupAgent.HandleReservation: an intent reply whose "datos_reserva" is not an object is not modelled. A JSON `null` for "personas" is modelled as an absent key, so the model stores 1 guest where main_backup.py:642 would store `None`.
- Dates.ParseDate: that rule 1 is tried before the ISO rule is stated through `ParseDayMonthIn` (text without digits ahead of the month mention) and the whitespace condition of `ParseDateKeepsIso`; a text opening with an ISO date and naming a "D de <mes>" later, such as "2025-07-25 3 de julio", is not covered by a lemma.
- Handler replies are modelled as the outcome (missing fields, the writer's reply, or an escaping exception), not as their Markdown text.
- Dates.FormatIso: years below 1000 are written with four digits; Python's `strftime("%Y")` output for those years depends on the platform.
- Dates.ParseDayMonth and Dates.ParseSlashDate are stated for all inputs of their shapes. The concrete cases ("25 de julio" gives "2025-07-25", "3/7/2025" gives "2025-07-03") are instances of them and are not stated separately.
- The per-session memory and agent caches, and setup.py, are not modelled.

