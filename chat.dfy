/**
 * What the reservation handlers of main_backup.py and main_new.py share: chat
 * messages, the data a reservation request carries, the required-field check
 * (`[field for field ... if not value]`) and the handler's outcome.
 *
 * A value Python tests with `not value` (a missing key, `None` or "") is the
 * empty string here.
 */
module Chat {

  import opened Wrappers
  import opened Inventory

  /** One entry of the chat history; `human` tells a `HumanMessage` from the assistant's. */
  datatype Message = Message(human: bool, content: string)

  /** The reservation data taken from the intent reply, "" where a field is absent. */
  datatype Request = Request(
    nombre: string,
    email: string,
    telefono: string,
    tipo: string,
    fecha: string,
    personas: Option<int>)

  /** `data.get("personas", 1)`. */
  function Personas(r: Request): int {
    if r.personas.Some? then r.personas.value else 1
  }

  /** What a reservation request turns into: a request for the missing fields, an attempt
      whose reply the writer returned, or an exception that escapes the handler. */
  datatype Outcome =
    | AskFor(missing: seq<string>)
    | Attempted(reply: BookingReply)
    | Crashed

  /** The positions of the empty values, in increasing order. */
  function EmptyAt(values: seq<string>): (r: seq<nat>)
    ensures forall k :: 0 <= k < |r| ==> r[k] < |values|
    ensures forall i :: 0 <= i < |values| ==> (values[i] == "" <==> i in r)
    ensures forall j, k :: 0 <= j < k < |r| ==> r[j] < r[k]
  {
    if values == [] then []
    else
      var n := |values| - 1;
      var before := EmptyAt(values[..n]);
      assert forall i :: 0 <= i < n ==> values[..n][i] == values[i];
      before + (if values[n] == "" then [n] else [])
  }

  /** `[field for field, value in required if not value]`: the names of the fields whose value
      is empty, in the order the fields are listed. */
  function MissingFields(names: seq<string>, values: seq<string>): (r: seq<string>)
    requires |names| == |values|
    ensures r == [] <==> forall i :: 0 <= i < |values| ==> values[i] != ""
    ensures forall i :: 0 <= i < |values| && values[i] == "" ==> names[i] in r
    ensures forall k :: 0 <= k < |r| ==> exists i :: 0 <= i < |values| && values[i] == "" && r[k] == names[i]
  {
    var at := EmptyAt(values);
    var r := seq(|at|, k requires 0 <= k < |at| => names[at[k]]);
    NamedPositions(names, values, at, r);
    r
  }

  /** Naming the empty positions names every empty field. */
  lemma NamedPositions(names: seq<string>, values: seq<string>, at: seq<nat>, r: seq<string>)
    requires |names| == |values| && at == EmptyAt(values)
    requires |r| == |at| && forall k :: 0 <= k < |at| ==> r[k] == names[at[k]]
    ensures forall i :: 0 <= i < |values| && values[i] == "" ==> names[i] in r
    ensures r == [] <==> forall i :: 0 <= i < |values| ==> values[i] != ""
  {
    forall i | 0 <= i < |values| && values[i] == ""
      ensures names[i] in r
    {
      var k :| 0 <= k < |at| && at[k] == i;
      assert r[k] == names[i];
    }
    if r != [] {
      assert values[at[0]] == "";
    }
  }

  /** With distinct field names, a field is listed exactly when its value is empty. */
  lemma MissingFieldNamed(names: seq<string>, values: seq<string>, i: nat)
    requires |names| == |values| && i < |names|
    requires forall a, b :: 0 <= a < b < |names| ==> names[a] != names[b]
    ensures names[i] in MissingFields(names, values) <==> values[i] == ""
  {
    var m := MissingFields(names, values);
    if names[i] in m {
      var k :| 0 <= k < |m| && m[k] == names[i];
      var j :| 0 <= j < |values| && values[j] == "" && m[k] == names[j];
      assert j == i;
    }
  }

  /** The missing fields are listed in the order of the field list: the field a name stands
      for comes before the field of every later name. */
  lemma MissingFieldsInOrder(names: seq<string>, values: seq<string>, j: nat, k: nat)
    requires |names| == |values|
    requires j < k < |MissingFields(names, values)|
    ensures exists a, b :: 0 <= a < b < |names|
                           && MissingFields(names, values)[j] == names[a] && values[a] == ""
                           && MissingFields(names, values)[k] == names[b] && values[b] == ""
  {
    var at := EmptyAt(values);
    assert MissingFields(names, values)[j] == names[at[j]];
    assert MissingFields(names, values)[k] == names[at[k]];
  }
}
