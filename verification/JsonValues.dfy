/**
 * The values `JSON.parse` produces, with the few JavaScript operations the
 * time-card code applies to them: property lookup, `key in obj`,
 * truthiness and the string coercion `String(x ?? "")`.
 */
module JsonValues {
  import opened Wrappers
  import opened SeqFacts

  /** A parsed JSON value. A number is kept as the text `String(n)` gives
      for it (so zero, and negative zero, is "0"); an object maps each key to
      the value `JSON.parse` keeps for it (the last one written). */
  datatype Json =
    | JNull
    | JBool(b: bool)
    | JNumber(rendered: string)
    | JString(s: string)
    | JArray(items: seq<Json>)
    | JObject(fields: map<string, Json>)

  /** `v.key` (or `v?.key`): `None` stands for `undefined`. Only an object
      has the keys the time-card code reads. */
  function Get(v: Json, key: string): (r: Option<Json>)
    ensures r.Some? <==> Has(v, key)
    ensures r.Some? ==> r.value == v.fields[key]
  {
    if v.JObject? && key in v.fields then Some(v.fields[key]) else None
  }

  /** `key in v` for an object `v`. */
  predicate Has(v: Json, key: string) {
    v.JObject? && key in v.fields
  }

  /** An empty array or object is truthy, so `!card.headers` keeps a card
      whose headers are `[]`; `undefined`, `null`, `false`, `0` and "" are
      falsy. */
  lemma TruthyValues()
    ensures Truthy(Some(JArray([]))) && Truthy(Some(JObject(map[])))
    ensures !Truthy(None) && !Truthy(Some(JNull)) && !Truthy(Some(JBool(false)))
    ensures !Truthy(Some(JNumber("0"))) && !Truthy(Some(JString("")))
  {
  }

  /** JavaScript truthiness of a value that may be `undefined`. */
  predicate Truthy(v: Option<Json>) {
    match v
    case None => false
    case Some(JNull) => false
    case Some(JBool(b)) => b
    case Some(JNumber(r)) => r != "0"
    case Some(JString(s)) => s != ""
    case Some(JArray(_)) => true
    case Some(JObject(_)) => true
  }

  /** `String(v)`: an array is joined with "," and an object renders as
      "[object Object]". */
  function ToJsString(v: Json): string
    decreases v, 1
  {
    match v
    case JNull => "null"
    case JBool(b) => if b then "true" else "false"
    case JNumber(r) => r
    case JString(s) => s
    case JArray(items) => JoinFrom(items, 0)
    case JObject(_) => "[object Object]"
  }

  /** `items.slice(i).join(",")`. */
  function JoinFrom(items: seq<Json>, i: nat): string
    decreases JArray(items), 0, |items| - i
  {
    if i >= |items| then ""
    else if i + 1 < |items| then ItemText(items[i]) + "," + JoinFrom(items, i + 1)
    else ItemText(items[i])
  }

  /** An array item as `join` renders it: `null` becomes "". */
  function ItemText(x: Json): string
    decreases x, 2
  {
    if x.JNull? then "" else ToJsString(x)
  }

  lemma {:induction false} JoinFromAppend(items: seq<Json>, x: Json, i: nat)
    requires i < |items|
    ensures JoinFrom(items + [x], i) == JoinFrom(items, i) + "," + ItemText(x)
    decreases |items| - i
  {
    var all := items + [x];
    assert all[i] == items[i];
    if i + 1 < |items| {
      JoinFromAppend(items, x, i + 1);
      var head, rest := ItemText(items[i]) + ",", JoinFrom(items, i + 1);
      Assoc(head, rest + ",", ItemText(x));
      Assoc(head, rest, ",");
    } else {
      assert all[i + 1] == x;
      assert JoinFrom(all, i + 1) == ItemText(x);
    }
  }

  /** `String` of an array: the empty array is "", one item is its own
      text, and each further item adds "," and its text. */
  lemma ArrayText(items: seq<Json>, x: Json)
    ensures ToJsString(JArray([])) == ""
    ensures ToJsString(JArray([x])) == ItemText(x)
    ensures items != [] ==> ToJsString(JArray(items + [x])) == ToJsString(JArray(items)) + "," + ItemText(x)
  {
    if items != [] {
      JoinFromAppend(items, x, 0);
    }
  }

  /** `String(v ?? "")`: `null` and `undefined` become "". */
  function StringOrEmpty(v: Option<Json>): (r: string)
    ensures v.Some? && v.value.JString? ==> r == v.value.s
    ensures v.None? || v == Some(JNull) ==> r == ""
    ensures v.Some? && !v.value.JNull? ==> r == ToJsString(v.value)
    ensures v.Some? && v.value.JNumber? ==> r == v.value.rendered
    ensures v.Some? && v.value.JBool? ==> r == if v.value.b then "true" else "false"
    ensures v.Some? && v.value.JObject? ==> r == "[object Object]"
  {
    match v
    case None => ""
    case Some(JNull) => ""
    case Some(x) => ToJsString(x)
  }
}
