/** Parsed JSON values, JavaScript truthiness and property access on them,
    and the JSON text codec, which is a parameter of the model. */
module Json {
  import opened Wrappers

  /** A value as `JSON.parse` returns it. Numbers are integers here. */
  datatype Json =
    | JNull
    | JBool(b: bool)
    | JNum(n: int)
    | JStr(s: string)
    | JArr(items: seq<Json>)
    | JObj(fields: map<string, Json>)

  /** JavaScript truthiness of a property read; `None` is `undefined`. */
  predicate Truthy(v: Option<Json>) {
    match v
    case None => false
    case Some(JNull) => false
    case Some(JBool(b)) => b
    case Some(JNum(n)) => n != 0
    case Some(JStr(s)) => s != ""
    case Some(_) => true
  }

  /** `v.key` (or `v?.key`) on a non-null value: only objects carry properties. */
  function Get(v: Json, key: string): (r: Option<Json>)
    ensures r.Some? <==> v.JObj? && key in v.fields
    ensures r.Some? ==> r.value == v.fields[key]
  {
    if v.JObj? && key in v.fields then Some(v.fields[key]) else None
  }

  /** `v ?? default`: the default replaces `undefined` and `null` only. */
  function Coalesce(v: Option<Json>, default: Json): (r: Json)
    ensures v.None? || v.value == JNull ==> r == default
    ensures v.Some? && v.value != JNull ==> r == v.value
  {
    if v.None? || v.value == JNull then default else v.value
  }

  /** `a || b`, read left to right, on two property reads. */
  function Or(a: Option<Json>, b: Option<Json>): (r: Option<Json>)
    ensures Truthy(a) ==> r == a
    ensures !Truthy(a) ==> r == b
  {
    if Truthy(a) then a else b
  }

  /** `JSON.parse` (which fails with `None` where JavaScript throws) and
      `JSON.stringify`. The JSON grammar is not part of this model. */
  datatype Codec = Codec(parse: string -> Option<Json>, stringify: Json -> string)

  /** The one law the model relies on: parsing what was stringified gives it back. */
  ghost predicate Lawful(c: Codec) {
    forall v :: c.parse(c.stringify(v)) == Some(v)
  }

  /** The lenient normalisation several routes apply to a stored field:
      `typeof v === "string" ? JSON.parse(v) : v`, keeping `v` when the parse throws. */
  function ParseIfString(c: Codec, v: Json): (r: Json)
    ensures !v.JStr? ==> r == v
    ensures v.JStr? && c.parse(v.s).Some? ==> r == c.parse(v.s).value
    ensures v.JStr? && c.parse(v.s).None? ==> r == v
  {
    if v.JStr? then c.parse(v.s).GetOr(v) else v
  }

  /** Normalising a stringified value gives back the value. */
  lemma ParseStringified(c: Codec, v: Json)
    requires Lawful(c)
    ensures ParseIfString(c, JStr(c.stringify(v))) == v
  {
  }
}
