/** The parsed user configuration as Jackson hands it over: a tree of nodes, and the
    three accessors the sidecar calls on it (`get`, `asText`, `asBoolean`). */
module JsonTree {
  import opened Wrappers
  import opened JavaNumbers
  import Decimal
  import JavaStrings

  /** A Jackson node. Integral numbers of any size are `JInt`; floating-point
      nodes are not part of this model. */
  datatype Json =
    | JNull
    | JBool(b: bool)
    | JInt(i: int)
    | JText(t: string)
    | JArray(items: seq<Json>)
    | JObject(fields: map<string, Json>)

  /** `JsonNode.get(name)`: the field of an object node, and `null` (here `None`)
      both for a missing field and for any node that is not an object. */
  function Get(node: Json, key: string): (r: Option<Json>)
    ensures r.Some? <==> node.JObject? && key in node.fields
    ensures r.Some? ==> r.value == node.fields[key]
  {
    if node.JObject? && key in node.fields then Some(node.fields[key]) else None
  }

  /** `JsonNode.asText()`: the text of a text node, the literal `null`, `true` or
      `false`, the decimal digits of a number, and the empty text for containers. The
      text of a boolean reads back through `asBoolean`, and that of a `long`-sized
      number through `Long.parseLong`. */
  function AsText(node: Json): (s: string)
    ensures node.JNull? ==> s == "null"
    ensures node.JText? ==> s == node.t
    ensures (node.JArray? || node.JObject?) ==> s == ""
    ensures node.JInt? || node.JBool? || node.JNull? ==> |s| > 0
    ensures node.JBool? ==> s == (if node.b then "true" else "false")
    ensures node.JBool? ==> forall d: bool :: AsBoolean(JText(s), d) == node.b
    ensures node.JInt? && LongMin <= node.i <= LongMax ==> Decimal.ParseLong(s) == Some(node.i)
  {
    match node
    case JNull => "null"
    case JBool(b) => if b then "true" else "false"
    case JInt(i) =>
      if LongMin <= i <= LongMax then Decimal.ParseFormatRoundTrip(i); Decimal.Format(i)
      else Decimal.Format(i)
    case JText(t) => t
    case JArray(_) => ""
    case JObject(_) => ""
  }

  /** `JsonNode.asBoolean(default)`: a boolean node's value, a non-zero integer, or a text
      reading `true`/`false` once trimmed; anything else falls back to `default`. */
  function AsBoolean(node: Json, default: bool): (r: bool)
    ensures node.JBool? ==> r == node.b
    ensures node.JInt? ==> (r <==> node.i != 0)
    ensures (node.JNull? || node.JArray? || node.JObject?) ==> r == default
    ensures node.JText? && r != default ==> JavaStrings.Trim(node.t) == (if r then "true" else "false")
    ensures node.JText? && JavaStrings.Trim(node.t) == "true" ==> r
    ensures node.JText? && JavaStrings.Trim(node.t) == "false" ==> !r
  {
    match node
    case JBool(b) => b
    case JInt(i) => i != 0
    case JText(t) =>
      var trimmed := JavaStrings.Trim(t);
      if trimmed == "true" then true else if trimmed == "false" then false else default
    case _ => default
  }
}
