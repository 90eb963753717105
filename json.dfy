/**
 * JSON values as JavaScript sees them after `JSON.parse`, the serialiser
 * pair the token codec is built on, and the two bits of JavaScript value
 * semantics the expiry check uses (truthiness and numeric comparison).
 */
module JsonValues {
  import opened Wrappers
  import opened Codecs

  /** A JSON value; numbers are integers here (epoch seconds in the claims). */
  datatype Json =
    | JNull
    | JBool(b: bool)
    | JNum(n: int)
    | JStr(s: string)
    | JArr(items: seq<Json>)
    | JObj(members: map<string, Json>)

  /**
   * `JSON.stringify` followed by UTF-8 encoding (`Buffer.from(text)`), and
   * UTF-8 decoding followed by `JSON.parse`, where None means `JSON.parse`
   * threw. Both are parameters of the model.
   */
  datatype JsonCodec = JsonCodec(stringify: Json -> seq<Byte>, parse: seq<Byte> -> Option<Json>)

  /** What the model assumes of the serialiser: parsing what it printed gives the value back. */
  ghost predicate RoundTrips(codec: JsonCodec)
  {
    forall v :: codec.parse(codec.stringify(v)) == Some(v)
  }

  /** JavaScript truthiness. */
  predicate Truthy(v: Json)
  {
    match v
    case JNull => false
    case JBool(b) => b
    case JNum(n) => n != 0
    case JStr(s) => s != ""
    case JArr(_) => true
    case JObj(_) => true
  }

  /** What converting a value to a number gives: a number, NaN, or a thrown TypeError. */
  datatype Coerced = Num(n: int) | NaN | Throws

  /**
   * Whether converting the value to a primitive throws. A parsed object's
   * own members are never functions, so an own `toString` member hides the
   * inherited method and leaves no callable way to a primitive (the
   * inherited `valueOf` returns the object itself). An array becomes the
   * text of its elements, so it throws when one of them does.
   */
  predicate CoercionThrows(v: Json)
  {
    match v
    case JObj(m) => "toString" in m
    case JArr(items) => exists i | 0 <= i < |items| :: CoercionThrows(items[i])
    case _ => false
  }

  /**
   * The number a relational comparison turns a value into. An object
   * becomes the text "[object Object]", so NaN, unless its conversion
   * throws. An array becomes the number of its text: `[]` and `[null]` give
   * the empty text, so 0; a one-element array the number of its element's
   * text; two or more elements a text with a comma, so NaN. Numeric text
   * in strings is not read (NaN).
   */
  function ToNumber(v: Json): (n: Coerced)
    ensures n.Throws? <==> CoercionThrows(v)
  {
    match v
    case JNull => Num(0)
    case JBool(b) => Num(if b then 1 else 0)
    case JNum(n) => Num(n)
    case JStr(_) => NaN
    case JObj(m) => if "toString" in m then Throws else NaN
    case JArr(items) =>
      if CoercionThrows(v) then Throws
      else if |items| == 0 then Num(0)
      else if |items| > 1 then NaN
      else match items[0]
        case JNull => Num(0)
        case JNum(n) => Num(n)
        case JArr(_) => ToNumber(items[0])
        case _ => NaN
  }

  /** `v.key` on a value other than null: an own member of an object, otherwise undefined (None). */
  function Property(v: Json, key: string): (p: Option<Json>)
    ensures p.Some? <==> v.JObj? && key in v.members
    ensures p.Some? ==> p.value == v.members[key]
  {
    match v
    case JObj(m) => if key in m then Some(m[key]) else None
    case _ => None
  }
}
