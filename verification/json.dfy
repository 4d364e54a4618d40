/** Parsed JSON values, and the bits of JavaScript object semantics the
    server relies on: truthiness, `typeof x === 'object'`, named property
    lookup and the own enumerable properties copied by object spread. */
module JsonValue {
  import opened Outcomes
  import opened Strings

  /** A value produced by `JSON.parse`. Numbers are split into integers and
      `JFrac`, a finite number that is not an integer. */
  datatype Json =
    | JNull
    | JBool(b: bool)
    | JInt(n: int)
    | JFrac(x: NonInteger)
    | JString(s: string)
    | JArray(items: seq<Json>)
    | JObject(fields: map<string, Json>)

  /** A real number with a fractional part: `JSON.parse` gives whole numbers
      such as `5.0` as the integer 5. */
  type NonInteger = x: real | x != x.Floor as real witness 0.5

  /** The properties of a plain object. */
  type Fields = map<string, Json>

  /** JavaScript truthiness: `null`, `false`, `0` and `""` are falsy;
      every other parsed value (non-integers, arrays, objects) is truthy. */
  predicate Truthy(j: Json) {
    match j
    case JNull => false
    case JBool(b) => b
    case JInt(n) => n != 0
    case JString(s) => s != ""
    case _ => true
  }

  /** `x && typeof x === 'object'`: objects and arrays (`null` is excluded). */
  predicate IsObjectLike(j: Json) {
    j.JObject? || j.JArray?
  }

  /** `x.key` for a named, non-index key: only objects have such own
      properties; arrays and primitives give `undefined` (`None`). */
  function Get(j: Json, key: string): (r: Option<Json>)
    ensures r.Some? <==> j.JObject? && key in j.fields
    ensures r.Some? ==> r.value == j.fields[key]
  {
    if j.JObject? && key in j.fields then Some(j.fields[key]) else None
  }

  /** The own enumerable properties that `{ ...x }` copies from an object or
      an array (an array contributes its indices as decimal keys). */
  function OwnProps(j: Json): (r: Fields)
    requires IsObjectLike(j)
    ensures j.JObject? ==> r == j.fields
    ensures j.JArray? ==> forall i :: 0 <= i < |j.items| ==> DecimalString(i) in r && r[DecimalString(i)] == j.items[i]
    ensures j.JArray? ==> r.Keys == set i | 0 <= i < |j.items| :: DecimalString(i)
  {
    match j
    case JObject(fields) => fields
    case JArray(items) =>
      IndexKeysDistinct();
      map i | 0 <= i < |items| :: DecimalString(i) := items[i]
  }

  lemma IndexKeysDistinct()
    ensures forall i: nat, k: nat :: DecimalString(i) == DecimalString(k) ==> i == k
  {
    forall i: nat, k: nat | DecimalString(i) == DecimalString(k) ensures i == k {
      DecimalInjective(i, k);
    }
  }
}
