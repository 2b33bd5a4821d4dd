/**
 * JSON values as the server stores them (`serde_json::Value`), with the
 * three operations the handlers use on them: reading a field (`value[key]`),
 * writing a field (`value[key] = x`) and `Map::extend` on objects.
 */
module JsonValue {
  import opened Wrappers
  import opened Decimal

  /** An unsigned 64-bit integer. */
  type Uint64 = n: nat | n < U64Limit

  /**
   * A JSON value. Numbers that `as_u64` accepts are U64; negative and
   * floating-point numbers are OtherNum, kept only as their text.
   */
  datatype Json =
    | Null
    | Bool(b: bool)
    | U64(n: Uint64)
    | OtherNum(text: string)
    | Str(s: string)
    | Arr(items: seq<Json>)
    | Obj(fields: map<string, Json>)

  /** The `{}` the handlers answer with. */
  const EmptyObject: Json := Obj(map[])

  /** `value[key]` for reading: the field of an object, Null for a missing key or a non-object. */
  function Field(v: Json, key: string): (r: Json)
    ensures v.Obj? && key in v.fields ==> r == v.fields[key]
    ensures !(v.Obj? && key in v.fields) ==> r == Null
  {
    if v.Obj? && key in v.fields then v.fields[key] else Null
  }

  /** The fields of an object; any other value has none. */
  function Fields(v: Json): map<string, Json>
  {
    if v.Obj? then v.fields else map[]
  }

  /**
   * `value[key] = x`: Null first becomes an empty object, an object gets
   * the field set, and any other value makes serde_json panic (None). Every
   * other field is kept, a null-valued one included.
   */
  function SetField(v: Json, key: string, x: Json): (r: Option<Json>)
    ensures r.Some? <==> v.Null? || v.Obj?
    ensures r.Some? ==> r.value.Obj? && r.value.fields.Keys == Fields(v).Keys + {key}
    ensures r.Some? ==> r.value.fields[key] == x
    ensures r.Some? ==> forall k :: k in Fields(v) && k != key ==> r.value.fields[k] == Fields(v)[k]
    ensures r.Some? ==> Field(r.value, key) == x
    ensures r.Some? ==> forall k :: k != key ==> Field(r.value, k) == Field(v, k)
  {
    match v
    case Null => Some(Obj(map[key := x]))
    case Obj(fields) => Some(Obj(fields[key := x]))
    case _ => None
  }

  /**
   * `Map::extend`: every field of source is written into target, so a key
   * of source overwrites the same key of target, and the other keys of
   * target stay. Values are taken whole: nested objects are not merged.
   */
  function Extend(target: map<string, Json>, source: map<string, Json>): (r: map<string, Json>)
    ensures r.Keys == target.Keys + source.Keys
    ensures forall k :: k in source ==> r[k] == source[k]
    ensures forall k :: k in target && k !in source ==> r[k] == target[k]
  {
    target + source
  }
}
