/**
 * The identifier helpers of src/json_server.rs. An item's id is its "id"
 * field; a string id and a u64 id denote the same identifier when the
 * string is the u64's decimal text. Any other id (missing, null, boolean,
 * negative or fractional number, array, object) is no identifier at all.
 */
module JsonIds {
  import opened Wrappers
  import opened Decimal
  import opened JsonValue

  /** The text of an item's identifier: a string id itself, a u64 id's decimal text, otherwise none. */
  function IdText(item: Json): Option<string>
  {
    match Field(item, "id")
    case Str(s) => Some(s)
    case U64(n) => Some(DecimalText(n))
    case _ => None
  }

  /** `get_value_id`: a string id parsed as u64 (0 when that fails), a u64 id itself, otherwise 0. */
  function GetValueId(item: Json): (r: nat)
    ensures r < U64Limit
  {
    match Field(item, "id")
    case Str(s) => (match ParseU64(s) case Some(v) => v case None => 0)
    case U64(n) => n
    case _ => 0
  }

  /** `is_value_equal_str`: whether the item's id is the path segment id. */
  predicate IsValueEqualStr(item: Json, id: string): (r: bool)
    ensures r <==> IdText(item) == Some(id)
  {
    match Field(item, "id")
    case Str(s) => s == id
    case U64(n) => DecimalText(n) == id
    case _ => false
  }

  /** `is_value_equal_value`: whether two items carry the same identifier. */
  predicate IsValueEqualValue(item: Json, data: Json): (r: bool)
    ensures r <==> IdText(item).Some? && IdText(item) == IdText(data)
  {
    match Field(item, "id")
    case Str(s) =>
      (match Field(data, "id")
       case Str(t) => s == t
       case U64(m) => s == DecimalText(m)
       case _ => false)
    case U64(n) =>
      (match Field(data, "id")
       case Str(t) => DecimalText(n) == t
       case U64(m) => DecimalTextInjective(n, m); n == m
       case _ => false)
    case _ => false
  }

  /** Identifier equality does not depend on the order of the items. */
  lemma IsValueEqualValueSymmetric(item: Json, data: Json)
    ensures IsValueEqualValue(item, data) <==> IsValueEqualValue(data, item)
  {
  }

  /** An item without an identifier equals nothing, not even another item without one. */
  lemma NoIdEqualsNothing(item: Json, data: Json, id: string)
    requires IdText(item).None?
    ensures !IsValueEqualValue(item, data) && !IsValueEqualValue(data, item)
    ensures !IsValueEqualStr(item, id)
  {
  }

  /** Two items that both match the same path segment carry the same identifier. */
  lemma SameSegmentSameId(a: Json, b: Json, id: string)
    requires IsValueEqualStr(a, id) && IsValueEqualStr(b, id)
    ensures IsValueEqualValue(a, b)
  {
  }

  /**
   * get_value_id through the identifier's text: the parse of that text,
   * or 0 when there is no identifier or its text is not a u64.
   */
  lemma GetValueIdViaText(item: Json)
    ensures GetValueId(item) == match IdText(item)
                                case Some(t) => (match ParseU64(t) case Some(v) => v case None => 0)
                                case None => 0
  {
    if Field(item, "id").U64? {
      ParseDecimalText(Field(item, "id").n);
    }
  }

  /** A u64 id is returned unchanged, and a string id that is the decimal text of a u64 is that u64. */
  lemma GetValueIdOfText(item: Json, n: nat)
    requires n < U64Limit && IdText(item) == Some(DecimalText(n))
    ensures GetValueId(item) == n
  {
    GetValueIdViaText(item);
    ParseDecimalText(n);
  }

  /** {"id": 5} and {"id": "5"} both match the path segment "5", and match each other. */
  lemma NumericAndTextualIdsAgree()
    ensures IsValueEqualStr(Obj(map["id" := U64(5)]), "5")
    ensures IsValueEqualStr(Obj(map["id" := Str("5")]), "5")
    ensures IsValueEqualValue(Obj(map["id" := U64(5)]), Obj(map["id" := Str("5")]))
    ensures GetValueId(Obj(map["id" := Str("5")])) == 5
  {
    assert DecimalText(5) == "5";
    assert "5"[..0] == "";
    assert ParseU64("5") == Some(5);
  }
}
