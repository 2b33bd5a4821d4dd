/**
 * What each handler of the JSON mock server does to the store, one call at
 * a time: the guards, the searches over a collection's items, and for every
 * route the response it gives and the store it leaves behind. The Store
 * class in JsonServer performs these steps in place.
 */
module JsonHandlers {
  import opened Wrappers
  import opened Decimal
  import opened JsonValue
  import opened JsonIds

  /** A handler's answer: a 200 with a value, an error status with a body, or a panic. */
  datatype Response = Ok(value: Json) | Err(status: nat, body: Json) | Panic

  /** The response of a handler together with the store after it. */
  datatype Step = Step(response: Response, db: map<string, Json>)

  /** 404 with `{}`. */
  const NotFound: Response := Err(404, EmptyObject)

  /** 500 with the rejected body, for a POST whose id is already taken. */
  function Conflict(body: Json): (r: Response)
    ensures r.Err? && r.status == 500 && r.body.Obj?
    ensures r.body.fields.Keys == {"error", "data"} && r.body.fields["data"] == body
  {
    Err(500, Obj(map["error" := Str("Insert failed, duplicate id"), "data" := body]))
  }

  /** `db.get(name)`. */
  function Lookup(db: map<string, Json>, name: string): (r: Option<Json>)
    ensures r.Some? <==> name in db
    ensures r.Some? ==> r.value == db[name]
  {
    if name in db then Some(db[name]) else None
  }

  /** `check_db_value_is_empty`: a stored value passes, a missing one is a 404. */
  function CheckDbValueIsEmpty(dbValue: Option<Json>): (r: Response)
    ensures r.Ok? <==> dbValue.Some?
    ensures r.Ok? ==> r.value == dbValue.value
    ensures !r.Ok? ==> r == NotFound
  {
    match dbValue
    case Some(v) => Ok(v)
    case None => NotFound
  }

  /**
   * `check_db_value_is_array`: a missing value is a 404, and so is a value
   * whose being an array equals isArray. With isArray false only arrays
   * pass; with isArray true only non-arrays pass.
   */
  function CheckDbValueIsArray(dbValue: Option<Json>, isArray: bool): (r: Response)
    ensures r.Ok? <==> dbValue.Some? && dbValue.value.Arr? != isArray
    ensures r.Ok? ==> r.value == dbValue.value
    ensures !r.Ok? ==> r == NotFound
  {
    var found := CheckDbValueIsEmpty(dbValue);
    if !found.Ok? then found
    else if found.value.Arr? == isArray then NotFound
    else found
  }

  /** `iter().find(|item| is_value_equal_str(item, id))`, as the position of the first match. */
  function FindId(items: seq<Json>, id: string): (r: Option<nat>)
    ensures r.Some? ==> r.value < |items| && IsValueEqualStr(items[r.value], id)
    ensures r.Some? ==> forall j :: 0 <= j < r.value ==> !IsValueEqualStr(items[j], id)
    ensures r.None? <==> forall j :: 0 <= j < |items| ==> !IsValueEqualStr(items[j], id)
  {
    if items == [] then None
    else if IsValueEqualStr(items[0], id) then Some(0)
    else
      match FindId(items[1..], id)
      case Some(k) => Some(k + 1)
      case None => None
  }

  /** Whether some item carries the same identifier as data (the duplicate check of POST). */
  predicate HasSameId(items: seq<Json>, data: Json): (r: bool)
    ensures r ==> IdText(data).Some?
    ensures r <==> exists i :: 0 <= i < |items| && IdText(items[i]).Some? && IdText(items[i]) == IdText(data)
  {
    exists i :: 0 <= i < |items| && IsValueEqualValue(items[i], data)
  }

  /** `filter(|item| !is_value_equal_str(item, id))`: the items that do not match id, in order. */
  function RemoveId(items: seq<Json>, id: string): (r: seq<Json>)
    ensures |r| <= |items|
    ensures forall i :: 0 <= i < |r| ==> r[i] in items && !IsValueEqualStr(r[i], id)
  {
    if items == [] then []
    else
      var rest := RemoveId(items[..|items| - 1], id);
      var last := items[|items| - 1];
      if IsValueEqualStr(last, id) then rest else rest + [last]
  }

  /** `map(get_value_id).max()` over a non-empty collection. */
  function MaxId(items: seq<Json>): (m: nat)
    requires items != []
    ensures m < U64Limit
    ensures forall i :: 0 <= i < |items| ==> GetValueId(items[i]) <= m
    ensures exists i :: 0 <= i < |items| && GetValueId(items[i]) == m
  {
    if |items| == 1 then GetValueId(items[0])
    else
      var rest := MaxId(items[1..]);
      assert forall i :: 1 <= i < |items| ==> items[i] == items[1..][i - 1];
      if GetValueId(items[0]) >= rest then GetValueId(items[0]) else rest
  }

  /** The store after a successful write of value under name (`inset_and_write`). */
  function Insert(db: map<string, Json>, name: string, value: Json): (r: map<string, Json>)
    ensures r.Keys == db.Keys + {name}
    ensures name in r && r[name] == value
    ensures forall k :: k in db && k != name ==> r[k] == db[k]
  {
    db[name := value]
  }

  /** Only the entry for name may change, no entry is added or removed, and a failed call changes nothing. */
  ghost predicate Confined(db: map<string, Json>, name: string, s: Step)
  {
    s.db.Keys == db.Keys
    && (forall k :: k in db && k != name ==> s.db[k] == db[k])
    && (!s.response.Ok? ==> s.db == db)
  }

  /** GET /name: the stored value, or a 404. */
  function GetName(db: map<string, Json>, name: string): (r: Response)
    ensures r.Ok? <==> name in db
    ensures r.Ok? ==> r.value == db[name]
    ensures !r.Ok? ==> r == NotFound
  {
    match Lookup(db, name)
    case Some(v) => Ok(v)
    case None => NotFound
  }

  /**
   * GET /name/id: the first item of an array collection whose id matches, or
   * a 404. A collection may hold several items with the same id.
   */
  function GetNameId(db: map<string, Json>, name: string, id: string): (r: Response)
    ensures r.Ok? <==> name in db && db[name].Arr?
                       && exists i :: 0 <= i < |db[name].items| && IsValueEqualStr(db[name].items[i], id)
    ensures r.Ok? ==> r.value in db[name].items && IsValueEqualStr(r.value, id)
    ensures r.Ok? ==> FindId(db[name].items, id).Some?
                      && r.value == db[name].items[FindId(db[name].items, id).value]
    ensures !r.Ok? ==> r == NotFound
  {
    var found := CheckDbValueIsArray(Lookup(db, name), false);
    if !found.Ok? then found
    else
      var items := found.value.items;
      match FindId(items, id)
      case Some(k) => Ok(items[k])
      case None => NotFound
  }

  /**
   * POST /name. A non-array collection is replaced by the body. For an
   * array, a body without an id (or with a null one) gets id MaxId + 1 and
   * is appended; a body whose id is taken is refused with a 500; any other
   * body is appended as it is.
   */
  function PostName(db: map<string, Json>, name: string, body: Json): (s: Step)
    ensures Confined(db, name, s)
    ensures name !in db ==> s == Step(NotFound, db)
    ensures name in db && db[name].Arr? && !body.Null? && !body.Obj? ==> s == Step(Panic, db)
    ensures name in db && db[name].Arr? && Field(body, "id").Null? && db[name].items != []
            && MaxId(db[name].items) + 1 >= U64Limit
            ==> s == Step(Panic, db)
  {
    var found := CheckDbValueIsEmpty(Lookup(db, name));
    if !found.Ok? then Step(found, db)
    else if !found.value.Arr? then Step(Ok(body), Insert(db, name, body))
    else
      var items := found.value.items;
      if Field(body, "id").Null? then
        if items == [] then Step(Panic, db)
        else
          var next := MaxId(items) + 1;
          if next >= U64Limit then Step(Panic, db)
          else
            match SetField(body, "id", U64(next))
            case None => Step(Panic, db)
            case Some(item) => Step(Ok(item), Insert(db, name, Arr(items + [item])))
      else if HasSameId(items, body) then Step(Conflict(body), db)
      else Step(Ok(body), Insert(db, name, Arr(items + [body])))
  }

  /** PUT /name: a non-array collection is replaced by the body; a missing name or an array is a 404. */
  function PutName(db: map<string, Json>, name: string, body: Json): (s: Step)
    ensures Confined(db, name, s)
  {
    var found := CheckDbValueIsArray(Lookup(db, name), true);
    if !found.Ok? then Step(found, db)
    else Step(Ok(body), Insert(db, name, body))
  }

  /**
   * PUT /name/id: the body, with its id forced to the matched item's id,
   * replaces every item matching id; it goes to the end of the collection.
   */
  function PutNameId(db: map<string, Json>, name: string, id: string, body: Json): (s: Step)
    ensures Confined(db, name, s)
    ensures !(name in db && db[name].Arr?) ==> s == Step(NotFound, db)
    ensures name in db && db[name].Arr?
            && (forall i :: 0 <= i < |db[name].items| ==> !IsValueEqualStr(db[name].items[i], id))
            ==> s == Step(NotFound, db)
    ensures name in db && db[name].Arr?
            && (exists i :: 0 <= i < |db[name].items| && IsValueEqualStr(db[name].items[i], id))
            ==> (s.response.Ok? <==> body.Null? || body.Obj?) && (!s.response.Ok? ==> s == Step(Panic, db))
  {
    var found := CheckDbValueIsArray(Lookup(db, name), false);
    if !found.Ok? then Step(found, db)
    else
      var items := found.value.items;
      match FindId(items, id)
      case None => Step(NotFound, db)
      case Some(k) =>
        match SetField(body, "id", Field(items[k], "id"))
        case None => Step(Panic, db)
        case Some(item) => Step(Ok(item), Insert(db, name, Arr(RemoveId(items, id) + [item])))
  }

  /**
   * PATCH /name: the body's fields are written over the stored object's.
   * A missing name or an array is a 404; a stored value or a body that is
   * not an object makes `as_object().unwrap()` panic.
   */
  function PatchName(db: map<string, Json>, name: string, body: Json): (s: Step)
    ensures Confined(db, name, s)
    ensures name !in db || db[name].Arr? ==> s == Step(NotFound, db)
    ensures name in db && !db[name].Arr? && !(db[name].Obj? && body.Obj?) ==> s == Step(Panic, db)
    ensures name in db && db[name].Obj? && body.Obj? ==> s.response.Ok?
  {
    var found := CheckDbValueIsArray(Lookup(db, name), true);
    if !found.Ok? then Step(found, db)
    else if !found.value.Obj? || !body.Obj? then Step(Panic, db)
    else
      var merged := Obj(Extend(found.value.fields, body.fields));
      Step(Ok(merged), Insert(db, name, merged))
  }

  /**
   * PATCH /name/id: the body, with its id forced to the matched item's id,
   * is merged over the first matching item; the result replaces every item
   * matching id and goes to the end of the collection.
   */
  function PatchNameId(db: map<string, Json>, name: string, id: string, body: Json): (s: Step)
    ensures Confined(db, name, s)
    ensures !(name in db && db[name].Arr?) ==> s == Step(NotFound, db)
    ensures name in db && db[name].Arr?
            && (forall i :: 0 <= i < |db[name].items| ==> !IsValueEqualStr(db[name].items[i], id))
            ==> s == Step(NotFound, db)
    ensures name in db && db[name].Arr?
            && (exists i :: 0 <= i < |db[name].items| && IsValueEqualStr(db[name].items[i], id))
            ==> (s.response.Ok? <==> body.Null? || body.Obj?) && (!s.response.Ok? ==> s == Step(Panic, db))
  {
    var found := CheckDbValueIsArray(Lookup(db, name), false);
    if !found.Ok? then Step(found, db)
    else
      var items := found.value.items;
      match FindId(items, id)
      case None => Step(NotFound, db)
      case Some(k) =>
        match SetField(body, "id", Field(items[k], "id"))
        case None => Step(Panic, db)
        case Some(data) =>
          var merged := Obj(Extend(items[k].fields, data.fields));
          Step(Ok(merged), Insert(db, name, Arr(RemoveId(items, id) + [merged])))
  }

  /** DELETE /name/id: every item matching id is dropped and the answer is `{}`. */
  function DeleteNameId(db: map<string, Json>, name: string, id: string): (s: Step)
    ensures Confined(db, name, s)
    ensures !(name in db && db[name].Arr?) ==> s == Step(NotFound, db)
    ensures name in db && db[name].Arr?
            && (forall i :: 0 <= i < |db[name].items| ==> !IsValueEqualStr(db[name].items[i], id))
            ==> s == Step(NotFound, db)
    ensures name in db && db[name].Arr?
            && (exists i :: 0 <= i < |db[name].items| && IsValueEqualStr(db[name].items[i], id))
            ==> s.response == Ok(EmptyObject)
  {
    var found := CheckDbValueIsArray(Lookup(db, name), false);
    if !found.Ok? then Step(found, db)
    else
      var items := found.value.items;
      match FindId(items, id)
      case None => Step(NotFound, db)
      case Some(_) => Step(Ok(EmptyObject), Insert(db, name, Arr(RemoveId(items, id))))
  }
}
