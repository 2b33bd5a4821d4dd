/**
 * The rules the JSON mock server keeps, proved about the handler steps of
 * JsonHandlers: how ids are assigned and forced, what a merge keeps, what
 * a delete drops, and that the item-level handlers never give two items
 * of a collection the same identifier.
 */
module JsonRules {
  import opened Wrappers
  import opened Decimal
  import opened JsonValue
  import opened JsonIds
  import opened JsonHandlers

  /** No two items of a collection carry the same identifier. */
  ghost predicate DistinctIds(items: seq<Json>)
  {
    forall i, j :: 0 <= i < j < |items| ==> !IsValueEqualValue(items[i], items[j])
  }

  /** RemoveId keeps exactly the items that do not match id. */
  lemma {:induction false} RemoveIdKeepsNonMatching(items: seq<Json>, id: string)
    ensures forall x :: x in RemoveId(items, id) <==> x in items && !IsValueEqualStr(x, id)
  {
    if items != [] {
      var init := items[..|items| - 1];
      RemoveIdKeepsNonMatching(init, id);
      assert items == init + [items[|items| - 1]];
    }
  }

  /** RemoveId keeps order: removing from a concatenation removes from each part. */
  lemma {:induction false} RemoveIdAppend(a: seq<Json>, b: seq<Json>, id: string)
    ensures RemoveId(a + b, id) == RemoveId(a, id) + RemoveId(b, id)
    decreases |b|
  {
    if b == [] {
      assert a + b == a;
    } else {
      var init := b[..|b| - 1];
      RemoveIdAppend(a, init, id);
      assert (a + b)[..|a + b| - 1] == a + init;
    }
  }

  /** When no item matches id, RemoveId changes nothing. */
  lemma {:induction false} RemoveIdNoMatch(items: seq<Json>, id: string)
    requires forall i :: 0 <= i < |items| ==> !IsValueEqualStr(items[i], id)
    ensures RemoveId(items, id) == items
  {
    if items != [] {
      RemoveIdNoMatch(items[..|items| - 1], id);
    }
  }

  /** Dropping items from a collection with distinct ids leaves distinct ids. */
  lemma {:induction false} RemoveIdKeepsDistinct(items: seq<Json>, id: string)
    requires DistinctIds(items)
    ensures DistinctIds(RemoveId(items, id))
  {
    if items != [] {
      var init := items[..|items| - 1];
      var last := items[|items| - 1];
      assert DistinctIds(init);
      RemoveIdKeepsDistinct(init, id);
      RemoveIdKeepsNonMatching(init, id);
      if !IsValueEqualStr(last, id) {
        var rest := RemoveId(init, id);
        forall x | x in rest
          ensures !IsValueEqualValue(x, last)
        {
          var i :| 0 <= i < |init| && init[i] == x;
          assert items[i] == x;
        }
        AppendKeepsDistinct(rest, last);
      }
    }
  }

  /** Appending an item whose identifier no item shares keeps ids distinct. */
  lemma AppendKeepsDistinct(items: seq<Json>, item: Json)
    requires DistinctIds(items)
    requires forall x :: x in items ==> !IsValueEqualValue(x, item)
    ensures DistinctIds(items + [item])
  {
    var r := items + [item];
    forall i, j | 0 <= i < j < |r|
      ensures !IsValueEqualValue(r[i], r[j])
    {
      if j == |items| {
        assert r[i] in items;
      }
    }
  }

  /** The id MaxId + 1 is carried by no item of the collection. */
  lemma AutoIdIsFresh(items: seq<Json>, item: Json)
    requires items != [] && MaxId(items) + 1 < U64Limit
    requires Field(item, "id") == U64(MaxId(items) + 1)
    ensures forall i :: 0 <= i < |items| ==> !IsValueEqualValue(items[i], item)
  {
    var next := MaxId(items) + 1;
    forall i | 0 <= i < |items|
      ensures !IsValueEqualValue(items[i], item)
    {
      if IsValueEqualValue(items[i], item) {
        GetValueIdOfText(items[i], next);
      }
    }
  }

  /**
   * POST on an array without an id: the body gets id MaxId + 1, keeps its
   * other fields, is appended at the end, and its id is new to the collection.
   */
  lemma PostAssignsNextId(db: map<string, Json>, name: string, body: Json)
    requires name in db && db[name].Arr? && db[name].items != []
    requires Field(body, "id").Null? && (body.Obj? || body.Null?)
    requires MaxId(db[name].items) + 1 < U64Limit
    ensures var s := PostName(db, name, body);
            var items := db[name].items;
            && s.response.Ok?
            && s.response.value.Obj? && s.response.value.fields.Keys == Fields(body).Keys + {"id"}
            && Field(s.response.value, "id") == U64(MaxId(items) + 1)
            && (forall k :: k != "id" ==> Field(s.response.value, k) == Field(body, k))
            && s.db[name] == Arr(items + [s.response.value])
            && forall i :: 0 <= i < |items| ==> !IsValueEqualValue(items[i], s.response.value)
  {
    var s := PostName(db, name, body);
    AutoIdIsFresh(db[name].items, s.response.value);
  }

  /** POST without an id on an empty array has no maximum to take: it panics and changes nothing. */
  lemma PostOnEmptyArrayPanics(db: map<string, Json>, name: string, body: Json)
    requires name in db && db[name] == Arr([]) && Field(body, "id").Null?
    ensures PostName(db, name, body) == Step(Panic, db)
  {
  }

  /** POST with an id some item already carries is refused with a 500 naming the body, and changes nothing. */
  lemma PostDuplicateIsRefused(db: map<string, Json>, name: string, body: Json, i: nat)
    requires name in db && db[name].Arr? && i < |db[name].items|
    requires IsValueEqualValue(db[name].items[i], body)
    ensures PostName(db, name, body) == Step(Conflict(body), db)
  {
    assert !Field(body, "id").Null?;
  }

  /** POST with an id no item carries appends the body unchanged. */
  lemma PostNewIdAppends(db: map<string, Json>, name: string, body: Json)
    requires name in db && db[name].Arr? && !Field(body, "id").Null?
    requires forall i :: 0 <= i < |db[name].items| ==> !IsValueEqualValue(db[name].items[i], body)
    ensures PostName(db, name, body) == Step(Ok(body), db[name := Arr(db[name].items + [body])])
  {
  }

  /** POST on a value that is not an array replaces it by the body. */
  lemma PostReplacesNonArray(db: map<string, Json>, name: string, body: Json)
    requires name in db && !db[name].Arr?
    ensures PostName(db, name, body) == Step(Ok(body), db[name := body])
  {
  }

  /** PUT /name answers 404 for a missing name or an array, and otherwise replaces the value by the body. */
  lemma PutNameRule(db: map<string, Json>, name: string, body: Json)
    ensures var s := PutName(db, name, body);
            if name in db && !db[name].Arr? then s == Step(Ok(body), db[name := body])
            else s == Step(NotFound, db)
  {
  }

  /** PATCH /name on a missing name or an array answers 404 and changes nothing. */
  lemma PatchNameRefusesArrays(db: map<string, Json>, name: string, body: Json)
    requires name !in db || db[name].Arr?
    ensures PatchName(db, name, body) == Step(NotFound, db)
  {
  }

  /**
   * PATCH /name merges at the top level: a field of the body overwrites,
   * every other stored field stays, and nested values are taken whole.
   */
  lemma PatchNameMerges(db: map<string, Json>, name: string, body: Json)
    requires name in db && db[name].Obj? && body.Obj?
    ensures var s := PatchName(db, name, body);
            && s.response.Ok?
            && s.db[name] == s.response.value
            && s.response.value.fields.Keys == db[name].fields.Keys + body.fields.Keys
            && forall k :: Field(s.response.value, k) == if k in body.fields then body.fields[k] else Field(db[name], k)
  {
  }

  /**
   * PUT /name/id: the answer is the body with the matched item's id put
   * back, and it replaces every matching item at the end of the collection.
   */
  lemma PutNameIdForcesId(db: map<string, Json>, name: string, id: string, body: Json)
    requires PutNameId(db, name, id, body).response.Ok?
    ensures var s := PutNameId(db, name, id, body);
            var items := db[name].items;
            var k := FindId(items, id).value;
            && Field(s.response.value, "id") == Field(items[k], "id")
            && IdText(s.response.value) == Some(id)
            && s.response.value.Obj? && s.response.value.fields.Keys == Fields(body).Keys + {"id"}
            && (forall f :: f != "id" ==> Field(s.response.value, f) == Field(body, f))
            && s.db[name] == Arr(RemoveId(items, id) + [s.response.value])
  {
  }

  /**
   * PATCH /name/id: the answer is the first matching item with the body's
   * fields written over it, except that its id stays; it replaces every
   * matching item at the end of the collection.
   */
  lemma PatchNameIdMergesAndForcesId(db: map<string, Json>, name: string, id: string, body: Json)
    requires PatchNameId(db, name, id, body).response.Ok?
    ensures var s := PatchNameId(db, name, id, body);
            var items := db[name].items;
            var k := FindId(items, id).value;
            && Field(s.response.value, "id") == Field(items[k], "id")
            && IdText(s.response.value) == Some(id)
            && items[k].Obj? && s.response.value.Obj?
            && s.response.value.fields.Keys == items[k].fields.Keys + Fields(body).Keys
            && (forall f :: f != "id" ==> Field(s.response.value, f) == if body.Obj? && f in body.fields then body.fields[f] else Field(items[k], f))
            && s.db[name] == Arr(RemoveId(items, id) + [s.response.value])
  {
    var items := db[name].items;
    var k := FindId(items, id).value;
    var data := SetField(body, "id", Field(items[k], "id")).value;
    MergeOverItem(items[k], body, data);
  }

  /** The merge PATCH /name/id performs, field by field. */
  lemma MergeOverItem(item: Json, body: Json, data: Json)
    requires item.Obj? && Field(item, "id") != Null
    requires SetField(body, "id", Field(item, "id")) == Some(data)
    ensures var merged := Obj(Extend(item.fields, data.fields));
            && Field(merged, "id") == Field(item, "id")
            && IdText(merged) == IdText(item)
            && merged.fields.Keys == item.fields.Keys + Fields(body).Keys
            && forall f :: f != "id" ==> Field(merged, f) == if body.Obj? && f in body.fields then body.fields[f] else Field(item, f)
  {
  }

  /** A PUT or PATCH by id is refused with 404 when no item matches, and changes nothing. */
  lemma ByIdWithoutMatchIsNotFound(db: map<string, Json>, name: string, id: string, body: Json)
    requires name in db && db[name].Arr?
    requires forall i :: 0 <= i < |db[name].items| ==> !IsValueEqualStr(db[name].items[i], id)
    ensures PutNameId(db, name, id, body) == Step(NotFound, db)
    ensures PatchNameId(db, name, id, body) == Step(NotFound, db)
    ensures DeleteNameId(db, name, id) == Step(NotFound, db)
    ensures GetNameId(db, name, id) == NotFound
  {
  }

  /** DELETE drops every matching item, keeps the others in order, and answers `{}`. */
  lemma DeleteDropsAllMatches(db: map<string, Json>, name: string, id: string)
    requires DeleteNameId(db, name, id).response.Ok?
    ensures var s := DeleteNameId(db, name, id);
            && s.response == Ok(EmptyObject)
            && s.db[name] == Arr(RemoveId(db[name].items, id))
            && forall x :: x in s.db[name].items <==> x in db[name].items && !IsValueEqualStr(x, id)
  {
    RemoveIdKeepsNonMatching(db[name].items, id);
  }

  /** A repeated DELETE finds nothing: it answers 404 and changes nothing. */
  lemma DeleteTwiceIsNotFound(db: map<string, Json>, name: string, id: string)
    requires DeleteNameId(db, name, id).response.Ok?
    ensures var db' := DeleteNameId(db, name, id).db;
            DeleteNameId(db', name, id) == Step(NotFound, db')
  {
    var db' := DeleteNameId(db, name, id).db;
    RemoveIdKeepsNonMatching(db[name].items, id);
    assert forall i :: 0 <= i < |db'[name].items| ==> db'[name].items[i] in db'[name].items;
  }

  /** POST keeps the ids of an array collection distinct, whatever it answers. */
  lemma PostKeepsIdsDistinct(db: map<string, Json>, name: string, body: Json)
    requires name in db && db[name].Arr? && DistinctIds(db[name].items)
    ensures var s := PostName(db, name, body);
            s.db[name].Arr? && DistinctIds(s.db[name].items)
  {
    var s := PostName(db, name, body);
    var items := db[name].items;
    if s.response.Ok? {
      var item := s.response.value;
      if Field(body, "id").Null? {
        AutoIdIsFresh(items, item);
      }
      forall x | x in items
        ensures !IsValueEqualValue(x, item)
      {
        var i :| 0 <= i < |items| && items[i] == x;
      }
      AppendKeepsDistinct(items, item);
    }
  }

  /** The item written by a PUT or PATCH by id matches id, which no remaining item does. */
  lemma ReplaceKeepsDistinct(items: seq<Json>, id: string, item: Json)
    requires DistinctIds(items) && IdText(item) == Some(id)
    ensures DistinctIds(RemoveId(items, id) + [item])
  {
    RemoveIdKeepsDistinct(items, id);
    RemoveIdKeepsNonMatching(items, id);
    AppendKeepsDistinct(RemoveId(items, id), item);
  }

  /** PUT, PATCH and DELETE by id keep the ids of an array collection distinct. */
  lemma ByIdKeepsIdsDistinct(db: map<string, Json>, name: string, id: string, body: Json)
    requires name in db && db[name].Arr? && DistinctIds(db[name].items)
    ensures PutNameId(db, name, id, body).db[name].Arr?
    ensures DistinctIds(PutNameId(db, name, id, body).db[name].items)
    ensures PatchNameId(db, name, id, body).db[name].Arr?
    ensures DistinctIds(PatchNameId(db, name, id, body).db[name].items)
    ensures DeleteNameId(db, name, id).db[name].Arr?
    ensures DistinctIds(DeleteNameId(db, name, id).db[name].items)
  {
    var items := db[name].items;
    var put := PutNameId(db, name, id, body);
    if put.response.Ok? {
      ReplaceKeepsDistinct(items, id, put.response.value);
    }
    var patch := PatchNameId(db, name, id, body);
    if patch.response.Ok? {
      ReplaceKeepsDistinct(items, id, patch.response.value);
    }
    RemoveIdKeepsDistinct(items, id);
  }
}
