/**
 * The JSON mock server's store (`Mutex<HashMap<String, Value>>`) and its
 * eight route handlers, one call at a time. Each handler takes the lock,
 * reads the named entry and, when it succeeds in changing something,
 * writes the new entry back and flushes the whole map to the backing file.
 *
 * A handler that panics while holding the lock poisons it: every later
 * `lock().unwrap()` panics too. The flush always goes to `db.json` in the
 * working directory, whichever file the server was started on; it is kept
 * only as a ghost snapshot of what that file holds.
 */
module JsonServer {
  import opened Decimal
  import opened JsonValue
  import opened JsonHandlers

  class Store {
    /** The collections, by name. */
    var db: map<string, Json>
    /** Whether a handler panicked while holding the lock. */
    var poisoned: bool
    /** What `db.json` holds: the map as of the last flush, or its contents at startup. */
    ghost var flushed: map<string, Json>

    /** `db.json` agrees with the map. */
    ghost predicate Valid()
      reads this
    {
      flushed == db
    }

    /**
     * The store as parsed from the file the server was started on; onDisk is
     * what `db.json` holds at that moment. The two agree when the server was
     * started on `db.json` itself, and otherwise from the first write on.
     */
    constructor(initial: map<string, Json>, ghost onDisk: map<string, Json>)
      ensures db == initial && !poisoned && flushed == onDisk
      ensures Valid() <==> initial == onDisk
    {
      db := initial;
      poisoned := false;
      flushed := onDisk;
    }

    /** `inset_and_write`: sets the entry for name and flushes the whole map. */
    method InsetAndWrite(name: string, value: Json)
      modifies this
      ensures db == old(db)[name := value]
      ensures flushed == db && poisoned == old(poisoned)
    {
      db := db[name := value];
      flushed := db;
    }

    /** GET /name. */
    method GetName(name: string) returns (r: Response)
      ensures r == if poisoned then Panic else JsonHandlers.GetName(db, name)
    {
      if poisoned {
        return Panic;
      }
      var found := CheckDbValueIsEmpty(Lookup(db, name));
      r := found;
    }

    /** GET /name/id. */
    method GetNameId(name: string, id: string) returns (r: Response)
      ensures r == if poisoned then Panic else JsonHandlers.GetNameId(db, name, id)
    {
      if poisoned {
        return Panic;
      }
      var found := CheckDbValueIsArray(Lookup(db, name), false);
      if !found.Ok? {
        return found;
      }
      var items := found.value.items;
      var k := FindId(items, id);
      if k.None? {
        return NotFound;
      }
      r := Ok(items[k.value]);
    }

    /** POST /name. */
    method PostName(name: string, body: Json) returns (r: Response)
      modifies this
      ensures flushed == if r.Ok? then db else old(flushed)
      ensures Valid() <==> r.Ok? || old(Valid())
      ensures old(poisoned) ==> r == Panic && db == old(db)
      ensures !old(poisoned) ==> Step(r, db) == JsonHandlers.PostName(old(db), name, body)
      ensures poisoned == (old(poisoned) || r.Panic?)
    {
      if poisoned {
        return Panic;
      }
      var found := CheckDbValueIsEmpty(Lookup(db, name));
      if !found.Ok? {
        return found;
      }
      if !found.value.Arr? {
        InsetAndWrite(name, body);
        return Ok(body);
      }
      var items := found.value.items;
      if Field(body, "id").Null? {
        if items == [] {
          poisoned := true;
          return Panic;
        }
        var maxId := MaxId(items);
        if maxId + 1 >= U64Limit {
          poisoned := true;
          return Panic;
        }
        var item := SetField(body, "id", U64(maxId + 1));
        if item.None? {
          poisoned := true;
          return Panic;
        }
        items := items + [item.value];
        InsetAndWrite(name, Arr(items));
        return Ok(item.value);
      }
      if HasSameId(items, body) {
        return Conflict(body);
      }
      items := items + [body];
      InsetAndWrite(name, Arr(items));
      r := Ok(body);
    }

    /** PUT /name. */
    method PutName(name: string, body: Json) returns (r: Response)
      modifies this
      ensures poisoned == old(poisoned)
      ensures flushed == if r.Ok? then db else old(flushed)
      ensures Valid() <==> r.Ok? || old(Valid())
      ensures old(poisoned) ==> r == Panic && db == old(db)
      ensures !old(poisoned) ==> Step(r, db) == JsonHandlers.PutName(old(db), name, body)
    {
      if poisoned {
        return Panic;
      }
      var found := CheckDbValueIsArray(Lookup(db, name), true);
      if !found.Ok? {
        return found;
      }
      InsetAndWrite(name, body);
      r := Ok(body);
    }

    /** PUT /name/id. */
    method PutNameId(name: string, id: string, body: Json) returns (r: Response)
      modifies this
      ensures flushed == if r.Ok? then db else old(flushed)
      ensures Valid() <==> r.Ok? || old(Valid())
      ensures old(poisoned) ==> r == Panic && db == old(db)
      ensures !old(poisoned) ==> Step(r, db) == JsonHandlers.PutNameId(old(db), name, id, body)
      ensures poisoned == (old(poisoned) || r.Panic?)
    {
      if poisoned {
        return Panic;
      }
      var found := CheckDbValueIsArray(Lookup(db, name), false);
      if !found.Ok? {
        return found;
      }
      var items := found.value.items;
      var k := FindId(items, id);
      if k.None? {
        return NotFound;
      }
      var item := SetField(body, "id", Field(items[k.value], "id"));
      if item.None? {
        poisoned := true;
        return Panic;
      }
      var kept := RemoveId(items, id) + [item.value];
      InsetAndWrite(name, Arr(kept));
      r := Ok(item.value);
    }

    /** PATCH /name. */
    method PatchName(name: string, body: Json) returns (r: Response)
      modifies this
      ensures flushed == if r.Ok? then db else old(flushed)
      ensures Valid() <==> r.Ok? || old(Valid())
      ensures old(poisoned) ==> r == Panic && db == old(db)
      ensures !old(poisoned) ==> Step(r, db) == JsonHandlers.PatchName(old(db), name, body)
      ensures poisoned == (old(poisoned) || r.Panic?)
    {
      if poisoned {
        return Panic;
      }
      var found := CheckDbValueIsArray(Lookup(db, name), true);
      if !found.Ok? {
        return found;
      }
      var stored := found.value;
      if !stored.Obj? || !body.Obj? {
        poisoned := true;
        return Panic;
      }
      stored := Obj(Extend(stored.fields, body.fields));
      InsetAndWrite(name, stored);
      r := Ok(stored);
    }

    /** PATCH /name/id. */
    method PatchNameId(name: string, id: string, body: Json) returns (r: Response)
      modifies this
      ensures flushed == if r.Ok? then db else old(flushed)
      ensures Valid() <==> r.Ok? || old(Valid())
      ensures old(poisoned) ==> r == Panic && db == old(db)
      ensures !old(poisoned) ==> Step(r, db) == JsonHandlers.PatchNameId(old(db), name, id, body)
      ensures poisoned == (old(poisoned) || r.Panic?)
    {
      if poisoned {
        return Panic;
      }
      var found := CheckDbValueIsArray(Lookup(db, name), false);
      if !found.Ok? {
        return found;
      }
      var items := found.value.items;
      var k := FindId(items, id);
      if k.None? {
        return NotFound;
      }
      var data := SetField(body, "id", Field(items[k.value], "id"));
      if data.None? {
        poisoned := true;
        return Panic;
      }
      var item := items[k.value];
      item := Obj(Extend(item.fields, data.value.fields));
      var kept := RemoveId(items, id) + [item];
      InsetAndWrite(name, Arr(kept));
      r := Ok(item);
    }

    /** DELETE /name/id. */
    method DeleteNameId(name: string, id: string) returns (r: Response)
      modifies this
      ensures poisoned == old(poisoned)
      ensures flushed == if r.Ok? then db else old(flushed)
      ensures Valid() <==> r.Ok? || old(Valid())
      ensures old(poisoned) ==> r == Panic && db == old(db)
      ensures !old(poisoned) ==> Step(r, db) == JsonHandlers.DeleteNameId(old(db), name, id)
    {
      if poisoned {
        return Panic;
      }
      var found := CheckDbValueIsArray(Lookup(db, name), false);
      if !found.Ok? {
        return found;
      }
      var items := found.value.items;
      var k := FindId(items, id);
      if k.None? {
        return NotFound;
      }
      InsetAndWrite(name, Arr(RemoveId(items, id)));
      r := Ok(EmptyObject);
    }
  }
}
