/**
 * The server's handlers run against a small seed store:
 * {"posts": [{"id": 1, "title": "a"}, {"id": 2, "title": "b"}], "profile": {"name": "x"}}.
 */
module JsonSeed {
  import opened Wrappers
  import opened Decimal
  import opened JsonValue
  import opened JsonIds
  import opened JsonHandlers
  import JsonServer

  const Post1: Json := Obj(map["id" := U64(1), "title" := Str("a")])
  const Post2: Json := Obj(map["id" := U64(2), "title" := Str("b")])
  const Profile: Json := Obj(map["name" := Str("x")])
  const Seed: map<string, Json> := map["posts" := Arr([Post1, Post2]), "profile" := Profile]

  lemma SmallIds()
    ensures DecimalText(1) == "1" && DecimalText(2) == "2" && DecimalText(3) == "3"
  {
  }

  /** GET /profile gives the profile; GET /posts/1 gives the first post; GET /posts/9 is a 404. */
  lemma SeedGets()
    ensures GetName(Seed, "profile") == Ok(Profile)
    ensures GetNameId(Seed, "posts", "1") == Ok(Post1)
    ensures GetNameId(Seed, "posts", "9") == NotFound
  {
    SmallIds();
    assert IsValueEqualStr(Post1, "1");
    assert !IsValueEqualStr(Post1, "9") && !IsValueEqualStr(Post2, "9");
  }

  /** POST /posts {"title": "c"} is given id 3 = max(1, 2) + 1 and appended. */
  lemma SeedPostWithoutId()
    ensures var s := PostName(Seed, "posts", Obj(map["title" := Str("c")]));
            var post3 := Obj(map["title" := Str("c"), "id" := U64(3)]);
            && s.response == Ok(post3)
            && s.db == Seed["posts" := Arr([Post1, Post2, post3])]
            && GetName(s.db, "posts") == Ok(Arr([Post1, Post2, post3]))
  {
    var items := [Post1, Post2];
    assert GetValueId(Post1) == 1 && GetValueId(Post2) == 2;
    assert MaxId(items) == 2 by {
      assert items[1..] == [Post2];
    }
    assert [Post1, Post2] + [Obj(map["title" := Str("c"), "id" := U64(3)])]
        == [Post1, Post2, Obj(map["title" := Str("c"), "id" := U64(3)])];
  }

  /** POST /posts {"id": 1, "title": "dup"} is refused with a 500 and leaves the first post as it was. */
  lemma SeedPostDuplicate()
    ensures var body := Obj(map["id" := U64(1), "title" := Str("dup")]);
            var s := PostName(Seed, "posts", body);
            && s == Step(Conflict(body), Seed)
            && GetNameId(s.db, "posts", "1") == Ok(Post1)
  {
    var body := Obj(map["id" := U64(1), "title" := Str("dup")]);
    assert IsValueEqualValue([Post1, Post2][0], body);
    SeedGets();
  }

  /** PUT /profile replaces the profile; PUT /posts is a 404 because posts is an array. */
  lemma SeedPuts()
    ensures PutName(Seed, "profile", Obj(map["name" := Str("y")])).response == Ok(Obj(map["name" := Str("y")]))
    ensures PutName(Seed, "posts", Obj(map["x" := U64(1)])) == Step(NotFound, Seed)
  {
  }

  /** PATCH /posts/2 {"title": "b2", "id": 999} keeps id 2 and takes the new title. */
  lemma SeedPatchForcesId()
    ensures var s := PatchNameId(Seed, "posts", "2", Obj(map["title" := Str("b2"), "id" := U64(999)]));
            s.response == Ok(Obj(map["id" := U64(2), "title" := Str("b2")]))
  {
    assert Seed["posts"] == Arr([Post1, Post2]);
    SeedFindsPost2();
    SeedMergesPost2();
  }

  lemma SeedFindsPost2()
    ensures FindId([Post1, Post2], "2") == Some(1)
  {
    SmallIds();
    assert !IsValueEqualStr(Post1, "2");
    assert IsValueEqualStr(Post2, "2");
    assert [Post1, Post2][1..] == [Post2];
  }

  lemma SeedMergesPost2()
    ensures var data := SetField(Obj(map["title" := Str("b2"), "id" := U64(999)]), "id", Field(Post2, "id"));
            && data.Some? && data.value.Obj?
            && Obj(Extend(Post2.fields, data.value.fields)) == Obj(map["id" := U64(2), "title" := Str("b2")])
  {
    var data := map["title" := Str("b2"), "id" := U64(999)]["id" := U64(2)];
    assert data == map["title" := Str("b2"), "id" := U64(2)];
    assert Extend(Post2.fields, data) == map["id" := U64(2), "title" := Str("b2")];
  }

  /** DELETE /posts/1 answers `{}`; afterwards GET /posts/1 and a second DELETE /posts/1 are 404s. */
  lemma SeedDelete()
    ensures var s := DeleteNameId(Seed, "posts", "1");
            && s.response == Ok(EmptyObject)
            && s.db == Seed["posts" := Arr([Post2])]
            && GetNameId(s.db, "posts", "1") == NotFound
            && DeleteNameId(s.db, "posts", "1") == Step(NotFound, s.db)
  {
    SmallIds();
    var items := [Post1, Post2];
    assert Seed["posts"] == Arr(items);
    assert IsValueEqualStr(Post1, "1") && !IsValueEqualStr(Post2, "1");
    assert RemoveId([Post1], "1") == [] by {
      assert [Post1][..0] == [];
    }
    assert RemoveId(items, "1") == RemoveId([Post1], "1") + [Post2] by {
      assert items[..1] == [Post1];
    }
    assert RemoveId(items, "1") == [Post2];
    assert [Post2][1..] == [];
  }

  /** The same requests made one after another on a Store object starting from the seed. */
  method SeedSession() returns (created: Response, duplicate: Response, deleted: Response, again: Response)
    ensures created == Ok(Obj(map["title" := Str("c"), "id" := U64(3)]))
    ensures duplicate == Conflict(Obj(map["id" := U64(1), "title" := Str("dup")]))
    ensures deleted == Ok(EmptyObject)
    ensures again == NotFound
  {
    var store := new JsonServer.Store(Seed, Seed);
    SeedPostDuplicate();
    duplicate := store.PostName("posts", Obj(map["id" := U64(1), "title" := Str("dup")]));
    SeedDelete();
    deleted := store.DeleteNameId("posts", "1");
    again := store.DeleteNameId("posts", "1");
    SeedPostAfterDelete();
    created := store.PostName("posts", Obj(map["title" := Str("c")]));
  }

  /** Once the first post is gone, the maximum id is 2, so a new post still gets id 3. */
  lemma SeedPostAfterDelete()
    ensures var db := Seed["posts" := Arr([Post2])];
            PostName(db, "posts", Obj(map["title" := Str("c")])).response
              == Ok(Obj(map["title" := Str("c"), "id" := U64(3)]))
  {
    assert MaxId([Post2]) == 2;
  }
}
