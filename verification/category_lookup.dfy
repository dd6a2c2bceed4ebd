/** resolve_category_by_idnumber and resolve_category: the single-field lookups
    and the precedence id, then idnumber, then path. */
module CategoryLookup {
  import opened PhpText
  import opened CategoryPath

  /** The database query `idnumber = :idnumber` read with IGNORE_MISSING: the id
      of the first matching row, or nothing. */
  function FirstByIdnumber(store: seq<Category>, idnumber: string): Option<int>
    decreases |store|
  {
    if store == [] then None
    else if store[0].idnumber == idnumber then Some(store[0].id)
    else FirstByIdnumber(store[1..], idnumber)
  }

  /** Nothing is found exactly when no row has the idnumber; otherwise the answer
      is the id of the first such row. */
  lemma {:induction false} FirstByIdnumberFinds(store: seq<Category>, idnumber: string)
    ensures var r := FirstByIdnumber(store, idnumber);
      (r.None? <==> forall i :: 0 <= i < |store| ==> store[i].idnumber != idnumber)
      && (r.Some? ==> exists i :: 0 <= i < |store| && store[i].idnumber == idnumber && store[i].id == r.value
                                  && forall j :: 0 <= j < i ==> store[j].idnumber != idnumber)
    decreases |store|
  {
    if store != [] && store[0].idnumber != idnumber {
      var tail := store[1..];
      FirstByIdnumberFinds(tail, idnumber);
      forall i | 1 <= i < |store| ensures store[i] == tail[i - 1] { }
      var r := FirstByIdnumber(tail, idnumber);
      if r.Some? {
        var i :| 0 <= i < |tail| && tail[i].idnumber == idnumber && tail[i].id == r.value
                 && forall j :: 0 <= j < i ==> tail[j].idnumber != idnumber;
        assert store[i + 1] == tail[i];
      }
    } else if store != [] {
      assert store[0].idnumber == idnumber;
    }
  }

  /** resolve_category_by_idnumber: a cached entry answers without a query; on a
      miss the query's answer is cached, -1 standing for "not found"; -1 reads
      back as `false` (None). */
  function IdnumberLookup(s: St, idnumber: string): (r: (St, Option<int>))
    ensures r.0 == s.(idnCache := r.0.idnCache)
    ensures r.0.idnCache.Keys == s.idnCache.Keys + {idnumber}
    ensures forall k :: k in s.idnCache ==> r.0.idnCache[k] == s.idnCache[k]
    ensures r.1 == if r.0.idnCache[idnumber] == -1 then None else Some(r.0.idnCache[idnumber])
  {
    if idnumber in s.idnCache then
      (s, if s.idnCache[idnumber] == -1 then None else Some(s.idnCache[idnumber]))
    else
      var found := FirstByIdnumber(s.store, idnumber);
      var id := if found.Some? then found.value else -1;
      (s.(idnCache := s.idnCache[idnumber := id]), if id == -1 then None else Some(id))
  }

  /** On a miss the lookup answers the first category with that idnumber, or
      nothing when there is none, and caches exactly that answer; nothing else
      in the state changes. */
  lemma IdnumberMiss(s: St, idnumber: string)
    requires idnumber !in s.idnCache && StoreValid(s.store, s.nextId)
    ensures var (s', r) := IdnumberLookup(s, idnumber);
      s' == s.(idnCache := s.idnCache[idnumber := s'.idnCache[idnumber]])
      && (r.None? <==> forall i :: 0 <= i < |s.store| ==> s.store[i].idnumber != idnumber)
      && (r.None? <==> s'.idnCache[idnumber] == -1)
      && (r.Some? ==> s'.idnCache[idnumber] == r.value
                      && exists i :: 0 <= i < |s.store| && s.store[i].idnumber == idnumber
                                     && s.store[i].id == r.value)
  {
    var found := FirstByIdnumber(s.store, idnumber);
    FirstByIdnumberFinds(s.store, idnumber);
    if found.Some? {
      var i :| 0 <= i < |s.store| && s.store[i].idnumber == idnumber && s.store[i].id == found.value;
      assert s.store[i].id >= 1;
    }
  }

  /** In a valid state an idnumber lookup that finds something finds a
      positive id, so empty() is false on it. */
  lemma IdnumberPositive(s: St, idnumber: string)
    requires StoreValid(s.store, s.nextId) && CachedIdsOk(s.idnCache)
    ensures var r := IdnumberLookup(s, idnumber).1;
      r.Some? ==> r.value > 0
  {
    if idnumber !in s.idnCache {
      var found := FirstByIdnumber(s.store, idnumber);
      FirstByIdnumberFinds(s.store, idnumber);
      if found.Some? {
        var i :| 0 <= i < |s.store| && s.store[i].idnumber == idnumber && s.store[i].id == found.value;
      }
    }
  }

  /** A cached answer is never re-queried: a second lookup changes nothing and
      repeats the first answer, even if categories were created in between. */
  lemma IdnumberCachedForever(s: St, idnumber: string, store2: seq<Category>)
    ensures var (s1, r1) := IdnumberLookup(s, idnumber);
      var (s2, r2) := IdnumberLookup(s1.(store := store2), idnumber);
      s2 == s1.(store := store2) && r2 == r1
  {
  }

  /** The three message keys resolve_category may add. */
  const ErrById: string := "couldnotresolvecatgorybyid"
  const ErrByIdnumber: string := "couldnotresolvecatgorybyidnumber"

  /** The PHP value held by `$catid`: null, false, an integer id, or (through the
      flaw recorded under Findings) a category record object. */
  datatype CatId = NullId | FalseId | Id(id: int) | RecordObject(rec: Rec)

  /** PHP's empty() on `$catid`. */
  predicate CatIdEmpty(c: CatId) {
    c.NullId? || c.FalseId? || (c.Id? && c.id == 0)
  }

  /** What resolve_category returns: `$catid` with the error keys, or the
      exception thrown by the path walk. */
  datatype CatOutcome = Cat(catid: CatId, errors: set<string>) | CatThrown

  /** coursecat::get with IGNORE_MISSING: the category with this id, if any. */
  function FindById(store: seq<Category>, id: int): (r: Option<Category>)
    ensures r.Some? ==> r.value in store && r.value.id == id
    ensures r.None? ==> forall c :: c in store ==> c.id != id
    decreases |store|
  {
    if store == [] then None
    else if store[0].id == id then Some(store[0])
    else FindById(store[1..], id)
  }

  /** The branch of resolve_category that reads a path result, as written:
      `false` and an empty array give false, an array with an 'id' key gives
      whatever that key holds, anything else the id of the last record. A walk
      that mints a record whose flattened path is literally "id" makes the
      'id' key hold that record. */
  function PathCatIdAsWritten(r: PathResult): CatId {
    match r
    case False => FalseId
    case IdOnly(id) => Id(id)
    case NewRecords(recs) =>
      if recs == [] then FalseId
      else
        var k := KeyIndex(recs, "id");
        if k < |recs| then RecordObject(recs[k]) else Id(recs[|recs| - 1].id)
  }

  /** Position of the record stored under `key` in an array keyed by flattened
      path (|recs| when the key is absent). */
  function KeyIndex(recs: seq<Rec>, key: string): (k: nat)
    ensures k <= |recs|
    ensures k < |recs| ==> recs[k].path == key
    ensures forall j :: 0 <= j < k ==> recs[j].path != key
    decreases |recs|
  {
    if recs == [] then 0
    else if recs[0].path == key then 0
    else 1 + KeyIndex(recs[1..], key)
  }

  /** The same branch as its comment describes it: false, the deepest id, or the
      id of the last record of the array. */
  function PathCatId(r: PathResult): (c: CatId)
    ensures r == False || r == NewRecords([]) <==> c == FalseId
    ensures r.IdOnly? ==> c == Id(r.id)
    ensures r.NewRecords? && r.recs != [] ==> c == Id(r.recs[|r.recs| - 1].id)
  {
    match r
    case False => FalseId
    case IdOnly(id) => Id(id)
    case NewRecords(recs) => if recs == [] then FalseId else Id(recs[|recs| - 1].id)
  }

  /** resolve_category: the category id first, the idnumber only when the id gave
      nothing, the path (split at " / ") only when both gave nothing. */
  function ResolveCategorySpec(s: St, data: map<string, string>, errors: set<string>,
                               refused: set<(string, int)>): (r: (St, CatOutcome))
    ensures r.1.Cat? ==> errors <= r.1.errors <= errors + {ErrById, ErrByIdnumber}
    ensures IsEmpty(Field(data, "category_path")) ==> r.1.Cat? && r.0 == s.(idnCache := r.0.idnCache)
  {
    // By id.
    var byId: CatId :=
      if IsEmpty(Field(data, "category")) then NullId
      else
        var c := FindById(s.store, Intval(Field(data, "category")));
        if c.Some? && c.value.id != 0 then Id(c.value.id) else NullId;
    var errors1 :=
      if !IsEmpty(Field(data, "category")) && byId == NullId then errors + {ErrById} else errors;
    // By idnumber.
    var (s2, byIdnumber, errors2) :=
      if CatIdEmpty(byId) && !IsEmpty(Field(data, "category_idnumber")) then
        var (s1, r) := IdnumberLookup(s, Field(data, "category_idnumber"));
        var c := if r.Some? then Id(r.value) else FalseId;
        (s1, c, if CatIdEmpty(c) then errors1 + {ErrByIdnumber} else errors1)
      else (s, byId, errors1);
    // By path.
    if CatIdEmpty(byIdnumber) && !IsEmpty(Field(data, "category_path")) then
      var (s3, out) := ResolvePath(s2, Explode(Field(data, "category_path"), Separator), refused);
      if out.CannotCreateCategory? then (s3, CatThrown)
      else (s3, Cat(PathCatId(out.result), errors2))
    else (s2, Cat(byIdnumber, errors2))
  }

  /** Precedence: a category id that exists wins; the idnumber and the path are
      not consulted (the state is untouched) and no error is added. */
  lemma IdWins(s: St, data: map<string, string>, errors: set<string>, refused: set<(string, int)>)
    requires !IsEmpty(Field(data, "category"))
    requires exists i :: 0 <= i < |s.store| && s.store[i].id == Intval(Field(data, "category"))
    requires StoreValid(s.store, s.nextId)
    ensures var (s', out) := ResolveCategorySpec(s, data, errors, refused);
      s' == s && out == Cat(Id(Intval(Field(data, "category"))), errors)
  {
    var c := FindById(s.store, Intval(Field(data, "category")));
    assert c.Some?;
    assert c.value.id >= 1;
  }

  /** A category id that does not exist adds its error key and falls through to
      the idnumber; the idnumber, when found, wins over the path. */
  lemma IdnumberWinsOverPath(s: St, data: map<string, string>, errors: set<string>,
                             refused: set<(string, int)>)
    requires StoreValid(s.store, s.nextId) && CachedIdsOk(s.idnCache)
    requires forall i :: 0 <= i < |s.store| ==> s.store[i].id != Intval(Field(data, "category"))
    requires !IsEmpty(Field(data, "category_idnumber"))
    requires IdnumberLookup(s, Field(data, "category_idnumber")).1.Some?
    ensures var (s', out) := ResolveCategorySpec(s, data, errors, refused);
      s' == IdnumberLookup(s, Field(data, "category_idnumber")).0
      && out == Cat(Id(IdnumberLookup(s, Field(data, "category_idnumber")).1.value),
                    if IsEmpty(Field(data, "category")) then errors else errors + {ErrById})
  {
    IdnumberPositive(s, Field(data, "category_idnumber"));
  }

  /** The path is consulted only when neither the id nor the idnumber gave a
      category (each either absent or not found, and each not-found one adds its
      error key), and then its answer decides: false stays false, and so does an
      empty array of records (a path whose first segment is "" or "0"), an
      existing path gives its deepest id, a path with newly minted records the
      last one's id. The walk starts from the state the idnumber lookup left. */
  lemma PathAsLastResort(s: St, data: map<string, string>, errors: set<string>,
                         refused: set<(string, int)>)
    requires IsEmpty(Field(data, "category"))
             || forall i :: 0 <= i < |s.store| ==> s.store[i].id != Intval(Field(data, "category"))
    requires IsEmpty(Field(data, "category_idnumber"))
             || IdnumberLookup(s, Field(data, "category_idnumber")).1.None?
    requires !IsEmpty(Field(data, "category_path"))
    ensures var (s', out) := ResolveCategorySpec(s, data, errors, refused);
      var idn := Field(data, "category_idnumber");
      var s1 := if IsEmpty(idn) then s else IdnumberLookup(s, idn).0;
      var (sp, op) := ResolvePath(s1, Explode(Field(data, "category_path"), Separator), refused);
      s' == sp
      && (op.CannotCreateCategory? <==> out.CatThrown?)
      && (op.Returned? ==>
            out.errors == errors + (if IsEmpty(Field(data, "category")) then {} else {ErrById})
                                 + (if IsEmpty(idn) then {} else {ErrByIdnumber})
            && (op.result == False || op.result == NewRecords([]) ==> out.catid == FalseId)
            && (op.result.IdOnly? ==> out.catid == Id(op.result.id))
            && (op.result.NewRecords? && op.result.recs != [] ==>
                  out.catid == Id(op.result.recs[|op.result.recs| - 1].id)))
  {
  }

  /** The flaw recorded under Findings needs a minted record whose flattened
      path is literally "id": without one, the path branch as written and the
      corrected branch agree. */
  lemma PathCatIdAgrees(r: PathResult)
    requires r.NewRecords? ==> forall k :: 0 <= k < |r.recs| ==> r.recs[k].path != "id"
    ensures PathCatIdAsWritten(r) == PathCatId(r)
  {
    if r.NewRecords? && r.recs != [] {
      var k := KeyIndex(r.recs, "id");
      assert k == |r.recs|;
    }
  }

  /** resolve_category_by_idnumber keeps the state invariant: only a -1 or the
      positive id of a store category is cached. */
  lemma IdnumberKeepsValid(s: St, idnumber: string)
    requires Valid(s)
    ensures Valid(IdnumberLookup(s, idnumber).0)
  {
    if idnumber !in s.idnCache {
      var found := FirstByIdnumber(s.store, idnumber);
      FirstByIdnumberFinds(s.store, idnumber);
      if found.Some? {
        var i :| 0 <= i < |s.store| && s.store[i].idnumber == idnumber && s.store[i].id == found.value;
        assert s.store[i].id >= 1;
      }
    }
  }

  /** resolve_category keeps the state invariant. */
  lemma ResolveCategoryKeepsValid(s: St, data: map<string, string>, errors: set<string>,
                                  refused: set<(string, int)>)
    requires Valid(s)
    ensures Valid(ResolveCategorySpec(s, data, errors, refused).0)
  {
    var idn := Field(data, "category_idnumber");
    IdnumberKeepsValid(s, idn);
    var s1 := IdnumberLookup(s, idn).0;
    ResolveKeepsValid(s, Explode(Field(data, "category_path"), Separator), refused);
    ResolveKeepsValid(s1, Explode(Field(data, "category_path"), Separator), refused);
  }

  /** With a corrected path branch, resolve_category never returns a record
      object: `$catid` is null, false or an integer. */
  lemma CatIdIsNeverAnObject(s: St, data: map<string, string>, errors: set<string>,
                             refused: set<(string, int)>)
    ensures var out := ResolveCategorySpec(s, data, errors, refused).1;
      out.Cat? ==> !out.catid.RecordObject?
  {
  }

  /** The flaw in the path branch, on a concrete row: in preview, with creation
      allowed and no categories yet, the path "id" mints one virtual record
      whose flattened path is "id". As written, `isset($result['id'])` then
      holds and `$catid` becomes that record object instead of its id; the
      corrected branch answers the minted id. */
  lemma IdKeyCounterexample(refused: set<(string, int)>)
    ensures var s := St(0, map[], map[], map[], [], 1, [], true, true);
      var rec := Rec(VirtualBase + 1, 0, "id", Virtual, "id");
      var out := ResolvePath(s, Explode("id", Separator), refused).1;
      out == Returned(NewRecords([rec]))
      && PathCatIdAsWritten(out.result) == RecordObject(rec)
      && PathCatId(out.result) == Id(VirtualBase + 1)
  {
    var s := St(0, map[], map[], map[], [], 1, [], true, true);
    assert Explode("id", Separator) == ["id"] by {
      assert !(Separator <= "id") && !(Separator <= "d");
      assert "id"[1..] == "d" && "d"[1..] == [];
      var rest := Explode([], Separator);
      assert rest == [""] && rest[1..] == [];
      assert ['d'] + rest[0] == "d";
      assert Explode("d", Separator) == ["d"];
      var rest2 := Explode("d", Separator);
      assert ['i'] + rest2[0] == "id" && rest2[1..] == [];
    }
    assert Start.current + ["id"] == ["id"];
    assert Flatten(["id"]) == "id";
    var rec := Rec(VirtualBase + 1, 0, "id", Virtual, "id");
    var st := Step(s, "id", Start, refused);
    assert st.w == Walk(Some(VirtualBase + 1), VirtualBase + 1, ["id"], [rec]);
    assert WalkFrom(s, ["id"], Start, refused) == WalkFrom(st.s, [], st.w, refused);
  }
}
