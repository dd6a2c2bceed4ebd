/** The static state of tool_uploadcourse_helper as an object: the virtual id
    counter and category table, the Moodle cache (path and idnumber entries), the
    course_categories table and the current course's two flags and status log.
    Each method updates the fields step by step as the PHP code does and is
    proved to leave exactly the state, and give exactly the answer, described by
    the functions of CategoryPath and CategoryLookup. */
module Resolver {
  import opened PhpText
  import opened CategoryPath
  import opened CategoryLookup

  class Resolver {
    var counter: nat
    var table: map<string, Rec>
    var pathCache: map<seq<string>, int>
    var idnCache: map<string, int>
    var store: seq<Category>
    var nextId: int
    var events: seq<Event>
    var canCreate: bool
    var preview: bool

    /** The fields as one state value. */
    function Snapshot(): St
      reads this
    {
      St(counter, table, pathCache, idnCache, store, nextId, events, canCreate, preview)
    }

    predicate Valid()
      reads this
    {
      CategoryPath.Valid(Snapshot())
    }

    /** A run over an existing category table: no virtual categories, empty
        caches, and no course set yet (neither flag raised). */
    constructor (categories: seq<Category>, firstFreeId: int)
      requires StoreValid(categories, firstFreeId)
      ensures Snapshot() == St(0, map[], map[], map[], categories, firstFreeId, [], false, false)
      ensures Valid()
    {
      counter := 0;
      table := map[];
      pathCache := map[];
      idnCache := map[];
      store := categories;
      nextId := firstFreeId;
      events := [];
      canCreate := false;
      preview := false;
    }

    /** set_course_obj: the helper now reports to, and takes its two flags from,
        the given course, whose status log starts empty. */
    method SetCourse(courseCanCreate: bool, coursePreview: bool)
      modifies this
      ensures Snapshot() == old(Snapshot()).(canCreate := courseCanCreate, preview := coursePreview, events := [])
      ensures old(Valid()) ==> Valid()
    {
      canCreate := courseCanCreate;
      preview := coursePreview;
      events := [];
    }

    /** reset_virtual_id_counter: the counter restarts, the table is kept. */
    method ResetVirtualIdCounter()
      modifies this
      ensures Snapshot() == ResetCounter(old(Snapshot()))
      ensures table == old(table) && counter == 0
      ensures old(Valid()) ==> Valid()
    {
      counter := 0;
    }

    /** One iteration of the `while ($name = array_shift($path))` loop body: the
        fields change as Step says, `w` holds the walk's locals afterwards, and
        the flags say whether the loop breaks or the exception is thrown. */
    method Shift(name: string, w: Walk, refused: set<(string, int)>)
      returns (stop: bool, thrown: bool, w': Walk)
      modifies this
      ensures Step(old(Snapshot()), name, w, refused)
           == if thrown then Throw(Snapshot())
              else if stop then Break(Snapshot(), w')
              else Continue(Snapshot(), w')
      ensures pathCache == old(pathCache)
      ensures old(Valid()) && (!old(preview) ==> IsRootOrStoreId(old(store), w.idLast)) ==> Valid()
    {
      if Valid() && (!preview ==> IsRootOrStoreId(store, w.idLast)) {
        StepKeepsValid(Snapshot(), name, w, refused);
      }
      stop, thrown := false, false;
      var current := w.current + [name];
      var flat := Flatten(current);
      var records := Matches(store, name, w.idLast);
      if |records| > 0 {
        if |records| > 1 {
          stop := true;
          w' := w.(current := current, id := Some(-1));
        } else {
          var record := records[0];
          table := table[flat := Rec(record.id, record.parent, name, Db, flat)];
          w' := w.(current := current, id := Some(record.id), idLast := record.id);
        }
      } else if canCreate {
        if preview {
          if flat in table {
            var virtualId := table[flat].id;
            w' := w.(current := current, id := Some(virtualId), idLast := virtualId);
          } else {
            counter := counter + 1;
            var virtualId := VirtualBase + counter;
            var rec := Rec(virtualId, w.idLast, name, Virtual, flat);
            table := table[flat := rec];
            events := events + [WillBeCreated(flat)];
            w' := w.(current := current, id := Some(virtualId), idLast := virtualId,
                     result := w.result + [rec]);
          }
        } else if (name, w.idLast) !in refused {
          var created := Category(nextId, name, w.idLast, "");
          store := store + [created];
          nextId := nextId + 1;
          events := events + [Created(flat)];
          w' := w.(current := current, id := Some(created.id), idLast := created.id);
        } else {
          thrown := true;
          w' := w;
        }
      } else {
        stop := true;
        events := events + [CouldNotResolveByPath];
        w' := w.(current := current, id := Some(-1),
                 result := w.result + [Rec(-1, -1, name, NoCreatePermission, flat)]);
      }
    }

    /** resolve_category_by_path, as the `while ($name = array_shift($path))`
        loop over the segments, stopping at the first "" or "0". */
    method ResolveByPath(path: seq<string>, refused: set<(string, int)>) returns (out: Outcome)
      modifies this
      ensures (Snapshot(), out) == ResolvePath(old(Snapshot()), path, refused)
      ensures old(Valid()) ==> Valid()
    {
      if Valid() {
        ResolveKeepsValid(Snapshot(), path, refused);
      }
      if path in pathCache {
        out := Returned(Shape(Some(pathCache[path]), []));
        return;
      }
      ghost var s0 := Snapshot();
      var w := Start;
      var rest := path;
      while rest != [] && !IsEmpty(rest[0])
        invariant WalkFrom(s0, path, Start, refused) == WalkFrom(Snapshot(), rest, w, refused)
        invariant pathCache == s0.pathCache
        decreases |rest|
      {
        ghost var before := Snapshot();
        ghost var wBefore := w;
        ghost var restBefore := rest;
        var stop, thrown;
        stop, thrown, w := Shift(rest[0], w, refused);
        if thrown {
          assert WalkFrom(before, restBefore, wBefore, refused) == Thrown(Snapshot());
          out := CannotCreateCategory;
          return;
        }
        rest := rest[1..];
        if stop {
          assert WalkFrom(before, restBefore, wBefore, refused) == Done(Snapshot(), w);
          break;
        }
        assert WalkFrom(before, restBefore, wBefore, refused) == WalkFrom(Snapshot(), rest, w, refused);
      }
      assert WalkFrom(s0, path, Start, refused) == Done(Snapshot(), w);
      if w.id.Some? {
        pathCache := pathCache[path := w.id.value];
      }
      out := Returned(Shape(w.id, w.result));
    }

    /** resolve_category_by_idnumber. */
    method ResolveByIdnumber(idnumber: string) returns (id: Option<int>)
      modifies this
      ensures (Snapshot(), id) == IdnumberLookup(old(Snapshot()), idnumber)
      ensures old(Valid()) ==> Valid()
    {
      if Valid() {
        IdnumberKeepsValid(Snapshot(), idnumber);
      }
      var cached: int;
      if idnumber in idnCache {
        cached := idnCache[idnumber];
      } else {
        var found := FirstByIdnumber(store, idnumber);
        cached := if found.Some? then found.value else -1;
        idnCache := idnCache[idnumber := cached];
      }
      id := if cached == -1 then None else Some(cached);
    }

    /** resolve_category: by id, then by idnumber, then by path. */
    method ResolveCategory(data: map<string, string>, errors: set<string>,
                           refused: set<(string, int)>) returns (out: CatOutcome)
      modifies this
      ensures (Snapshot(), out) == ResolveCategorySpec(old(Snapshot()), data, errors, refused)
      ensures old(Valid()) ==> Valid()
    {
      if Valid() {
        ResolveCategoryKeepsValid(Snapshot(), data, errors, refused);
      }
      var catid := NullId;
      var errs := errors;
      if !IsEmpty(Field(data, "category")) {
        var category := FindById(store, Intval(Field(data, "category")));
        if category.Some? && category.value.id != 0 {
          catid := Id(category.value.id);
        } else {
          errs := errs + {ErrById};
        }
      }
      if CatIdEmpty(catid) && !IsEmpty(Field(data, "category_idnumber")) {
        var r := ResolveByIdnumber(Field(data, "category_idnumber"));
        catid := if r.Some? then Id(r.value) else FalseId;
        if CatIdEmpty(catid) {
          errs := errs + {ErrByIdnumber};
        }
      }
      if CatIdEmpty(catid) && !IsEmpty(Field(data, "category_path")) {
        var result := ResolveByPath(Explode(Field(data, "category_path"), Separator), refused);
        if result.CannotCreateCategory? {
          out := CatThrown;
          return;
        }
        catid := PathCatId(result.result);
      }
      out := Cat(catid, errs);
    }
  }
}
