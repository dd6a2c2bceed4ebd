/** Resolution of a category path (resolve_category_by_path), as a pure state machine.

    The upload helper keeps its state in static variables and in the Moodle cache;
    here that state is one value `St`: the virtual id counter, the virtual category
    table keyed by flattened partial path, the path and idnumber caches, the
    category store (standing in for the course_categories table), the status log
    of the course being imported and the two capability flags of that course.
    The class `Resolver.Resolver` runs the same walk as a loop and is proved to
    produce exactly what `ResolvePath` describes. */
module CategoryPath {
  import opened PhpText

  /** Virtual ids are minted above this base so they do not meet real ids. */
  const VirtualBase: int := 9000000000

  /** The separator of a flattened path. */
  const Separator: string := " / "

  /** Where a category record came from: the database, a preview simulation,
      or a segment that could not be created for lack of permission. */
  datatype Origin = Db | Virtual | NoCreatePermission

  /** A record of the virtual category table or of the walk's result. */
  datatype Rec = Rec(id: int, parent: int, name: string, origin: Origin, path: string)

  /** A row of the course_categories table. */
  datatype Category = Category(id: int, name: string, parent: int, idnumber: string)

  /** Status and error messages sent to the course being imported. */
  datatype Event =
    | WillBeCreated(path: string)   // 'categorydoesnotexistwillbecreated'
    | Created(path: string)         // 'categorycreated'
    | CouldNotResolveByPath         // 'couldnotresolvecatgorybypath'

  /** The three shapes of the PHP return value: `false`, `['id' => id]`, or the
      array of records newly minted on this walk, keyed by flattened path in
      walk order (an empty array when no segment was processed). */
  datatype PathResult = False | IdOnly(id: int) | NewRecords(recs: seq<Rec>)

  /** A returned value, or the moodle_exception thrown when creation fails. */
  datatype Outcome = Returned(result: PathResult) | CannotCreateCategory

  datatype St = St(
    counter: nat,
    table: map<string, Rec>,
    pathCache: map<seq<string>, int>,
    idnCache: map<string, int>,
    store: seq<Category>,
    nextId: int,
    events: seq<Event>,
    canCreate: bool,
    preview: bool)

  /** The local variables of the walk: `$id` (None while it still holds the
      cache's `false`), `$id_last`, `$path_current` and `$result`. */
  datatype Walk = Walk(id: Option<int>, idLast: int, current: seq<string>, result: seq<Rec>)

  datatype StepOut = Continue(s: St, w: Walk) | Break(s: St, w: Walk) | Throw(s: St)

  datatype WalkEnd = Done(s: St, w: Walk) | Thrown(s: St)

  const Start: Walk := Walk(None, 0, [], [])

  /** trim(join(' / ', $segments)): the key of the virtual category table. */
  function Flatten(segments: seq<string>): string {
    Trim(Join(segments, Separator))
  }

  /** The database query `name = :name AND parent = :parent`. */
  function Matches(store: seq<Category>, name: string, parent: int): seq<Category>
    decreases |store|
  {
    if store == [] then []
    else
      var rest := Matches(store[1..], name, parent);
      if store[0].name == name && store[0].parent == parent then [store[0]] + rest else rest
  }

  /** The query answers exactly the rows with that name under that parent. */
  lemma {:induction false} MatchesExact(store: seq<Category>, name: string, parent: int)
    ensures forall c :: c in Matches(store, name, parent) <==> c in store && c.name == name && c.parent == parent
    decreases |store|
  {
    if store != [] {
      MatchesExact(store[1..], name, parent);
      assert store == [store[0]] + store[1..];
    }
  }

  /** One iteration of the `while ($name = array_shift($path))` loop. `refused`
      holds the (name, parent) pairs whose creation fails in commit mode. */
  function Step(s: St, name: string, w: Walk, refused: set<(string, int)>): StepOut {
    var current := w.current + [name];
    var flat := Flatten(current);
    var records := Matches(s.store, name, w.idLast);
    if |records| > 0 then
      if |records| > 1 then
        // Too many categories with the same name under this parent.
        Break(s, w.(current := current, id := Some(-1)))
      else
        var record := records[0];
        var rec := Rec(record.id, record.parent, name, Db, flat);
        Continue(s.(table := s.table[flat := rec]),
                 w.(current := current, id := Some(record.id), idLast := record.id))
    else if s.canCreate then
      if s.preview then
        if flat in s.table then
          var virtualId := s.table[flat].id;
          Continue(s, w.(current := current, id := Some(virtualId), idLast := virtualId))
        else
          var virtualId := VirtualBase + s.counter + 1;
          var rec := Rec(virtualId, w.idLast, name, Virtual, flat);
          Continue(s.(counter := s.counter + 1, table := s.table[flat := rec],
                      events := s.events + [WillBeCreated(flat)]),
                   w.(current := current, id := Some(virtualId), idLast := virtualId,
                      result := w.result + [rec]))
      else if (name, w.idLast) !in refused then
        var created := Category(s.nextId, name, w.idLast, "");
        Continue(s.(store := s.store + [created], nextId := s.nextId + 1,
                    events := s.events + [Created(flat)]),
                 w.(current := current, id := Some(created.id), idLast := created.id))
      else
        Throw(s)
    else
      var denied := Rec(-1, -1, name, NoCreatePermission, flat);
      Break(s.(events := s.events + [CouldNotResolveByPath]),
            w.(current := current, id := Some(-1), result := w.result + [denied]))
  }

  /** The walk over the segments still to shift; it ends at the first "" or "0". */
  function WalkFrom(s: St, rest: seq<string>, w: Walk, refused: set<(string, int)>): WalkEnd
    decreases |rest|
  {
    if rest == [] || IsEmpty(rest[0]) then Done(s, w)
    else
      var next := Step(s, rest[0], w, refused);
      if next.Continue? then WalkFrom(next.s, rest[1..], next.w, refused)
      else if next.Break? then Done(next.s, next.w)
      else Thrown(next.s)
  }

  /** The tail shared by the cached and the walked case (lines 579-593). */
  function Shape(id: Option<int>, result: seq<Rec>): PathResult {
    if id == Some(-1) then False
    else if result == [] && id.Some? && id.value > 0 then IdOnly(id.value)
    else NewRecords(result)
  }

  /** resolve_category_by_path: the new state and the outcome. A cached `false`
      reads back as a miss, so a walk that set no id leaves no cache entry. */
  function ResolvePath(s: St, path: seq<string>, refused: set<(string, int)>): (St, Outcome) {
    if path in s.pathCache then (s, Returned(Shape(Some(s.pathCache[path]), [])))
    else
      match WalkFrom(s, path, Start, refused)
      case Thrown(s') => (s', CannotCreateCategory)
      case Done(s', w) =>
        var s'' := if w.id.Some? then s'.(pathCache := s'.pathCache[path := w.id.value]) else s';
        (s'', Returned(Shape(w.id, w.result)))
  }

  /** reset_virtual_id_counter. */
  function ResetCounter(s: St): St {
    s.(counter := 0)
  }

  // ---------------------------------------------------------------------------
  // Invariants of the state

  predicate IdsBelow(store: seq<Category>, nextId: int) {
    1 <= nextId && forall i :: 0 <= i < |store| ==> 1 <= store[i].id < nextId
  }

  predicate IdsUnique(store: seq<Category>) {
    forall i, j :: 0 <= i < j < |store| ==> store[i].id != store[j].id
  }

  /** The ids of the categories of a store. */
  function Ids(store: seq<Category>): set<int>
    decreases |store|
  {
    if store == [] then {} else Ids(store[..|store| - 1]) + {store[|store| - 1].id}
  }

  lemma IdsAppend(store: seq<Category>, c: Category)
    ensures Ids(store + [c]) == Ids(store) + {c.id}
  {
    assert (store + [c])[..|store|] == store;
  }

  /** Ids holds exactly the ids of the store's categories. */
  lemma {:induction false} IdsExact(store: seq<Category>, id: int)
    ensures id in Ids(store) <==> exists i :: 0 <= i < |store| && store[i].id == id
    decreases |store|
  {
    if store != [] {
      var init := store[..|store| - 1];
      IdsExact(init, id);
      if id in Ids(init) {
        var i :| 0 <= i < |init| && init[i].id == id;
        assert store[i] == init[i];
      }
      if exists i :: 0 <= i < |store| && store[i].id == id {
        var i :| 0 <= i < |store| && store[i].id == id;
        if i < |init| {
          assert init[i] == store[i];
        }
      }
    }
  }

  /** Every category's parent is the root (0) or a category listed before it. */
  predicate ParentsLinked(store: seq<Category>) {
    forall i :: 0 <= i < |store| ==> store[i].parent == 0 || store[i].parent in Ids(store[..i])
  }

  predicate StoreValid(store: seq<Category>, nextId: int) {
    IdsBelow(store, nextId) && IdsUnique(store) && ParentsLinked(store)
  }

  predicate IsRootOrStoreId(store: seq<Category>, id: int) {
    id == 0 || id in Ids(store)
  }

  predicate CachedIdsOk<K>(m: map<K, int>) {
    forall k :: k in m ==> m[k] == -1 || m[k] > 0
  }

  predicate TableIdsPositive(table: map<string, Rec>) {
    forall k :: k in table ==> table[k].id > 0
  }

  /** The state invariant: a well-formed category store, positive ids in the
      virtual table, and caches holding either -1 or a positive id. */
  predicate Valid(s: St) {
    StoreValid(s.store, s.nextId) && TableIdsPositive(s.table)
    && CachedIdsOk(s.pathCache) && CachedIdsOk(s.idnCache)
  }

  // ---------------------------------------------------------------------------
  // Helpers for stating the lemmas

  function WillBeCreatedEvents(recs: seq<Rec>): (evs: seq<Event>)
    ensures |evs| == |recs|
    ensures forall k :: 0 <= k < |recs| ==> evs[k] == WillBeCreated(recs[k].path)
  {
    if recs == [] then [] else [WillBeCreated(recs[0].path)] + WillBeCreatedEvents(recs[1..])
  }

  predicate AllCreated(evs: seq<Event>) {
    forall k :: 0 <= k < |evs| ==> evs[k].Created?
  }

  // ---------------------------------------------------------------------------
  // Lemmas about the walk

  /** The walk ends at the first segment that is "" or "0": what follows it is never read. */
  lemma {:induction false} StopsAtEmptySegment(s: St, rest: seq<string>, w: Walk,
                                               refused: set<(string, int)>, k: nat)
    requires k < |rest| && IsEmpty(rest[k])
    ensures WalkFrom(s, rest, w, refused) == WalkFrom(s, rest[..k], w, refused)
    decreases k
  {
    var prefix := rest[..k];
    if k == 0 {
      assert prefix == [];
    } else {
      assert prefix[0] == rest[0];
      if !IsEmpty(rest[0]) {
        assert prefix[1..] == rest[1..][..k - 1];
        var st := Step(s, rest[0], w, refused);
        if st.Continue? {
          StopsAtEmptySegment(st.s, rest[1..], st.w, refused, k - 1);
        }
      }
    }
  }

  /** Once a segment has been processed the walk holds an id: a walk over a path
      whose first segment is not empty always ends with `$id` set. */
  lemma {:induction false} WalkSetsId(s: St, rest: seq<string>, w: Walk, refused: set<(string, int)>)
    requires w.id.Some? || (rest != [] && !IsEmpty(rest[0]))
    ensures WalkFrom(s, rest, w, refused).Done? ==> WalkFrom(s, rest, w, refused).w.id.Some?
    decreases |rest|
  {
    if rest != [] && !IsEmpty(rest[0]) {
      var st := Step(s, rest[0], w, refused);
      assert st.Continue? || st.Break? ==> st.w.id.Some?;
      if st.Continue? {
        WalkSetsId(st.s, rest[1..], st.w, refused);
      }
    }
  }

  /** One preview step either mints nothing or mints exactly one record. */
  lemma StepPreview(s: St, name: string, w: Walk, refused: set<(string, int)>)
    requires s.canCreate && s.preview
    ensures var st := Step(s, name, w, refused);
      !st.Throw?
      && st.s.store == s.store && st.s.nextId == s.nextId
      && st.s.pathCache == s.pathCache && st.s.idnCache == s.idnCache
      && st.s.canCreate && st.s.preview
      && s.table.Keys <= st.s.table.Keys
      && ((st.s.counter == s.counter && st.s.events == s.events && st.w.result == w.result)
          || (st.Continue? && st.s.counter == s.counter + 1
              && |st.w.result| == |w.result| + 1 && w.result <= st.w.result
              && st.w.result[|w.result|].id == VirtualBase + s.counter + 1
              && st.w.result[|w.result|].origin == Virtual
              && st.w.result[|w.result|].path !in s.table
              && st.s.events == s.events + [WillBeCreated(st.w.result[|w.result|].path)]))
    ensures var st := Step(s, name, w, refused);
      var flat := Flatten(w.current + [name]);
      var records := Matches(s.store, name, w.idLast);
      // whenever the walk goes on, the table holds the segment under the new `$id_last`
      (st.Continue? ==> st.w.current == w.current + [name] && st.w.id == Some(st.w.idLast)
                        && flat in st.s.table && st.s.table[flat].id == st.w.idLast)
      // a single database match is recorded under its own id, below the previous level
      && (|records| == 1 ==>
            st.Continue? && st.w.idLast == records[0].id && st.w.result == w.result
            && st.s.table == s.table[flat := Rec(records[0].id, w.idLast, name, Db, flat)])
      // no match and the partial path already in the table: reused, nothing changes
      && (records == [] && flat in s.table ==>
            st.Continue? && st.s == s && st.w.idLast == s.table[flat].id && st.w.result == w.result)
      // a minted record is named after the segment, sits under the previous level
      // and is what the table now holds for the partial path
      && (|st.w.result| > |w.result| ==>
            st.w.result[|w.result|] == Rec(VirtualBase + s.counter + 1, w.idLast, name, Virtual, flat)
            && st.s.table == s.table[flat := st.w.result[|w.result|]])
  {
    MatchesExact(s.store, name, w.idLast);
    var records := Matches(s.store, name, w.idLast);
    if |records| == 1 {
      assert records[0] in records;
    }
  }

  /** Preview mode with creation allowed: nothing is written to the store or
      the caches, the walk never throws, and the i-th record minted on the walk
      takes the i-th next counter value and was absent from the table; segments
      found in the database or reused from the table mint nothing. */
  lemma {:induction false} WalkPreview(s: St, rest: seq<string>, w: Walk, refused: set<(string, int)>)
    requires s.canCreate && s.preview
    ensures WalkFrom(s, rest, w, refused).Done?
    ensures var e := WalkFrom(s, rest, w, refused).s;
      e.store == s.store && e.nextId == s.nextId
      && e.pathCache == s.pathCache && e.idnCache == s.idnCache
      && e.canCreate == s.canCreate && e.preview == s.preview
      && s.table.Keys <= e.table.Keys
    ensures var d := WalkFrom(s, rest, w, refused);
      w.result <= d.w.result
      && d.s.counter == s.counter + |d.w.result| - |w.result|
      && forall k :: |w.result| <= k < |d.w.result| ==>
           d.w.result[k].id == VirtualBase + s.counter + (k - |w.result|) + 1
           && d.w.result[k].origin == Virtual && d.w.result[k].path !in s.table
    decreases |rest|
  {
    if rest != [] && !IsEmpty(rest[0]) {
      var st := Step(s, rest[0], w, refused);
      StepPreview(s, rest[0], w, refused);
      if st.Continue? {
        WalkPreview(st.s, rest[1..], st.w, refused);
        assert WalkFrom(s, rest, w, refused) == WalkFrom(st.s, rest[1..], st.w, refused);
      } else {
        assert WalkFrom(s, rest, w, refused) == Done(st.s, st.w);
      }
    }
  }

  lemma PrefixTrans<T>(a: seq<T>, b: seq<T>, c: seq<T>)
    requires a <= b && b <= c
    ensures a <= c
  {
  }

  /** Preview mode with creation allowed: the status log gains exactly one
      'will be created' event per minted record, in walk order. */
  lemma {:induction false} WalkPreviewEvents(s: St, rest: seq<string>, w: Walk, refused: set<(string, int)>)
    requires s.canCreate && s.preview
    ensures WalkFrom(s, rest, w, refused).Done?
    ensures var d := WalkFrom(s, rest, w, refused);
      w.result <= d.w.result && s.events <= d.s.events
      && |d.s.events| - |s.events| == |d.w.result| - |w.result|
      && forall k :: |w.result| <= k < |d.w.result| ==>
           d.s.events[|s.events| + (k - |w.result|)] == WillBeCreated(d.w.result[k].path)
    decreases |rest|
  {
    if rest != [] && !IsEmpty(rest[0]) {
      var st := Step(s, rest[0], w, refused);
      StepPreview(s, rest[0], w, refused);
      if st.Continue? {
        WalkPreviewEvents(st.s, rest[1..], st.w, refused);
        assert WalkFrom(s, rest, w, refused) == WalkFrom(st.s, rest[1..], st.w, refused);
        var d := WalkFrom(st.s, rest[1..], st.w, refused);
        PrefixTrans(w.result, st.w.result, d.w.result);
        PrefixTrans(s.events, st.s.events, d.s.events);
        forall k | |w.result| <= k < |d.w.result|
          ensures d.s.events[|s.events| + (k - |w.result|)] == WillBeCreated(d.w.result[k].path)
        {
          if k < |st.w.result| {
            assert k == |w.result| && st.w.result[k] == d.w.result[k];
            assert st.s.events[|s.events|] == d.s.events[|s.events|];
          }
        }
      } else {
        assert WalkFrom(s, rest, w, refused) == Done(st.s, st.w);
      }
    }
  }

  /** The table keeps its old entries or overwrites them with database records. */
  predicate TableGrowsByDb(t0: map<string, Rec>, t1: map<string, Rec>) {
    forall k :: k in t1 ==> (k in t0 && t1[k] == t0[k]) || t1[k].origin == Db
  }

  lemma TableGrowsByDbTrans(t0: map<string, Rec>, t1: map<string, Rec>, t2: map<string, Rec>)
    requires TableGrowsByDb(t0, t1) && TableGrowsByDb(t1, t2)
    ensures TableGrowsByDb(t0, t2)
  {
  }

  /** One commit-mode step: a database match, one creation under the previous
      level's id, a denial, an ambiguity stop or the exception. */
  lemma StepCommit(s: St, name: string, w: Walk, refused: set<(string, int)>)
    requires !s.preview && StoreValid(s.store, s.nextId) && IsRootOrStoreId(s.store, w.idLast)
    ensures var st := Step(s, name, w, refused);
      st.s.counter == s.counter && st.s.pathCache == s.pathCache && st.s.idnCache == s.idnCache
      && st.s.canCreate == s.canCreate && !st.s.preview
      && StoreValid(st.s.store, st.s.nextId)
      && TableGrowsByDb(s.table, st.s.table)
      && ((st.s.store == s.store && st.s.nextId == s.nextId
           && (st.s.events == s.events || (!s.canCreate && st.s.events == s.events + [CouldNotResolveByPath])))
          || (s.canCreate && st.Continue?
              && st.s.store == s.store + [Category(s.nextId, name, w.idLast, "")]
              && st.s.nextId == s.nextId + 1
              && st.s.events == s.events + [Created(Flatten(w.current + [name]))]))
      && (!st.Throw? ==>
            && w.result <= st.w.result
            && forall k :: |w.result| <= k < |st.w.result| ==> st.w.result[k].origin == NoCreatePermission)
      && (st.Continue? ==> st.w.id == Some(st.w.idLast) && st.w.idLast > 0
                           && IsRootOrStoreId(st.s.store, st.w.idLast) && st.w.result == w.result)
      && (st.Break? ==> st.w.id == Some(-1))
  {
    var st := Step(s, name, w, refused);
    var records := Matches(s.store, name, w.idLast);
    if |records| == 1 {
      MatchesExact(s.store, name, w.idLast);
      assert records[0] in s.store;
      IdsExact(s.store, records[0].id);
    } else if |records| == 0 && s.canCreate && (name, w.idLast) !in refused {
      var created := Category(s.nextId, name, w.idLast, "");
      var store' := s.store + [created];
      assert st.s.store == store';
      IdsAppend(s.store, created);
      assert ParentsLinked(store') by {
        forall i | 0 <= i < |store'| && store'[i].parent != 0
          ensures store'[i].parent in Ids(store'[..i])
        {
          if i < |s.store| {
            assert store'[..i] == s.store[..i] && store'[i] == s.store[i];
          } else {
            assert store'[..i] == s.store;
          }
        }
      }
    }
  }

  /** Commit mode: the virtual counter and the caches are untouched, the table
      only gains database records, the store only grows, created categories
      take consecutive ids and have the previous level's id as parent (so the
      store stays a well-formed tree), the walk's result only ever holds a
      denial record, and the final id is the root or a store id. */
  lemma {:induction false} WalkCommit(s: St, rest: seq<string>, w: Walk, refused: set<(string, int)>)
    requires !s.preview
    requires StoreValid(s.store, s.nextId)
    requires IsRootOrStoreId(s.store, w.idLast)
    requires w.id.None? || w.id == Some(w.idLast)
    ensures var e := WalkFrom(s, rest, w, refused).s;
      e.counter == s.counter && e.pathCache == s.pathCache && e.idnCache == s.idnCache
      && e.canCreate == s.canCreate && e.preview == s.preview
      && s.store <= e.store && StoreValid(e.store, e.nextId)
      && e.nextId == s.nextId + (|e.store| - |s.store|)
      && TableGrowsByDb(s.table, e.table)
    ensures var d := WalkFrom(s, rest, w, refused);
      d.Done? ==>
        && w.result <= d.w.result
        && (forall k :: |w.result| <= k < |d.w.result| ==> d.w.result[k].origin == NoCreatePermission)
        && (|d.w.result| > |w.result| ==> d.w.id == Some(-1))
        && (d.w.id.None? || d.w.id == Some(-1)
            || (d.w.id == Some(d.w.idLast) && IsRootOrStoreId(d.s.store, d.w.idLast)))
    decreases |rest|
  {
    if rest != [] && !IsEmpty(rest[0]) {
      var st := Step(s, rest[0], w, refused);
      StepCommit(s, rest[0], w, refused);
      if st.Continue? {
        WalkCommit(st.s, rest[1..], st.w, refused);
        assert WalkFrom(s, rest, w, refused) == WalkFrom(st.s, rest[1..], st.w, refused);
        var d := WalkFrom(st.s, rest[1..], st.w, refused);
        PrefixTrans(s.store, st.s.store, d.s.store);
        TableGrowsByDbTrans(s.table, st.s.table, d.s.table);
        if d.Done? {
          PrefixTrans(w.result, st.w.result, d.w.result);
        }
      } else if st.Break? {
        assert WalkFrom(s, rest, w, refused) == Done(st.s, st.w);
      } else {
        assert WalkFrom(s, rest, w, refused) == Thrown(st.s);
      }
    }
  }

  /** What a commit-mode walk may do between states s and e: with creation
      allowed every created category is reported by exactly one
      'categorycreated' event; without it the store is untouched and at most the
      one 'could not resolve' error is logged. */
  predicate CommitEvents(s: St, e: St) {
    s.events <= e.events && |s.store| <= |e.store|
    && (s.canCreate ==>
          |e.events| - |s.events| == |e.store| - |s.store|
          && forall k :: |s.events| <= k < |e.events| ==> e.events[k].Created?)
    && (!s.canCreate ==>
          e.store == s.store
          && (e.events == s.events || e.events == s.events + [CouldNotResolveByPath]))
  }

  /** Commit mode: the walk's events and creations are as CommitEvents says. */
  lemma {:induction false} WalkCommitEvents(s: St, rest: seq<string>, w: Walk, refused: set<(string, int)>)
    requires !s.preview
    requires StoreValid(s.store, s.nextId)
    requires IsRootOrStoreId(s.store, w.idLast)
    ensures CommitEvents(s, WalkFrom(s, rest, w, refused).s)
    decreases |rest|
  {
    if rest != [] && !IsEmpty(rest[0]) {
      var st := Step(s, rest[0], w, refused);
      StepCommit(s, rest[0], w, refused);
      if st.Continue? {
        WalkCommitEvents(st.s, rest[1..], st.w, refused);
        assert WalkFrom(s, rest, w, refused) == WalkFrom(st.s, rest[1..], st.w, refused);
        var e := WalkFrom(st.s, rest[1..], st.w, refused).s;
        PrefixTrans(s.events, st.s.events, e.events);
        if s.canCreate {
          forall k | |s.events| <= k < |e.events| ensures e.events[k].Created? {
            if k < |st.s.events| {
              assert e.events[k] == st.s.events[k];
            }
          }
        } else {
          assert st.s.events == s.events;
        }
      } else if st.Break? {
        assert WalkFrom(s, rest, w, refused) == Done(st.s, st.w);
      } else {
        assert WalkFrom(s, rest, w, refused) == Thrown(st.s);
      }
    }
  }

  /** One step keeps the state invariant and, when the walk goes on, leaves a positive id. */
  lemma StepKeepsValid(s: St, name: string, w: Walk, refused: set<(string, int)>)
    requires Valid(s)
    requires !s.preview ==> IsRootOrStoreId(s.store, w.idLast)
    ensures var st := Step(s, name, w, refused);
      Valid(st.s)
      && (!s.preview && !st.Throw? ==> IsRootOrStoreId(st.s.store, st.w.idLast))
      && (st.Continue? ==> st.w.id == Some(st.w.idLast) && st.w.idLast > 0)
      && (st.Break? ==> st.w.id == Some(-1))
  {
    var records := Matches(s.store, name, w.idLast);
    if |records| == 1 {
      MatchesExact(s.store, name, w.idLast);
      assert records[0] in s.store;
    }
    if !s.preview {
      StepCommit(s, name, w, refused);
    }
  }

  /** Every walk keeps the state invariant, and ends with `$id` unset, -1 or positive. */
  lemma {:induction false} WalkKeepsValid(s: St, rest: seq<string>, w: Walk, refused: set<(string, int)>)
    requires Valid(s)
    requires !s.preview ==> IsRootOrStoreId(s.store, w.idLast)
    requires w.id.None? || (w.id == Some(w.idLast) && w.idLast > 0)
    ensures Valid(WalkFrom(s, rest, w, refused).s)
    ensures var d := WalkFrom(s, rest, w, refused);
      d.Done? ==> d.w.id.None? || d.w.id.value == -1 || d.w.id.value > 0
    decreases |rest|
  {
    if rest != [] && !IsEmpty(rest[0]) {
      var st := Step(s, rest[0], w, refused);
      StepKeepsValid(s, rest[0], w, refused);
      if st.Continue? {
        WalkKeepsValid(st.s, rest[1..], st.w, refused);
        assert WalkFrom(s, rest, w, refused) == WalkFrom(st.s, rest[1..], st.w, refused);
      } else if st.Break? {
        assert WalkFrom(s, rest, w, refused) == Done(st.s, st.w);
      } else {
        assert WalkFrom(s, rest, w, refused) == Thrown(st.s);
      }
    }
  }

  /** Preview mode: the records minted on one walk have pairwise different
      flattened paths and all of them are in the table afterwards, so the
      walk's result, keyed by flattened path in PHP, loses nothing. */
  lemma {:induction false} WalkPreviewDistinct(s: St, rest: seq<string>, w: Walk, refused: set<(string, int)>)
    requires s.canCreate && s.preview
    ensures WalkFrom(s, rest, w, refused).Done?
    ensures var d := WalkFrom(s, rest, w, refused);
      w.result <= d.w.result
      && (forall k :: |w.result| <= k < |d.w.result| ==> d.w.result[k].path in d.s.table)
      && (forall j, k :: |w.result| <= j < k < |d.w.result| ==> d.w.result[j].path != d.w.result[k].path)
    decreases |rest|
  {
    if rest != [] && !IsEmpty(rest[0]) {
      var st := Step(s, rest[0], w, refused);
      StepPreview(s, rest[0], w, refused);
      if st.Continue? {
        WalkPreviewDistinct(st.s, rest[1..], st.w, refused);
        WalkPreview(st.s, rest[1..], st.w, refused);
        assert WalkFrom(s, rest, w, refused) == WalkFrom(st.s, rest[1..], st.w, refused);
        var d := WalkFrom(st.s, rest[1..], st.w, refused);
        PrefixTrans(w.result, st.w.result, d.w.result);
        if |st.w.result| > |w.result| {
          var p := st.w.result[|w.result|].path;
          assert d.w.result[|w.result|] == st.w.result[|w.result|];
          assert p in st.s.table;
        }
      } else {
        assert WalkFrom(s, rest, w, refused) == Done(st.s, st.w);
      }
    }
  }

  /** The walk itself never touches the caches or the two flags. */
  lemma {:induction false} WalkFrame(s: St, rest: seq<string>, w: Walk, refused: set<(string, int)>)
    ensures var e := WalkFrom(s, rest, w, refused).s;
      e.pathCache == s.pathCache && e.idnCache == s.idnCache
      && e.canCreate == s.canCreate && e.preview == s.preview
    decreases |rest|
  {
    if rest != [] && !IsEmpty(rest[0]) {
      var st := Step(s, rest[0], w, refused);
      if st.Continue? {
        WalkFrame(st.s, rest[1..], st.w, refused);
      }
    }
  }

  // ---------------------------------------------------------------------------
  // Which category a path names

  /** The number of segments the walk reads: those before the first "" or "0". */
  function FirstEmpty(path: seq<string>): (n: nat)
    ensures n <= |path|
    ensures forall i :: 0 <= i < n ==> !IsEmpty(path[i])
    ensures n < |path| ==> IsEmpty(path[n])
    decreases |path|
  {
    if path == [] || IsEmpty(path[0]) then 0
    else
      var n := 1 + FirstEmpty(path[1..]);
      assert forall i :: 1 <= i < |path| ==> path[i] == path[1..][i - 1];
      n
  }

  /** cs is a chain of store categories spelling `names` from the root down:
      the first sits under the root (0), each next one under the one before. */
  predicate SpellsPath(store: seq<Category>, cs: seq<Category>, names: seq<string>) {
    |cs| == |names| && forall i :: 0 <= i < |cs| ==> Link(store, cs, names, i)
  }

  /** Link i of the chain: a store category named names[i], under link i - 1 or the root. */
  predicate Link(store: seq<Category>, cs: seq<Category>, names: seq<string>, i: nat)
    requires i < |cs| && i < |names|
  {
    cs[i] in store && cs[i].name == names[i] && cs[i].parent == (if i == 0 then 0 else cs[i - 1].id)
  }

  /** The store holds a chain of categories named `names` that ends in category `id`. */
  ghost predicate NamesCategory(store: seq<Category>, names: seq<string>, id: int) {
    exists cs: seq<Category> :: SpellsPath(store, cs, names) && cs != [] && cs[|cs| - 1].id == id
  }

  /** A chain extends by one category under its last element, or starts under the root. */
  lemma NamesCategoryExtend(store: seq<Category>, store': seq<Category>, names: seq<string>,
                            last: int, c: Category)
    requires store <= store' && c in store' && c.parent == last
    requires (names == [] && last == 0) || NamesCategory(store, names, last)
    ensures NamesCategory(store', names + [c.name], c.id)
  {
    if names == [] {
      assert Link(store', [c], names + [c.name], 0);
    } else {
      var cs: seq<Category> :| SpellsPath(store, cs, names) && cs != [] && cs[|cs| - 1].id == last;
      var cs', names' := cs + [c], names + [c.name];
      assert store' == store + store'[|store|..];
      forall i | 0 <= i < |cs'| ensures Link(store', cs', names', i) {
        if i < |cs| {
          assert Link(store, cs, names, i);
          assert cs'[i] == cs[i] && names'[i] == names[i];
          if i > 0 {
            assert cs'[i - 1] == cs[i - 1];
          }
        } else {
          assert cs'[i] == c && cs'[i - 1] == cs[|cs| - 1];
        }
      }
      assert SpellsPath(store', cs', names');
    }
  }

  /** The commit walk so far: no segment read yet, or `$id` names the category
      that the segments read so far spell from the root down. */
  ghost predicate ChainSoFar(s: St, w: Walk) {
    !s.preview
    && ((w.id.None? && w.current == [] && w.idLast == 0)
        || (w.id == Some(w.idLast) && NamesCategory(s.store, w.current, w.idLast)))
  }

  /** One commit-mode step that goes on extends the chain by the segment. */
  lemma StepCommitNames(s: St, name: string, w: Walk, refused: set<(string, int)>)
    requires ChainSoFar(s, w)
    ensures var st := Step(s, name, w, refused);
      (st.Continue? ==> ChainSoFar(st.s, st.w)) && (st.Break? ==> st.w.id == Some(-1))
  {
    var st := Step(s, name, w, refused);
    if st.Continue? {
      var records := Matches(s.store, name, w.idLast);
      MatchesExact(s.store, name, w.idLast);
      if |records| == 1 {
        assert records[0] in records;
        NamesCategoryExtend(s.store, st.s.store, w.current, w.idLast, records[0]);
      } else {
        var c := Category(s.nextId, name, w.idLast, "");
        assert st.s.store == s.store + [c];
        NamesCategoryExtend(s.store, st.s.store, w.current, w.idLast, c);
      }
    }
  }

  /** Commit mode: when the walk ends with a real id, that id is the last of a
      chain of categories of the store it leaves which spells, from the root
      down, the segments the walk read. */
  lemma {:induction false} WalkCommitNames(s: St, rest: seq<string>, w: Walk, refused: set<(string, int)>)
    requires ChainSoFar(s, w)
    ensures var d := WalkFrom(s, rest, w, refused);
      d.Done? && d.w.id.Some? && d.w.id != Some(-1) ==> NamesCategory(d.s.store, d.w.current, d.w.id.value)
    decreases |rest|
  {
    if rest != [] && !IsEmpty(rest[0]) {
      var st := Step(s, rest[0], w, refused);
      StepCommitNames(s, rest[0], w, refused);
      if st.Continue? {
        WalkCommitNames(st.s, rest[1..], st.w, refused);
        assert WalkFrom(s, rest, w, refused) == WalkFrom(st.s, rest[1..], st.w, refused);
      } else if st.Break? {
        assert WalkFrom(s, rest, w, refused) == Done(st.s, st.w);
      }
    }
  }

  /** A walk from the first j segments of a path that ends without a stop has
      read exactly the segments before the first "" or "0". */
  lemma {:induction false} WalkReads(s: St, path: seq<string>, j: nat, w: Walk, refused: set<(string, int)>)
    requires j <= |path| && w.current == path[..j]
    ensures var d := WalkFrom(s, path[j..], w, refused);
      d.Done? && d.w.id != Some(-1) ==> d.w.current == path[..j + FirstEmpty(path[j..])]
    decreases |path| - j
  {
    if j < |path| && !IsEmpty(path[j]) {
      assert path[j..][0] == path[j] && path[j..][1..] == path[j + 1..];
      assert FirstEmpty(path[j..]) == 1 + FirstEmpty(path[j + 1..]);
      var st := Step(s, path[j], w, refused);
      assert path[..j + 1] == path[..j] + [path[j]];
      if st.Continue? {
        WalkReads(st.s, path, j + 1, st.w, refused);
      }
    } else if j == |path| {
      assert path[j..] == [];
    } else {
      assert path[j..][0] == path[j];
    }
  }

  /** A walk that gets through a prefix without stopping goes on from where the
      prefix left it. */
  lemma {:induction false} WalkSplit(s: St, a: seq<string>, b: seq<string>, w: Walk, refused: set<(string, int)>)
    requires forall i :: 0 <= i < |a| ==> !IsEmpty(a[i])
    requires WalkFrom(s, a, w, refused).Done? && WalkFrom(s, a, w, refused).w.id != Some(-1)
    ensures var d := WalkFrom(s, a, w, refused);
      WalkFrom(s, a + b, w, refused) == WalkFrom(d.s, b, d.w, refused)
    decreases |a|
  {
    if a == [] {
      assert a + b == b;
    } else {
      assert (a + b)[0] == a[0] && (a + b)[1..] == a[1..] + b;
      var st := Step(s, a[0], w, refused);
      if st.Continue? {
        WalkSplit(st.s, a[1..], b, st.w, refused);
      }
    }
  }

  /** A walk that reaches segment k and finds two categories of that name under
      the previous level, or none while creation is not allowed, stops there:
      the answer is false, -1 is cached for the path, nothing after segment k is
      looked at, and only the denial adds the 'could not resolve' error. */
  lemma ResolveFailsAt(s: St, path: seq<string>, refused: set<(string, int)>, k: nat)
    requires path !in s.pathCache && k < |path|
    requires forall i :: 0 <= i <= k ==> !IsEmpty(path[i])
    requires WalkFrom(s, path[..k], Start, refused).Done?
    requires WalkFrom(s, path[..k], Start, refused).w.id != Some(-1)
    requires var d := WalkFrom(s, path[..k], Start, refused);
      |Matches(d.s.store, path[k], d.w.idLast)| > 1
      || (Matches(d.s.store, path[k], d.w.idLast) == [] && !s.canCreate)
    ensures var d := WalkFrom(s, path[..k], Start, refused);
      var ambiguous := |Matches(d.s.store, path[k], d.w.idLast)| > 1;
      ResolvePath(s, path, refused)
        == (d.s.(pathCache := s.pathCache[path := -1],
                 events := if ambiguous then d.s.events else d.s.events + [CouldNotResolveByPath]),
            Returned(False))
  {
    var d := WalkFrom(s, path[..k], Start, refused);
    WalkFrame(s, path[..k], Start, refused);
    WalkSplit(s, path[..k], path[k..], Start, refused);
    assert path[..k] + path[k..] == path;
    assert path[k..][0] == path[k];
  }

  // ---------------------------------------------------------------------------
  // The levels of a path in the virtual table

  /** The virtual table's key for the first i segments of the path. */
  function LevelKey(path: seq<string>, i: nat): string
    requires i <= |path|
  {
    Flatten(path[..i])
  }

  /** The id the table gives to the first i segments; the root (0) for i = 0. */
  function LevelId(table: map<string, Rec>, path: seq<string>, i: nat): int
    requires i <= |path|
  {
    if i == 0 || LevelKey(path, i) !in table then 0 else table[LevelKey(path, i)].id
  }

  /** One more segment makes the flattened path longer: the separator's '/'
      survives trim(). */
  lemma FlattenGrows(c: seq<string>, x: string)
    requires c != []
    ensures |Flatten(c + [x])| > |Flatten(c)|
  {
    var j := Join(c, Separator);
    JoinSnoc(c, x, Separator);
    var l := j + Separator + x;
    assert l[|j| + 1] == '/';
    TrimKeeps(l, |j| + 1);
    TrimLeftProps(j);
    TrimRightProps(TrimLeft(j));
    var m := |j| - |TrimLeft(j)|;
    if m < |j| {
      assert TrimLeft(j)[0] == j[m] == l[m];
      TrimKeeps(l, m);
    }
  }

  /** Deeper levels have strictly longer keys, so no two levels share a key. */
  lemma {:induction false} FlattenLonger(path: seq<string>, i: nat, m: nat)
    requires 1 <= i < m <= |path|
    ensures |LevelKey(path, i)| < |LevelKey(path, m)|
    decreases m
  {
    assert path[..m] == path[..m - 1] + [path[m - 1]];
    FlattenGrows(path[..m - 1], path[m - 1]);
    if i < m - 1 {
      FlattenLonger(path, i, m - 1);
    }
  }

  /** Level i is in the table and was either taken over unchanged from t0 or
      built for this path: named after segment i, under the id of level i - 1. */
  predicate LevelOk(t0: map<string, Rec>, table: map<string, Rec>, path: seq<string>, i: nat)
    requires 1 <= i <= |path|
  {
    var key := LevelKey(path, i);
    key in table
    && ((key in t0 && table[key] == t0[key])
        || (table[key].name == path[i - 1] && table[key].parent == LevelId(table, path, i - 1)))
  }

  predicate LevelsOk(t0: map<string, Rec>, table: map<string, Rec>, path: seq<string>, j: nat)
    requires j <= |path|
  {
    forall i :: 1 <= i <= j ==> LevelOk(t0, table, path, i)
  }

  /** The table after the walk has written one record per level over t0:
      vals[i - 1] is what level i holds, reused or newly written. */
  function Overlay(t0: map<string, Rec>, path: seq<string>, vals: seq<Rec>): map<string, Rec>
    requires |vals| <= |path|
    decreases |vals|
  {
    if vals == [] then t0
    else Overlay(t0, path, vals[..|vals| - 1])[LevelKey(path, |vals|) := vals[|vals| - 1]]
  }

  /** Each level's record was taken over from t0, or built for this path: keyed
      by its partial path, named after its segment, under the level above. */
  predicate LevelVal(t0: map<string, Rec>, path: seq<string>, vals: seq<Rec>, i: nat)
    requires i < |vals| <= |path|
  {
    (LevelKey(path, i + 1) in t0 && vals[i] == t0[LevelKey(path, i + 1)])
    || (vals[i].path == LevelKey(path, i + 1) && vals[i].name == path[i]
        && vals[i].parent == (if i == 0 then 0 else vals[i - 1].id))
  }

  predicate LevelVals(t0: map<string, Rec>, path: seq<string>, vals: seq<Rec>)
    requires |vals| <= |path|
  {
    forall i :: 0 <= i < |vals| ==> LevelVal(t0, path, vals, i)
  }

  /** The level records minted on the walk, in walk order: new keys of virtual origin. */
  function MintedOf(t0: map<string, Rec>, path: seq<string>, vals: seq<Rec>): seq<Rec>
    requires |vals| <= |path|
    decreases |vals|
  {
    if vals == [] then []
    else
      var last := vals[|vals| - 1];
      MintedOf(t0, path, vals[..|vals| - 1])
        + (if LevelKey(path, |vals|) !in t0 && last.origin == Virtual then [last] else [])
  }

  /** The preview walk after |vals| segments, starting from table t0. */
  predicate PreviewInv(t0: map<string, Rec>, s: St, w: Walk, path: seq<string>, vals: seq<Rec>) {
    var j := |vals|;
    j <= |path| && s.canCreate && s.preview
    && w.current == path[..j]
    && s.table == Overlay(t0, path, vals)
    && w.idLast == (if j == 0 then 0 else vals[j - 1].id)
    && w.id == (if j == 0 then None else Some(w.idLast))
    && LevelVals(t0, path, vals)
    && w.result == MintedOf(t0, path, vals)
  }

  /** The keys of the first j levels differ from the key of level j + 1. */
  lemma KeysBelow(path: seq<string>, j: nat)
    requires j < |path|
    ensures forall i :: 1 <= i <= j ==> LevelKey(path, i) != LevelKey(path, j + 1)
  {
    forall i | 1 <= i <= j ensures LevelKey(path, i) != LevelKey(path, j + 1) {
      FlattenLonger(path, i, j + 1);
    }
  }

  /** A key that is no level's key reads the same in the overlay as in t0. */
  lemma {:induction false} OverlayElsewhere(t0: map<string, Rec>, path: seq<string>, vals: seq<Rec>, k: string)
    requires |vals| <= |path|
    requires forall i :: 1 <= i <= |vals| ==> k != LevelKey(path, i)
    ensures (k in Overlay(t0, path, vals) <==> k in t0)
    ensures k in t0 ==> Overlay(t0, path, vals)[k] == t0[k]
    decreases |vals|
  {
    if vals != [] {
      OverlayElsewhere(t0, path, vals[..|vals| - 1], k);
    }
  }

  /** Level i of the overlay holds vals[i - 1]: later levels have other keys. */
  lemma {:induction false} OverlayAt(t0: map<string, Rec>, path: seq<string>, vals: seq<Rec>, i: nat)
    requires 1 <= i <= |vals| <= |path|
    ensures LevelKey(path, i) in Overlay(t0, path, vals)
    ensures Overlay(t0, path, vals)[LevelKey(path, i)] == vals[i - 1]
    decreases |vals|
  {
    if i < |vals| {
      FlattenLonger(path, i, |vals|);
      OverlayAt(t0, path, vals[..|vals| - 1], i);
    }
  }

  /** Every minted record is one of the level records, at a level whose key t0 lacks. */
  lemma {:induction false} MintedOfLevels(t0: map<string, Rec>, path: seq<string>, vals: seq<Rec>)
    requires |vals| <= |path|
    ensures forall k :: 0 <= k < |MintedOf(t0, path, vals)| ==>
      exists i :: 1 <= i <= |vals| && MintedOf(t0, path, vals)[k] == vals[i - 1]
                  && LevelKey(path, i) !in t0
    decreases |vals|
  {
    if vals != [] {
      var init := vals[..|vals| - 1];
      MintedOfLevels(t0, path, init);
      forall k | 0 <= k < |MintedOf(t0, path, vals)|
        ensures exists i :: 1 <= i <= |vals| && MintedOf(t0, path, vals)[k] == vals[i - 1]
                            && LevelKey(path, i) !in t0
      {
        var last := vals[|vals| - 1];
        var added := if LevelKey(path, |vals|) !in t0 && last.origin == Virtual then [last] else [];
        assert MintedOf(t0, path, vals) == MintedOf(t0, path, init) + added;
        if k < |MintedOf(t0, path, init)| {
          var i :| 1 <= i <= |init| && MintedOf(t0, path, init)[k] == init[i - 1] && LevelKey(path, i) !in t0;
          assert vals[i - 1] == init[i - 1];
        } else {
          assert added == [last] && MintedOf(t0, path, vals)[k] == last;
        }
      }
    } else {
      assert MintedOf(t0, path, vals) == [];
    }
  }

  /** Appending the record of level j + 1 to the level records. */
  lemma NextVals(t0: map<string, Rec>, path: seq<string>, vals: seq<Rec>, v: Rec)
    requires |vals| < |path| && LevelVals(t0, path, vals)
    requires (LevelKey(path, |vals| + 1) in t0 && v == t0[LevelKey(path, |vals| + 1)])
             || (v.path == LevelKey(path, |vals| + 1) && v.name == path[|vals|]
                 && v.parent == (if vals == [] then 0 else vals[|vals| - 1].id))
    ensures var vals' := vals + [v];
      Overlay(t0, path, vals') == Overlay(t0, path, vals)[LevelKey(path, |vals| + 1) := v]
      && MintedOf(t0, path, vals')
         == MintedOf(t0, path, vals)
            + (if LevelKey(path, |vals| + 1) !in t0 && v.origin == Virtual then [v] else [])
      && LevelVals(t0, path, vals')
  {
    var vals' := vals + [v];
    assert vals'[..|vals|] == vals && vals'[|vals|] == v;
    forall i | 0 <= i < |vals'| ensures LevelVal(t0, path, vals', i) {
      if i < |vals| {
        assert LevelVal(t0, path, vals, i);
        assert vals'[i] == vals[i];
        if i > 0 {
          assert vals'[i - 1] == vals[i - 1];
        }
      } else if i > 0 {
        assert vals'[i - 1] == vals[|vals| - 1];
      }
    }
  }

  /** What the overlay says about level i: the record it holds, the ids of
      levels i and i - 1, and that the record was reused or built. */
  lemma LevelFacts(t0: map<string, Rec>, path: seq<string>, vals: seq<Rec>, i: nat)
    requires 1 <= i <= |vals| <= |path| && LevelVals(t0, path, vals)
    ensures var table := Overlay(t0, path, vals);
      var key := LevelKey(path, i);
      key in table && table[key] == vals[i - 1]
      && LevelId(table, path, i) == vals[i - 1].id
      && LevelId(table, path, i - 1) == (if i == 1 then 0 else vals[i - 2].id)
      && ((key in t0 && vals[i - 1] == t0[key])
          || (vals[i - 1].path == key && vals[i - 1].name == path[i - 1]
              && vals[i - 1].parent == LevelId(table, path, i - 1)))
  {
    OverlayAt(t0, path, vals, i);
    assert LevelVal(t0, path, vals, i - 1);
    if i > 1 {
      OverlayAt(t0, path, vals, i - 1);
    }
  }

  /** A single database match becomes level j + 1's record. */
  lemma StepLevelDb(t0: map<string, Rec>, s: St, w: Walk, path: seq<string>, vals: seq<Rec>,
                    refused: set<(string, int)>, c: Category)
    requires PreviewInv(t0, s, w, path, vals) && |vals| < |path|
    requires Matches(s.store, path[|vals|], w.idLast) == [c]
    ensures var st := Step(s, path[|vals|], w, refused);
      st.Continue?
      && PreviewInv(t0, st.s, st.w, path, vals + [Rec(c.id, w.idLast, path[|vals|], Db, LevelKey(path, |vals| + 1))])
  {
    var j := |vals|;
    assert path[..j + 1] == path[..j] + [path[j]];
    MatchesExact(s.store, path[j], w.idLast);
    assert c in Matches(s.store, path[j], w.idLast);
    NextVals(t0, path, vals, Rec(c.id, w.idLast, path[j], Db, LevelKey(path, j + 1)));
  }

  /** A partial path already in the table is reused: it can only be one of t0's entries. */
  lemma StepLevelReuse(t0: map<string, Rec>, s: St, w: Walk, path: seq<string>, vals: seq<Rec>,
                       refused: set<(string, int)>)
    requires PreviewInv(t0, s, w, path, vals) && |vals| < |path|
    requires Matches(s.store, path[|vals|], w.idLast) == [] && LevelKey(path, |vals| + 1) in s.table
    ensures LevelKey(path, |vals| + 1) in t0
    ensures var st := Step(s, path[|vals|], w, refused);
      st.Continue? && PreviewInv(t0, st.s, st.w, path, vals + [t0[LevelKey(path, |vals| + 1)]])
  {
    var j := |vals|;
    var key := LevelKey(path, j + 1);
    assert path[..j + 1] == path[..j] + [path[j]];
    KeysBelow(path, j);
    OverlayElsewhere(t0, path, vals, key);
    NextVals(t0, path, vals, t0[key]);
    assert s.table[key := t0[key]] == s.table;
  }

  /** A partial path neither in the database nor in the table is minted as level j + 1. */
  lemma StepLevelMint(t0: map<string, Rec>, s: St, w: Walk, path: seq<string>, vals: seq<Rec>,
                      refused: set<(string, int)>)
    requires PreviewInv(t0, s, w, path, vals) && |vals| < |path|
    requires Matches(s.store, path[|vals|], w.idLast) == [] && LevelKey(path, |vals| + 1) !in s.table
    ensures var st := Step(s, path[|vals|], w, refused);
      var v := Rec(VirtualBase + s.counter + 1, w.idLast, path[|vals|], Virtual, LevelKey(path, |vals| + 1));
      st.Continue? && PreviewInv(t0, st.s, st.w, path, vals + [v])
  {
    var j := |vals|;
    var key := LevelKey(path, j + 1);
    assert path[..j + 1] == path[..j] + [path[j]];
    KeysBelow(path, j);
    OverlayElsewhere(t0, path, vals, key);
    NextVals(t0, path, vals, Rec(VirtualBase + s.counter + 1, w.idLast, path[j], Virtual, key));
  }

  /** One preview step over segment j = |vals|, seen from the walk: it goes on
      with one more level record, or the walk stops there on an ambiguity. */
  lemma WalkStepLevels(t0: map<string, Rec>, s: St, w: Walk, path: seq<string>, vals: seq<Rec>,
                       refused: set<(string, int)>) returns (s': St, w': Walk, vals': seq<Rec>, going: bool)
    requires PreviewInv(t0, s, w, path, vals) && |vals| < |path| && !IsEmpty(path[|vals|])
    ensures going ==>
              PreviewInv(t0, s', w', path, vals') && |vals'| == |vals| + 1
              && WalkFrom(s, path[|vals|..], w, refused) == WalkFrom(s', path[|vals| + 1..], w', refused)
    ensures !going ==>
              WalkFrom(s, path[|vals|..], w, refused).Done?
              && WalkFrom(s, path[|vals|..], w, refused).w.id == Some(-1)
  {
    var j := |vals|;
    var key := LevelKey(path, j + 1);
    assert path[j..][0] == path[j] && path[j..][1..] == path[j + 1..];
    var st := Step(s, path[j], w, refused);
    var records := Matches(s.store, path[j], w.idLast);
    s', w', going := st.s, st.w, st.Continue?;
    if |records| == 1 {
      assert records == [records[0]];
      StepLevelDb(t0, s, w, path, vals, refused, records[0]);
      vals' := vals + [Rec(records[0].id, w.idLast, path[j], Db, key)];
    } else if records == [] && key in s.table {
      StepLevelReuse(t0, s, w, path, vals, refused);
      vals' := vals + [t0[key]];
    } else if records == [] {
      StepLevelMint(t0, s, w, path, vals, refused);
      vals' := vals + [Rec(VirtualBase + s.counter + 1, w.idLast, path[j], Virtual, key)];
    } else {
      vals' := vals;
      assert st.Break? && st.w.id == Some(-1);
    }
  }

  /** A preview walk from level |vals| keeps PreviewInv up to the first empty
      segment, unless it stops on an ambiguity. */
  lemma {:induction false} WalkPreviewLevels(t0: map<string, Rec>, s: St, path: seq<string>,
                                             w: Walk, vals: seq<Rec>, refused: set<(string, int)>)
    returns (valsEnd: seq<Rec>)
    requires PreviewInv(t0, s, w, path, vals)
    ensures var d := WalkFrom(s, path[|vals|..], w, refused);
      d.Done? && (d.w.id != Some(-1) ==>
        PreviewInv(t0, d.s, d.w, path, valsEnd) && |valsEnd| == |vals| + FirstEmpty(path[|vals|..]))
    decreases |path| - |vals|
  {
    var j := |vals|;
    valsEnd := vals;
    if j < |path| && !IsEmpty(path[j]) {
      assert path[j..][1..] == path[j + 1..];
      assert FirstEmpty(path[j..]) == 1 + FirstEmpty(path[j + 1..]);
      var s', w', vals', going := WalkStepLevels(t0, s, w, path, vals, refused);
      if going {
        valsEnd := WalkPreviewLevels(t0, s', path, w', vals', refused);
      }
    } else if j == |path| {
      assert path[j..] == [];
    } else {
      assert path[j..][0] == path[j];
    }
  }

  /** What a non-false preview answer says about the path's levels in the table
      left behind (n is the number of segments read): every level is taken over
      unchanged or built under the level above, the cache holds the deepest
      level's id, an ['id' => id] answer is that id, and every record answered
      is what the table holds for its key, named after its segment and placed
      under the id of the level above. */
  predicate AnswersLevels(s: St, s': St, path: seq<string>, n: nat, result: PathResult)
    requires n <= |path|
  {
    LevelsOk(s.table, s'.table, path, n)
    && (n > 0 ==> s'.pathCache == s.pathCache[path := LevelId(s'.table, path, n)])
    && (result.IdOnly? ==> n > 0 && result.id == LevelId(s'.table, path, n))
    && (result.NewRecords? ==>
          forall k :: 0 <= k < |result.recs| ==>
            var rec := result.recs[k];
            rec.path in s'.table && s'.table[rec.path] == rec
            && exists i :: 1 <= i <= n && rec.path == LevelKey(path, i)
                 && rec.name == path[i - 1] && rec.parent == LevelId(s'.table, path, i - 1))
  }

  /** The invariant at the end of a preview walk gives the answer AnswersLevels
      describes, with the cache entry ResolvePath writes. */
  lemma InvAnswers(s: St, d: St, w: Walk, path: seq<string>, vals: seq<Rec>)
    requires PreviewInv(s.table, d, w, path, vals) && d.pathCache == s.pathCache && w.id != Some(-1)
    ensures var s' := if w.id.Some? then d.(pathCache := d.pathCache[path := w.id.value]) else d;
      AnswersLevels(s, s', path, |vals|, Shape(w.id, w.result))
  {
    var n := |vals|;
    var t0 := s.table;
    forall i | 1 <= i <= n ensures LevelOk(t0, d.table, path, i) {
      LevelFacts(t0, path, vals, i);
    }
    if n > 0 {
      LevelFacts(t0, path, vals, n);
    }
    MintedOfLevels(t0, path, vals);
    forall k | 0 <= k < |w.result|
      ensures var rec := w.result[k];
        rec.path in d.table && d.table[rec.path] == rec
        && exists i :: 1 <= i <= n && rec.path == LevelKey(path, i)
             && rec.name == path[i - 1] && rec.parent == LevelId(d.table, path, i - 1)
    {
      var i :| 1 <= i <= n && w.result[k] == vals[i - 1] && LevelKey(path, i) !in t0;
      LevelFacts(t0, path, vals, i);
    }
  }

  /** Preview mode with creation allowed: a non-false answer is as AnswersLevels
      says, over the segments before the first "" or "0". */
  lemma PreviewAnswer(s: St, path: seq<string>, refused: set<(string, int)>)
    requires s.canCreate && s.preview && path !in s.pathCache
    ensures var (s', out) := ResolvePath(s, path, refused);
      out.Returned? && (out.result != False ==> AnswersLevels(s, s', path, FirstEmpty(path), out.result))
  {
    assert path[..0] == [] && path[0..] == path;
    var vals := WalkPreviewLevels(s.table, s, path, Start, [], refused);
    WalkFrame(s, path, Start, refused);
    var d := WalkFrom(s, path, Start, refused);
    if d.w.id != Some(-1) {
      InvAnswers(s, d.s, d.w, path, vals);
    }
  }

  /** A preview path whose every level is already in the table, and none of
      whose segments matches a category under the level above, is answered by
      reusing the table alone: ['id' => id] of the deepest level, which is cached;
      nothing is minted, logged or written elsewhere. */
  lemma ResolveReusesTable(s: St, path: seq<string>, refused: set<(string, int)>)
    requires s.canCreate && s.preview && path !in s.pathCache && TableIdsPositive(s.table)
    requires path != [] && forall i :: 0 <= i < |path| ==> !IsEmpty(path[i])
    requires forall i :: 1 <= i <= |path| ==> LevelKey(path, i) in s.table
    requires forall i :: 0 <= i < |path| ==> Matches(s.store, path[i], LevelId(s.table, path, i)) == []
    ensures var id := LevelId(s.table, path, |path|);
      ResolvePath(s, path, refused) == (s.(pathCache := s.pathCache[path := id]), Returned(IdOnly(id)))
  {
    assert path[..0] == [] && path[0..] == path && path[..|path|] == path;
    WalkReuses(s, path, 0, refused);
  }

  /** The walk state after reusing the first j levels from the table. */
  function ReusedWalk(table: map<string, Rec>, path: seq<string>, j: nat): Walk
    requires j <= |path|
  {
    Walk(if j == 0 then None else Some(LevelId(table, path, j)), LevelId(table, path, j), path[..j], [])
  }

  /** Reusing level j + 1 from the table. */
  lemma ReuseStep(s: St, path: seq<string>, j: nat, refused: set<(string, int)>)
    requires s.canCreate && s.preview && j < |path|
    requires LevelKey(path, j + 1) in s.table
    requires Matches(s.store, path[j], LevelId(s.table, path, j)) == []
    ensures Step(s, path[j], ReusedWalk(s.table, path, j), refused) == Continue(s, ReusedWalk(s.table, path, j + 1))
  {
    assert path[..j + 1] == path[..j] + [path[j]];
  }

  lemma {:induction false} WalkReuses(s: St, path: seq<string>, j: nat, refused: set<(string, int)>)
    requires s.canCreate && s.preview && j <= |path|
    requires forall i :: 0 <= i < |path| ==> !IsEmpty(path[i])
    requires forall i :: 1 <= i <= |path| ==> LevelKey(path, i) in s.table
    requires forall i :: 0 <= i < |path| ==> Matches(s.store, path[i], LevelId(s.table, path, i)) == []
    ensures WalkFrom(s, path[j..], ReusedWalk(s.table, path, j), refused)
            == Done(s, ReusedWalk(s.table, path, |path|))
    decreases |path| - j
  {
    if j < |path| {
      assert path[j..][0] == path[j] && path[j..][1..] == path[j + 1..];
      ReuseStep(s, path, j, refused);
      WalkReuses(s, path, j + 1, refused);
    } else {
      assert path[j..] == [];
    }
  }


  // ---------------------------------------------------------------------------
  // Lemmas about resolve_category_by_path

  /** A path already in the cache is answered from the cache alone: no query, no
      creation, no minting, no event; a cached -1 gives false and a positive
      cached id gives ['id' => id]. */
  lemma ResolveCached(s: St, path: seq<string>, refused: set<(string, int)>)
    requires path in s.pathCache && CachedIdsOk(s.pathCache)
    ensures ResolvePath(s, path, refused).0 == s
    ensures var out := ResolvePath(s, path, refused).1;
      (out == Returned(False) <==> s.pathCache[path] == -1)
      && (s.pathCache[path] != -1 ==> out == Returned(IdOnly(s.pathCache[path])))
  {
  }

  /** A walked path stores the walk's final `$id` under the path, and only that
      entry changes: -1 exactly when the answer is false, and the answered id
      for an ['id' => id] answer (ResolveCommit and ResolvePreview say which
      category or level that id is). A path whose first segment is "" or "0"
      stores nothing, because the cached `false` reads back as a miss. */
  lemma ResolveStoresId(s: St, path: seq<string>, refused: set<(string, int)>)
    requires path !in s.pathCache
    ensures var (s', out) := ResolvePath(s, path, refused);
      out.Returned? ==>
        && (path in s'.pathCache <==> path != [] && !IsEmpty(path[0]))
        && (path in s'.pathCache ==> s'.pathCache == s.pathCache[path := s'.pathCache[path]])
        && (path !in s'.pathCache ==> s'.pathCache == s.pathCache)
        && (out.result == False <==> path in s'.pathCache && s'.pathCache[path] == -1)
        && (out.result.IdOnly? ==> path in s'.pathCache && s'.pathCache[path] == out.result.id)
  {
    WalkFrame(s, path, Start, refused);
    if path != [] && !IsEmpty(path[0]) {
      WalkSetsId(s, path, Start, refused);
    }
  }

  /** resolve_category_by_path keeps the state invariant. */
  lemma ResolveKeepsValid(s: St, path: seq<string>, refused: set<(string, int)>)
    requires Valid(s)
    ensures Valid(ResolvePath(s, path, refused).0)
  {
    if path !in s.pathCache {
      WalkKeepsValid(s, path, Start, refused);
      WalkFrame(s, path, Start, refused);
    }
  }

  /** Resolving the same path a second time is a pure cache hit, whatever the
      first call did and whichever creations would now fail: the state does not
      change, false stays false, ['id' => id] stays the same, and a first answer
      listing newly minted records becomes ['id' => id] of the path's final id. */
  lemma ResolveTwice(s: St, path: seq<string>, refused: set<(string, int)>,
                     refused2: set<(string, int)>)
    requires Valid(s) && path !in s.pathCache
    requires path != [] && !IsEmpty(path[0])
    ensures var (s1, o1) := ResolvePath(s, path, refused);
      o1.Returned? ==>
        var (s2, o2) := ResolvePath(s1, path, refused2);
        s2 == s1 && o2.Returned?
        && (o1.result == False <==> o2.result == False)
        && (o1.result.IdOnly? ==> o2 == o1)
        && (o1.result.NewRecords? ==>
              o1.result.recs != [] && o2.result.IdOnly? && o2.result.id > 0)
  {
    var (s1, o1) := ResolvePath(s, path, refused);
    ResolveStoresId(s, path, refused);
    ResolveKeepsValid(s, path, refused);
    WalkKeepsValid(s, path, Start, refused);
    WalkSetsId(s, path, Start, refused);
    if o1.Returned? {
      ResolveCached(s1, path, refused2);
    }
  }

  /** Records minted on one preview walk: consecutive virtual ids after
      `counter`, absent from the table before the walk and present after it. */
  predicate FreshlyMinted(recs: seq<Rec>, counter: nat, before: map<string, Rec>, after: map<string, Rec>) {
    forall k :: 0 <= k < |recs| ==>
      recs[k].id == VirtualBase + counter + k + 1 && recs[k].origin == Virtual
      && recs[k].path !in before && recs[k].path in after
  }

  /** No two records share a flattened path. */
  predicate DistinctPaths(recs: seq<Rec>) {
    forall j, k :: 0 <= j < k < |recs| ==> recs[j].path != recs[k].path
  }

  /** Preview mode with creation allowed: the call never throws and never writes
      the store, the idnumber cache or the flags; the table only gains entries.
      When it answers with new records, they are exactly the ones minted on this
      walk: the counter advanced by their number and they are freshly minted. An
      ['id' => id] answer minted nothing. Any answer other than false is about
      the path's levels as AnswersLevels says: the id answered and cached is the
      deepest level's, and each record answered sits at its level, named after
      its segment, under the level above. */
  lemma ResolvePreview(s: St, path: seq<string>, refused: set<(string, int)>)
    requires s.canCreate && s.preview && path !in s.pathCache
    ensures var (s', out) := ResolvePath(s, path, refused);
      out.Returned?
      && s'.store == s.store && s'.nextId == s.nextId && s'.idnCache == s.idnCache
      && s'.canCreate && s'.preview
      && s.table.Keys <= s'.table.Keys
      && (out.result.NewRecords? ==>
            s'.counter == s.counter + |out.result.recs|
            && FreshlyMinted(out.result.recs, s.counter, s.table, s'.table))
      && (out.result.IdOnly? ==> s'.counter == s.counter)
      && (out.result != False ==> AnswersLevels(s, s', path, FirstEmpty(path), out.result))
  {
    WalkPreview(s, path, Start, refused);
    WalkPreviewDistinct(s, path, Start, refused);
    PreviewAnswer(s, path, refused);
  }

  /** Preview mode with creation allowed: the status log gains one 'will be
      created' event per record answered, in order, and none with an
      ['id' => id] answer. */
  lemma ResolvePreviewEvents(s: St, path: seq<string>, refused: set<(string, int)>)
    requires s.canCreate && s.preview && path !in s.pathCache
    ensures var (s', out) := ResolvePath(s, path, refused);
      out.Returned?
      && (out.result.NewRecords? ==> s'.events == s.events + WillBeCreatedEvents(out.result.recs))
      && (out.result.IdOnly? ==> s'.events == s.events)
  {
    WalkPreviewEvents(s, path, Start, refused);
    var d := WalkFrom(s, path, Start, refused);
    EventsOfMinted(s.events, d.s.events, d.w.result);
  }

  /** The log after a walk that minted `recs` is the log before it followed by
      one 'will be created' event per record. */
  lemma EventsOfMinted(before: seq<Event>, after: seq<Event>, recs: seq<Rec>)
    requires before <= after && |after| - |before| == |recs|
    requires forall k :: 0 <= k < |recs| ==> after[|before| + k] == WillBeCreated(recs[k].path)
    ensures after == before + WillBeCreatedEvents(recs)
  {
    assert after == before + after[|before|..];
    assert after[|before|..] == WillBeCreatedEvents(recs);
  }

  /** Preview mode with creation allowed: the records answered have pairwise
      different flattened paths, so keying them by path in PHP loses none. */
  lemma ResolvePreviewDistinct(s: St, path: seq<string>, refused: set<(string, int)>)
    requires s.canCreate && s.preview && path !in s.pathCache
    ensures var out := ResolvePath(s, path, refused).1;
      out.Returned? && (out.result.NewRecords? ==> DistinctPaths(out.result.recs))
  {
    WalkPreviewDistinct(s, path, Start, refused);
  }

  /** Commit mode: the virtual counter and the idnumber cache are untouched, the
      table only gains database records, the store only grows with consecutive
      ids and stays a well-formed tree (every created category's parent is the
      root or an earlier category), and the answer is false, an empty array (no
      segment processed), ['id' => id] of a category in the store, or the
      exception. The denial record is never returned. An ['id' => id] answer
      is the category the path names: a chain of store categories, the first
      under the root and each under the one before, spells the segments before
      the first "" or "0" and ends in that id. */
  lemma ResolveCommit(s: St, path: seq<string>, refused: set<(string, int)>)
    requires !s.preview && StoreValid(s.store, s.nextId) && path !in s.pathCache
    ensures var (s', out) := ResolvePath(s, path, refused);
      s'.counter == s.counter && s'.idnCache == s.idnCache && !s'.preview
      && s.store <= s'.store && StoreValid(s'.store, s'.nextId)
      && s'.nextId == s.nextId + (|s'.store| - |s.store|)
      && TableGrowsByDb(s.table, s'.table)
      && (out.Returned? ==>
            out.result == False || out.result == NewRecords([])
            || (out.result.IdOnly? && out.result.id in Ids(s'.store)))
      && (out.Returned? && out.result.IdOnly? ==>
            NamesCategory(s'.store, path[..FirstEmpty(path)], out.result.id))
  {
    WalkCommit(s, path, Start, refused);
    WalkCommitNames(s, path, Start, refused);
    assert path[..0] == [] && path[0..] == path;
    WalkReads(s, path, 0, Start, refused);
  }

  /** Commit mode: with creation allowed the status log gains one
      'categorycreated' event per created category and nothing else; without it
      the store is untouched and at most the one 'could not resolve' error is logged. */
  lemma ResolveCommitEvents(s: St, path: seq<string>, refused: set<(string, int)>)
    requires !s.preview && StoreValid(s.store, s.nextId) && path !in s.pathCache
    ensures var s' := ResolvePath(s, path, refused).0;
      s.events <= s'.events
      && (s.canCreate ==>
            |s'.events| - |s.events| == |s'.store| - |s.store|
            && forall k :: |s.events| <= k < |s'.events| ==> s'.events[k].Created?)
      && (!s.canCreate ==>
            s'.store == s.store
            && (s'.events == s.events || s'.events == s.events + [CouldNotResolveByPath]))
  {
    WalkCommitEvents(s, path, Start, refused);
  }

  /** reset_virtual_id_counter keeps the table, and the next record minted in
      preview takes the first virtual id again. */
  lemma ResetRestartsMinting(s: St, path: seq<string>, refused: set<(string, int)>)
    requires s.canCreate && s.preview && path !in s.pathCache
    ensures ResetCounter(s).table == s.table && ResetCounter(s).counter == 0
    ensures var out := ResolvePath(ResetCounter(s), path, refused).1;
      out.Returned? && out.result.NewRecords? && out.result.recs != [] ==>
        out.result.recs[0].id == VirtualBase + 1
  {
    ResolvePreview(ResetCounter(s), path, refused);
  }
}
