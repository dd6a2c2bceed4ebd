/** Concrete runs of resolve_category_by_path on small stores. Each run is
    taken one shift of the loop at a time: a lemma per step gives the state and
    locals after it, and the run composes them. */
module CategoryScenarios {
  import opened PhpText
  import opened CategoryPath

  /** An empty category table and empty caches, creation allowed. */
  function Fresh(preview: bool): St {
    St(0, map[], map[], map[], [], 1, [], true, preview)
  }

  /** No creation fails. */
  const NoneRefused: set<(string, int)> := {}

  lemma FlattenScience()
    ensures Flatten(["Science"]) == "Science"
    ensures Flatten(["Science", "Physics"]) == "Science / Physics"
  {
    assert Join(["Science", "Physics"], Separator) == "Science" + Separator + "Physics";
  }

  lemma FlattenAB()
    ensures Flatten(["A"]) == "A" && Flatten(["A", "B"]) == "A / B"
  {
    assert Join(["A", "B"], Separator) == "A" + Separator + "B";
  }

  lemma FlattenCD()
    ensures Flatten(["A", "B", "C"]) == "A / B / C" && Flatten(["A", "B", "D"]) == "A / B / D"
  {
    assert Join(["B", "C"], Separator) == "B / C";
    assert Join(["B", "D"], Separator) == "B / D";
  }

  // ---------------------------------------------------------------------------
  // Commit mode: "Science / Physics" on an empty store

  const Science: Category := Category(1, "Science", 0, "")
  const Physics: Category := Category(2, "Physics", 1, "")

  lemma CreateScience()
    ensures Step(Fresh(false), "Science", Start, NoneRefused)
         == Continue(Fresh(false).(store := [Science], nextId := 2, events := [Created("Science")]),
                     Walk(Some(1), 1, ["Science"], []))
  {
    FlattenScience();
  }

  lemma CreatePhysics()
    ensures Step(Fresh(false).(store := [Science], nextId := 2, events := [Created("Science")]),
                 "Physics", Walk(Some(1), 1, ["Science"], []), NoneRefused)
         == Continue(Fresh(false).(store := [Science, Physics], nextId := 3,
                                   events := [Created("Science"), Created("Science / Physics")]),
                     Walk(Some(2), 2, ["Science", "Physics"], []))
  {
    FlattenScience();
    assert Matches([Science], "Physics", 1) == [];
  }

  /** Commit mode, no categories yet: "Science" is created under the root and
      "Physics" under it, one 'categorycreated' event each, and the answer is
      ['id' => id] of Physics, cached under the path. */
  lemma ScienceAndPhysicsCommit()
    ensures var (s', out) := ResolvePath(Fresh(false), ["Science", "Physics"], NoneRefused);
      out == Returned(IdOnly(2))
      && s'.store == [Science, Physics]
      && s'.events == [Created("Science"), Created("Science / Physics")]
      && s'.pathCache == map[["Science", "Physics"] := 2]
      && s'.counter == 0 && s'.table == map[]
  {
    var s1 := Fresh(false).(store := [Science], nextId := 2, events := [Created("Science")]);
    var w1 := Walk(Some(1), 1, ["Science"], []);
    var s2 := Fresh(false).(store := [Science, Physics], nextId := 3,
                            events := [Created("Science"), Created("Science / Physics")]);
    var w2 := Walk(Some(2), 2, ["Science", "Physics"], []);
    CreateScience();
    CreatePhysics();
    assert ["Science", "Physics"][1..] == ["Physics"];
    assert WalkFrom(s1, ["Physics"], w1, NoneRefused) == Done(s2, w2);
    assert WalkFrom(Fresh(false), ["Science", "Physics"], Start, NoneRefused)
        == WalkFrom(s1, ["Physics"], w1, NoneRefused);
  }

  // ---------------------------------------------------------------------------
  // Preview mode: the same path

  const VScience: Rec := Rec(VirtualBase + 1, 0, "Science", Virtual, "Science")
  const VPhysics: Rec := Rec(VirtualBase + 2, VirtualBase + 1, "Physics", Virtual, "Science / Physics")

  lemma MintScience()
    ensures Step(Fresh(true), "Science", Start, NoneRefused)
         == Continue(Fresh(true).(counter := 1, table := map["Science" := VScience],
                                  events := [WillBeCreated("Science")]),
                     Walk(Some(VirtualBase + 1), VirtualBase + 1, ["Science"], [VScience]))
  {
    FlattenScience();
  }

  lemma MintPhysics()
    ensures Step(Fresh(true).(counter := 1, table := map["Science" := VScience],
                              events := [WillBeCreated("Science")]),
                 "Physics", Walk(Some(VirtualBase + 1), VirtualBase + 1, ["Science"], [VScience]), NoneRefused)
         == Continue(Fresh(true).(counter := 2,
                                  table := map["Science" := VScience, "Science / Physics" := VPhysics],
                                  events := [WillBeCreated("Science"), WillBeCreated("Science / Physics")]),
                     Walk(Some(VirtualBase + 2), VirtualBase + 2, ["Science", "Physics"], [VScience, VPhysics]))
  {
    FlattenScience();
    assert "Science / Physics" != "Science";
  }

  /** The same path in preview: nothing is written to the store, two virtual
      records are minted with consecutive ids above the base and linked to each
      other, the table holds exactly these two, and the answer lists both. */
  lemma ScienceAndPhysicsPreview()
    ensures var (s', out) := ResolvePath(Fresh(true), ["Science", "Physics"], NoneRefused);
      out == Returned(NewRecords([VScience, VPhysics]))
      && s'.store == [] && s'.counter == 2
      && s'.table == map["Science" := VScience, "Science / Physics" := VPhysics]
      && s'.events == [WillBeCreated("Science"), WillBeCreated("Science / Physics")]
      && s'.pathCache == map[["Science", "Physics"] := VirtualBase + 2]
  {
    var s1 := Fresh(true).(counter := 1, table := map["Science" := VScience],
                           events := [WillBeCreated("Science")]);
    var w1 := Walk(Some(VirtualBase + 1), VirtualBase + 1, ["Science"], [VScience]);
    var s2 := Fresh(true).(counter := 2,
                           table := map["Science" := VScience, "Science / Physics" := VPhysics],
                           events := [WillBeCreated("Science"), WillBeCreated("Science / Physics")]);
    var w2 := Walk(Some(VirtualBase + 2), VirtualBase + 2, ["Science", "Physics"], [VScience, VPhysics]);
    MintScience();
    MintPhysics();
    assert ["Science", "Physics"][1..] == ["Physics"];
    assert WalkFrom(s1, ["Physics"], w1, NoneRefused) == Done(s2, w2);
    assert WalkFrom(Fresh(true), ["Science", "Physics"], Start, NoneRefused)
        == WalkFrom(s1, ["Physics"], w1, NoneRefused);
  }

  // ---------------------------------------------------------------------------
  // Preview mode: rows "A / B", "A / B / C", "A / B / D"

  const RecA: Rec := Rec(VirtualBase + 1, 0, "A", Virtual, "A")
  const RecB: Rec := Rec(VirtualBase + 2, VirtualBase + 1, "B", Virtual, "A / B")
  const RecC: Rec := Rec(VirtualBase + 3, VirtualBase + 2, "C", Virtual, "A / B / C")
  const RecD: Rec := Rec(VirtualBase + 4, VirtualBase + 2, "D", Virtual, "A / B / D")

  const TableAB: map<string, Rec> := map["A" := RecA, "A / B" := RecB]

  /** The state after the first row. */
  function AfterFirstRow(): St {
    Fresh(true).(counter := 2, table := TableAB,
                 pathCache := map[["A", "B"] := VirtualBase + 2],
                 events := [WillBeCreated("A"), WillBeCreated("A / B")])
  }

  lemma MintA()
    ensures Step(Fresh(true), "A", Start, NoneRefused)
         == Continue(Fresh(true).(counter := 1, table := map["A" := RecA], events := [WillBeCreated("A")]),
                     Walk(Some(VirtualBase + 1), VirtualBase + 1, ["A"], [RecA]))
  {
    FlattenAB();
  }

  lemma MintB()
    ensures Step(Fresh(true).(counter := 1, table := map["A" := RecA], events := [WillBeCreated("A")]),
                 "B", Walk(Some(VirtualBase + 1), VirtualBase + 1, ["A"], [RecA]), NoneRefused)
         == Continue(Fresh(true).(counter := 2, table := TableAB,
                                  events := [WillBeCreated("A"), WillBeCreated("A / B")]),
                     Walk(Some(VirtualBase + 2), VirtualBase + 2, ["A", "B"], [RecA, RecB]))
  {
    FlattenAB();
    assert "A / B" != "A";
  }

  /** Preview, first row "A / B": A and B are minted. */
  lemma VirtualReuseFirstRow()
    ensures ResolvePath(Fresh(true), ["A", "B"], NoneRefused)
         == (AfterFirstRow(), Returned(NewRecords([RecA, RecB])))
  {
    var s1 := Fresh(true).(counter := 1, table := map["A" := RecA], events := [WillBeCreated("A")]);
    var w1 := Walk(Some(VirtualBase + 1), VirtualBase + 1, ["A"], [RecA]);
    var s2 := Fresh(true).(counter := 2, table := TableAB,
                           events := [WillBeCreated("A"), WillBeCreated("A / B")]);
    var w2 := Walk(Some(VirtualBase + 2), VirtualBase + 2, ["A", "B"], [RecA, RecB]);
    MintA();
    MintB();
    assert ["A", "B"][1..] == ["B"];
    assert WalkFrom(s1, ["B"], w1, NoneRefused) == Done(s2, w2);
    assert WalkFrom(Fresh(true), ["A", "B"], Start, NoneRefused) == WalkFrom(s1, ["B"], w1, NoneRefused);
  }

  /** A preview state whose table already holds A and B as the first row left them. */
  predicate HoldsAB(s: St) {
    s.canCreate && s.preview && s.store == []
    && "A" in s.table && "A / B" in s.table
    && s.table["A"] == RecA && s.table["A / B"] == RecB
  }

  lemma ReuseA(s: St)
    requires HoldsAB(s)
    ensures Step(s, "A", Start, NoneRefused) == Continue(s, Walk(Some(VirtualBase + 1), VirtualBase + 1, ["A"], []))
  {
    FlattenAB();
  }

  lemma ReuseB(s: St)
    requires HoldsAB(s)
    ensures Step(s, "B", Walk(Some(VirtualBase + 1), VirtualBase + 1, ["A"], []), NoneRefused)
         == Continue(s, Walk(Some(VirtualBase + 2), VirtualBase + 2, ["A", "B"], []))
  {
    FlattenAB();
  }

  /** The walk over "A / B" in such a state reuses both and changes nothing. */
  lemma ReusesAB(s: St, leaf: string)
    requires HoldsAB(s) && !IsEmpty(leaf)
    ensures WalkFrom(s, ["A", "B", leaf], Start, NoneRefused)
         == WalkFrom(s, [leaf], Walk(Some(VirtualBase + 2), VirtualBase + 2, ["A", "B"], []), NoneRefused)
  {
    var wa := Walk(Some(VirtualBase + 1), VirtualBase + 1, ["A"], []);
    var wb := Walk(Some(VirtualBase + 2), VirtualBase + 2, ["A", "B"], []);
    ReuseA(s);
    ReuseB(s);
    assert ["A", "B", leaf][1..] == ["B", leaf] && ["B", leaf][1..] == [leaf];
    assert WalkFrom(s, ["B", leaf], wa, NoneRefused) == WalkFrom(s, [leaf], wb, NoneRefused);
    assert WalkFrom(s, ["A", "B", leaf], Start, NoneRefused) == WalkFrom(s, ["B", leaf], wa, NoneRefused);
  }

  lemma MintLeaf(s: St, leaf: string, rec: Rec)
    requires HoldsAB(s) && !IsEmpty(leaf)
    requires rec == Rec(VirtualBase + s.counter + 1, VirtualBase + 2, leaf, Virtual, Flatten(["A", "B", leaf]))
    requires rec.path !in s.table
    ensures Step(s, leaf, Walk(Some(VirtualBase + 2), VirtualBase + 2, ["A", "B"], []), NoneRefused)
         == Continue(s.(counter := s.counter + 1, table := s.table[rec.path := rec],
                        events := s.events + [WillBeCreated(rec.path)]),
                     Walk(Some(rec.id), rec.id, ["A", "B", leaf], [rec]))
  {
    assert ["A", "B"] + [leaf] == ["A", "B", leaf];
  }

  /** Preview, a row "A / B / leaf" whose leaf is new: A and B are reused from
      the table and only the leaf is minted, under B's id. */
  lemma MintsLeaf(s: St, leaf: string, rec: Rec)
    requires HoldsAB(s) && !IsEmpty(leaf) && ["A", "B", leaf] !in s.pathCache
    requires rec == Rec(VirtualBase + s.counter + 1, VirtualBase + 2, leaf, Virtual, Flatten(["A", "B", leaf]))
    requires rec.path !in s.table
    ensures ResolvePath(s, ["A", "B", leaf], NoneRefused)
         == (s.(counter := s.counter + 1, table := s.table[rec.path := rec],
                pathCache := s.pathCache[["A", "B", leaf] := rec.id],
                events := s.events + [WillBeCreated(rec.path)]),
             Returned(NewRecords([rec])))
  {
    ReusesAB(s, leaf);
    MintLeaf(s, leaf, rec);
    var w := Walk(Some(VirtualBase + 2), VirtualBase + 2, ["A", "B"], []);
    var s' := s.(counter := s.counter + 1, table := s.table[rec.path := rec],
                 events := s.events + [WillBeCreated(rec.path)]);
    assert WalkFrom(s, [leaf], w, NoneRefused) == Done(s', Walk(Some(rec.id), rec.id, ["A", "B", leaf], [rec]));
  }

  /** The state after the second row. */
  function AfterSecondRow(): St {
    AfterFirstRow().(counter := 3, table := TableAB["A / B / C" := RecC],
                     pathCache := AfterFirstRow().pathCache[["A", "B", "C"] := VirtualBase + 3],
                     events := AfterFirstRow().events + [WillBeCreated("A / B / C")])
  }

  /** Preview, second row "A / B / C": A and B come from the table the first row
      filled, and only C is minted, under B's id. */
  lemma VirtualReuseSecondRow()
    ensures ResolvePath(AfterFirstRow(), ["A", "B", "C"], NoneRefused)
         == (AfterSecondRow(), Returned(NewRecords([RecC])))
  {
    FlattenCD();
    MintsLeaf(AfterFirstRow(), "C", RecC);
  }

  /** Preview, third row "A / B / D": again only the leaf is minted; D gets the
      next id, different from C's, and the table now holds all four. */
  lemma VirtualReuseThirdRow()
    ensures var (s3, o3) := ResolvePath(AfterSecondRow(), ["A", "B", "D"], NoneRefused);
      o3 == Returned(NewRecords([RecD]))
      && s3.counter == 4 && s3.store == []
      && s3.table == map["A" := RecA, "A / B" := RecB, "A / B / C" := RecC, "A / B / D" := RecD]
  {
    FlattenCD();
    var s2 := AfterSecondRow();
    assert HoldsAB(s2);
    assert "A / B / D" !in s2.table by {
      assert "A / B / D" != "A / B / C";
    }
    assert ["A", "B", "D"] !in s2.pathCache by {
      assert ["A", "B", "D"] != ["A", "B", "C"] && ["A", "B", "D"] != ["A", "B"];
    }
    MintsLeaf(s2, "D", RecD);
  }

  // ---------------------------------------------------------------------------
  // Commit mode: a creation that fails half way

  /** Creating "C" under the category with id 2 fails. */
  const RefusesC: set<(string, int)> := {("C", 2)}

  const StoreAB: seq<Category> := [Category(1, "A", 0, ""), Category(2, "B", 1, "")]

  /** The state once A and B are created. */
  function AfterAB(): St {
    Fresh(false).(store := StoreAB, nextId := 3, events := [Created("A"), Created("A / B")])
  }

  lemma CreateA()
    ensures Step(Fresh(false), "A", Start, RefusesC)
         == Continue(Fresh(false).(store := [Category(1, "A", 0, "")], nextId := 2, events := [Created("A")]),
                     Walk(Some(1), 1, ["A"], []))
  {
    FlattenAB();
  }

  lemma CreateB()
    ensures Step(Fresh(false).(store := [Category(1, "A", 0, "")], nextId := 2, events := [Created("A")]),
                 "B", Walk(Some(1), 1, ["A"], []), RefusesC)
         == Continue(AfterAB(), Walk(Some(2), 2, ["A", "B"], []))
  {
    FlattenAB();
    assert Matches([Category(1, "A", 0, "")], "B", 1) == [];
  }

  lemma RefuseC()
    ensures Step(AfterAB(), "C", Walk(Some(2), 2, ["A", "B"], []), RefusesC) == Throw(AfterAB())
  {
    assert Matches(StoreAB, "C", 2) == [];
  }

  /** Commit mode, "A / B / C" where creating C fails: the call throws, A and B
      stay created (no rollback) and nothing is cached. */
  lemma PartialCreationThrows()
    ensures ResolvePath(Fresh(false), ["A", "B", "C"], RefusesC) == (AfterAB(), CannotCreateCategory)
  {
    var s1 := Fresh(false).(store := [Category(1, "A", 0, "")], nextId := 2, events := [Created("A")]);
    var w1 := Walk(Some(1), 1, ["A"], []);
    var w2 := Walk(Some(2), 2, ["A", "B"], []);
    CreateA();
    CreateB();
    RefuseC();
    assert ["A", "B", "C"][1..] == ["B", "C"] && ["B", "C"][1..] == ["C"];
    assert WalkFrom(AfterAB(), ["C"], w2, RefusesC) == Thrown(AfterAB());
    assert WalkFrom(s1, ["B", "C"], w1, RefusesC) == WalkFrom(AfterAB(), ["C"], w2, RefusesC);
    assert WalkFrom(Fresh(false), ["A", "B", "C"], Start, RefusesC) == WalkFrom(s1, ["B", "C"], w1, RefusesC);
  }

  lemma FindA(refused: set<(string, int)>)
    ensures Step(AfterAB(), "A", Start, refused)
         == Continue(AfterAB().(table := map["A" := Rec(1, 0, "A", Db, "A")]), Walk(Some(1), 1, ["A"], []))
  {
    FlattenAB();
    assert Matches(StoreAB[1..], "A", 0) == [];
  }

  lemma FindB(refused: set<(string, int)>)
    ensures Step(AfterAB().(table := map["A" := Rec(1, 0, "A", Db, "A")]), "B", Walk(Some(1), 1, ["A"], []), refused)
         == Continue(AfterAB().(table := map["A" := Rec(1, 0, "A", Db, "A"), "A / B" := Rec(2, 1, "B", Db, "A / B")]),
                     Walk(Some(2), 2, ["A", "B"], []))
  {
    FlattenAB();
    assert Matches(StoreAB[1..][1..], "B", 1) == [];
  }

  /** After the failed row, "A / B" finds both categories in the store and
      answers ['id' => id] of B, creating nothing. */
  lemma PartialCreationKept(refused: set<(string, int)>)
    ensures var (s2, o2) := ResolvePath(AfterAB(), ["A", "B"], refused);
      o2 == Returned(IdOnly(2)) && s2.store == StoreAB && s2.events == AfterAB().events
  {
    var s1 := AfterAB().(table := map["A" := Rec(1, 0, "A", Db, "A")]);
    var s2 := AfterAB().(table := map["A" := Rec(1, 0, "A", Db, "A"), "A / B" := Rec(2, 1, "B", Db, "A / B")]);
    var w1 := Walk(Some(1), 1, ["A"], []);
    FindA(refused);
    FindB(refused);
    assert ["A", "B"][1..] == ["B"];
    assert WalkFrom(s1, ["B"], w1, refused) == Done(s2, Walk(Some(2), 2, ["A", "B"], []));
    assert WalkFrom(AfterAB(), ["A", "B"], Start, refused) == WalkFrom(s1, ["B"], w1, refused);
  }

  // ---------------------------------------------------------------------------
  // Ambiguity

  /** Two categories named "X" under the root: the walk stops at once, -1 is
      cached and false is returned; nothing is created and no event is logged. */
  lemma AmbiguityIsFalse(refused: set<(string, int)>, canCreate: bool, preview: bool)
    ensures var s := St(0, map[], map[], map[], [Category(1, "X", 0, ""), Category(2, "X", 0, "")],
                        3, [], canCreate, preview);
      var (s', out) := ResolvePath(s, ["X", "Y"], refused);
      out == Returned(False)
      && s' == s.(pathCache := map[["X", "Y"] := -1])
  {
    var s := St(0, map[], map[], map[], [Category(1, "X", 0, ""), Category(2, "X", 0, "")],
                3, [], canCreate, preview);
    assert |Matches(s.store, "X", 0)| == 2;
  }
}
