/** Two migrations that run where the direct one fails. */
module HopExamples {
  import opened Ordering
  import opened Values
  import opened Registry
  import opened Database
  import opened StaticChecks
  import opened SchemaCompiler
  import opened SqlNames
  import opened Schema
  import opened MigrationPlan
  import opened MigrationSql
  import opened Refinement
  import opened MigrationRun
  import opened MigrationTheorems
  import opened SchemaRefinement
  import opened ForeignKeyOrder
  import opened NameChecks
  import opened Legibility
  import opened TableNames
  import opened ScriptTheorems
  import opened TwoHops
  import opened MigrationExamples

  // ----- the first migration

  const EMPTY := OnlyObjects(map[], map[])

  lemma NothingKept(prev: Registry, cur: Registry)
    requires prev.objects == map[]
    ensures LaterChanges(cur, prev) == [] && Ready(cur, prev)
  {
    var removed, kept := SortSet(prev.objects.Keys - cur.objects.Keys), SortSet(cur.objects.Keys * prev.objects.Keys);
    assert prev.objects.Keys - cur.objects.Keys == {} && cur.objects.Keys * prev.objects.Keys == {};
    assert removed == [] && kept == [];
  }

  lemma FirstScript(prev: Registry, cur: Registry)
    requires ValidRegistry(cur) && prev.objects == map[] && LaterChanges(cur, prev) == []
    requires !DiffPlan(cur, prev).blocked && MigrationScript(prev, cur).Some?
    ensures MigrationScript(prev, cur).value == BaselineSql(cur)
  {
    ScriptParts(prev, cur);
    assert AllStatements(cur, []) == Some([]);
    assert cur.objects.Keys - prev.objects.Keys == cur.objects.Keys;
    NothingAppended(BaselineSql(cur));
  }

  lemma NothingAppended(stmts: seq<Statement>)
    ensures stmts + [] == stmts
  {
  }

  lemma UnlistedRaises(prev: Registry, cur: Registry)
    requires prev.objects == map[] && !AllListed(cur)
    ensures exists o, p :: PropertyRaises(cur, prev, o, p)
  {
    var o :| o in cur.objects && !ObjectLists(cur, o);
    var p :| p in cur.objects[o] && !ListsValues(cur, cur.objects[o][p].typ);
    assert PropertyRaises(cur, prev, o, p);
  }

  lemma RaisingIsUnlisted(prev: Registry, cur: Registry, o: string, p: string)
    requires prev.objects == map[] && PropertyRaises(cur, prev, o, p)
    ensures !AllListed(cur)
  {
    assert o in cur.objects && !ObjectLists(cur, o);
  }

  lemma FirstRaisesIff(prev: Registry, cur: Registry)
    requires ValidRegistry(cur) && prev.objects == map[] && !DiffPlan(cur, prev).blocked
    ensures MigrationScript(prev, cur) == None <==> !AllListed(cur)
  {
    EmissionRaisesIff(cur, prev);
    if o, p :| PropertyRaises(cur, prev, o, p) {
      RaisingIsUnlisted(prev, cur, o, p);
    } else if !AllListed(cur) {
      UnlistedRaises(prev, cur);
    }
  }

  /** A migration from nothing is the baseline. */
  lemma FirstMigrationIsBaseline(prev: Registry, cur: Registry)
    requires ValidRegistry(cur) && prev.objects == map[]
    ensures !DiffPlan(cur, prev).blocked && MigrationScript(prev, cur) == BaselineScript(cur)
  {
    NothingKept(prev, cur);
    BlockedIffNotReady(cur, prev);
    FirstRaisesIff(prev, cur);
    if MigrationScript(prev, cur).Some? {
      FirstScript(prev, cur);
    }
  }

  // ----- hops that run, and the direct migration, which does not

  /** A server that reads the names in use, as different ones. */
  predicate ReadsOwner(pg: Server) {
    && pg.accepts(TableName, "a") && pg.accepts(TableName, "b")
    && pg.accepts(ColumnName, "owner_id") && pg.accepts(ConstraintName, "fk_a_owner")
    && pg.fold("a") != pg.fold("b") && pg.fold("id") != pg.fold("version")
    && pg.fold("owner_id") != pg.fold("id") && pg.fold("owner_id") != pg.fold("version")
  }

  const OWNER_SPEC :=
    ColumnSpec("owner_id", Column(Uuid, false, NotUnique, None), Some(("fk_a_owner", ForeignKey("owner_id", "b"))))

  lemma OwnerSpec()
    ensures ValidRegistry(FORWARD) && Spec(FORWARD, "a", "owner") == OWNER_SPEC
    ensures SpecsOf(FORWARD, "b") == map[] && SqlName("a") == "a" && SqlName("b") == "b"
  {
    ForwardIsValid();
    ReferencedB();
    PlainName("a");
    PlainName("b");
    assert "owner" + "_id" == "owner_id" && "fk_" + "a" + "_" + "owner" == "fk_a_owner";
  }

  lemma FirstHop(pg: Server) returns (db1: Database)
    requires ReadsOwner(pg)
    ensures Hop(pg, EMPTY, BARE, map[], db1) && HasSchema(db1, BARE) && Based(BARE, db1)
  {
    assert ValidRegistry(BARE) && ValidRegistry(EMPTY);
    PlainName("a");
    FirstMigrationIsBaseline(EMPTY, BARE);
    BareRuns(pg);
    db1 := Run(pg, true, map[], BaselineScript(BARE).value).value;
    EmptyIsBased();
    HopLeadsOnIff(pg, EMPTY, BARE, map[], db1);
  }

  lemma EmptyIsBased()
    ensures Based(EMPTY, map[])
  {
  }

  lemma BareIsRead(pg: Server)
    requires ValidRegistry(BARE) && SqlName("a") == "a" && ReadsOwner(pg)
    ensures AllNamesRead(pg, BARE) && NoForwardReference(BARE, {}) && AllListed(BARE)
  {
  }

  lemma BareIsApart(pg: Server)
    requires ValidRegistry(BARE) && ReadsOwner(pg)
    ensures NamesReadApart(pg, BARE)
  {
    assert SpecsOf(BARE, "a") == map[];
  }

  lemma BareRuns(pg: Server)
    requires ValidRegistry(BARE) && SqlName("a") == "a" && ReadsOwner(pg)
    ensures BaselineScript(BARE).Some? && Run(pg, true, map[], BaselineScript(BARE).value).Some?
    ensures HasSchema(Run(pg, true, map[], BaselineScript(BARE).value).value, BARE)
  {
    BareIsRead(pg);
    BareIsApart(pg);
    BaselineRunsIff(pg, BARE);
  }

  // ----- the second hop

  lemma SecondChanges(c: Change)
    ensures IsDifference(FORWARD, BARE, c) <==> c == ObjectAdded("b") || c == AddedProperty(FORWARD, "a", "owner")
  {
  }

  lemma SecondIsReady()
    ensures Ready(FORWARD, BARE)
  {
    assert ObjectReady(FORWARD, BARE, "a");
  }

  lemma SecondNeverRaises(o: string, p: string)
    ensures !PropertyRaises(FORWARD, BARE, o, p)
  {
    ReferencedB();
  }

  lemma SecondIsEmitted()
    requires ValidRegistry(FORWARD)
    ensures Ready(FORWARD, BARE) && !DiffPlan(FORWARD, BARE).blocked && MigrationScript(BARE, FORWARD).Some?
  {
    SecondIsReady();
    BlockedIffNotReady(FORWARD, BARE);
    forall o, p ensures !PropertyRaises(FORWARD, BARE, o, p) {
      SecondNeverRaises(o, p);
    }
    NothingStops(FORWARD, BARE);
  }

  lemma OnlyTable(db: Database, reg: Registry, o: string)
    requires ValidRegistry(reg) && reg.objects.Keys == {o} && HasSchema(db, reg)
    ensures db.Keys == {SqlName(o)} && SameShape(db[SqlName(o)], TableOf(reg, o))
  {
    assert o in reg.objects;
    forall t | t in db ensures t == SqlName(o) {
      assert TableNamed(reg, t);
    }
  }

  lemma BareSchemaNames(db1: Database)
    requires ValidRegistry(BARE) && Emittable(BARE) && HasSchema(db1, BARE)
    ensures Names(db1) == BARE_NAMES
  {
    PlainName("a");
    BareTable();
    OnlyTable(db1, BARE, "a");
    BareTableNames(db1);
  }

  lemma OwnerNames(cur: Registry, change: Change)
    requires Emits(cur, change) && ChangeStatements(cur, change) == Some(Block("a", OWNER_SPEC, None))
    ensures NamesOfChange(cur)(change) == [Name(ColumnsOf("a"), "owner_id"), Name(ConstraintsOf("a"), "fk_a_owner")]
  {
    var add := AddColumn("a", "owner_id", OWNER_SPEC.column);
    var key := AddConstraint("a", "fk_a_owner", ForeignKey("owner_id", "b"));
    assert Block("a", OWNER_SPEC, None) == [add] + ([key] + []);
    ScriptNamesFront(add, [key] + []);
    ScriptNamesFront(key, []);
  }

  lemma OwnerStatements()
    requires ValidRegistry(FORWARD)
    ensures ChangeStatements(FORWARD, AddedProperty(FORWARD, "a", "owner")) == Some(Block("a", OWNER_SPEC, None))
  {
    OwnerSpec();
    ReferencedB();
    StatementsAreBlock(BARE, FORWARD, "a", "owner");
  }

  lemma OwnerIsFree(pg: Server, taken: set<Name>, names: seq<Name>)
    requires taken == BARE_NAMES
    requires names == [Name(ColumnsOf("a"), "owner_id"), Name(ConstraintsOf("a"), "fk_a_owner")]
    requires ReadsOwner(pg)
    ensures NamesFree(pg, taken, names)
  {
  }

  lemma BareItemIsFree(pg: Server, taken: set<Name>, item: NewTable)
    requires taken == BARE_NAMES && item == NewTable("b", map[]) && ReadsOwner(pg)
    ensures Compiled(item.specs) && Empty(taken, item.name) && TableNamesFree(pg, taken, item)
  {
  }

  lemma NewTableIsFree(pg: Server, taken: set<Name>, item: NewTable)
    requires taken == BARE_NAMES && item == NewTable("b", map[]) && ReadsOwner(pg)
    ensures NamesFree(pg, taken, NewNames(CreateOf(item)))
    ensures forall n :: n in NewNames(CreateOf(item)) ==> n.space != ColumnsOf("a") && n.space != ConstraintsOf("a")
  {
    BareItemIsFree(pg, taken, item);
    FreeCreateIff(pg, taken, item);
    forall n | n in NewNames(CreateOf(item)) ensures n.space != ColumnsOf("a") && n.space != ConstraintsOf("a") {
      NamesOfCreate(item, n);
    }
  }

  lemma DistinctPartsFree<A>(pg: Server, taken: set<Name>, f: A -> seq<Name>, s: seq<A>)
    requires Distinct(s) && forall x :: x in s ==> NamesFree(pg, taken, f(x))
    requires forall x, y :: x in s && y in s && x != y ==> Apart(pg, f(x), f(y))
    ensures NamesFree(pg, taken, FlatMap(f, s))
  {
    FreeFromParts(pg, taken, f, s);
  }

  lemma ElsewhereApart(pg: Server, a: seq<Name>, b: seq<Name>)
    requires forall m, n :: m in a && n in b ==> m.space != n.space
    ensures Apart(pg, a, b) && Apart(pg, b, a)
  {
  }

  lemma TwoChangesFree(pg: Server, taken: set<Name>, f: Change -> seq<Name>, changes: seq<Change>, made: Change,
                       added: Change)
    requires Distinct(changes) && forall c :: c in changes <==> c == made || c == added
    requires NamesFree(pg, taken, f(made)) && NamesFree(pg, taken, f(added))
    requires forall m, n :: m in f(made) && n in f(added) ==> m.space != n.space
    ensures NamesFree(pg, taken, FlatMap(f, changes))
  {
    ElsewhereApart(pg, f(made), f(added));
    DistinctPartsFree(pg, taken, f, changes);
  }

  lemma MadeNames(pg: Server, taken: set<Name>)
    requires taken == BARE_NAMES && ValidRegistry(FORWARD) && ReadsOwner(pg) && Emits(FORWARD, ObjectAdded("b"))
    ensures var names := NamesOfChange(FORWARD)(ObjectAdded("b"));
      && NamesFree(pg, taken, names)
      && forall n :: n in names ==> n.space != ColumnsOf("a") && n.space != ConstraintsOf("a")
  {
    OwnerSpec();
    ObjectNames(FORWARD, "b");
    NewTableIsFree(pg, taken, NewTable("b", map[]));
  }

  lemma AddedNamesFree(pg: Server, taken: set<Name>)
    requires taken == BARE_NAMES && ValidRegistry(FORWARD) && ReadsOwner(pg)
    requires Emits(FORWARD, AddedProperty(FORWARD, "a", "owner"))
    ensures var names := NamesOfChange(FORWARD)(AddedProperty(FORWARD, "a", "owner"));
      && NamesFree(pg, taken, names)
      && forall n :: n in names ==> n.space == ColumnsOf("a") || n.space == ConstraintsOf("a")
  {
    OwnerStatements();
    OwnerNames(FORWARD, AddedProperty(FORWARD, "a", "owner"));
    OwnerIsFree(pg, taken, NamesOfChange(FORWARD)(AddedProperty(FORWARD, "a", "owner")));
  }

  lemma SecondNamesFree(pg: Server, taken: set<Name>)
    requires taken == BARE_NAMES
    requires ValidRegistry(FORWARD) && ReadsOwner(pg) && MigrationScript(BARE, FORWARD).Some? && Ready(FORWARD, BARE)
    ensures NamesFree(pg, taken, ScriptNames(MigrationScript(BARE, FORWARD).value))
  {
    SecondChangesAre();
    ReadyScript(BARE, FORWARD);
    ScriptNamesByChange(FORWARD, Changes(FORWARD, BARE));
    MadeNames(pg, taken);
    AddedNamesFree(pg, taken);
    TwoChangesFree(pg, taken, NamesOfChange(FORWARD), Changes(FORWARD, BARE),
                   ObjectAdded("b"), AddedProperty(FORWARD, "a", "owner"));
  }

  lemma SecondChangesAre()
    ensures Distinct(Changes(FORWARD, BARE))
    ensures forall c :: c in Changes(FORWARD, BARE) <==>
      c == ObjectAdded("b") || c == AddedProperty(FORWARD, "a", "owner")
  {
    ChangesExact(FORWARD, BARE);
    forall c
      ensures IsDifference(FORWARD, BARE, c) <==> c == ObjectAdded("b") || c == AddedProperty(FORWARD, "a", "owner")
    {
      SecondChanges(c);
    }
  }

  lemma SecondIsRead(pg: Server)
    requires ValidRegistry(FORWARD) && ReadsOwner(pg)
    ensures NewNamesRead(pg, BARE, FORWARD) && NoForwardReference(FORWARD, BARE.objects.Keys)
  {
    OwnerSpec();
    forall o, p | NewProperty(FORWARD, BARE, o, p) ensures o == "a" && p == "owner" {
    }
    forall o, p ensures !NamesUnique(BARE, FORWARD, o, p) {
    }
  }

  lemma SecondAsksNothing(pg: Server, db1: Database)
    requires ValidRegistry(FORWARD)
    ensures DataFits(pg, BARE, FORWARD, db1)
  {
    forall o, p ensures !RequiredAddition(FORWARD, BARE, o, p) {
    }
  }

  lemma SecondHop(pg: Server, db1: Database) returns (db2: Database)
    requires ReadsOwner(pg) && HasSchema(db1, BARE) && Based(BARE, db1)
    ensures Hop(pg, BARE, FORWARD, db1, db2)
  {
    OwnerSpec();
    SecondIsEmitted();
    BareSchemaNames(db1);
    SecondNamesFree(pg, Names(db1));
    SecondIsRead(pg);
    SecondAsksNothing(pg, db1);
    MigrationRunsIff(pg, BARE, FORWARD, db1);
    db2 := Run(pg, true, db1, MigrationScript(BARE, FORWARD).value).value;
  }

  /** First an object `a`, then an object `b` and a reference to it from `a`: both migrations run. The direct one is
      emitted and fails on every server, since `a` is created with its reference before `b`. */
  lemma HopsRunDirectFails(pg: Server) returns (db1: Database, db2: Database)
    requires ReadsOwner(pg)
    ensures Based(EMPTY, map[]) && Hop(pg, EMPTY, BARE, map[], db1) && Hop(pg, BARE, FORWARD, db1, db2)
    ensures AllKept(EMPTY, BARE) && AllKept(BARE, FORWARD)
    ensures ValidRegistry(FORWARD) && !DiffPlan(FORWARD, EMPTY).blocked && MigrationScript(EMPTY, FORWARD).Some?
    ensures Run(pg, true, map[], MigrationScript(EMPTY, FORWARD).value) == None
  {
    db1 := FirstHop(pg);
    db2 := SecondHop(pg, db1);
    EmptyIsBased();
    ForwardIsValid();
    FirstMigrationIsBaseline(EMPTY, FORWARD);
    ForwardReferenceFails(pg);
  }
}
