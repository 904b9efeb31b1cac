/** Concrete registries the validator accepts on which an expected property fails. */
module MigrationExamples {
  import opened Ordering
  import opened Values
  import opened Registry
  import opened Database
  import opened SchemaCompiler
  import opened Schema
  import opened MigrationPlan
  import opened MigrationSql
  import opened BackfillSafety
  import opened Refinement
  import opened MigrationRun
  import opened MigrationTheorems
  import opened SchemaRefinement
  import opened ForeignKeyOrder
  import opened SqlLiteral
  import opened SqlNames
  import opened StaticChecks
  import opened NameChecks
  import opened Legibility
  import opened TableNames
  import opened ScriptTheorems

  function OnlyObjects(types: map<string, Option<seq<string>>>, objects: map<string, map<string, Property>>): Registry {
    Registry(types, objects, map[], map[], {}, {}, {}, [])
  }

  const OWNER := Property("Reference<b>", false, false)
  const FORWARD := OnlyObjects(map[], map["a" := map["owner" := OWNER], "b" := map[]])

  lemma ReferencedB()
    ensures IsReference("Reference<b>") && Referenced("Reference<b>") == "b"
  {
    var rest := "Reference<b>"[|"Reference<"|..];
    assert rest == "b>";
    assert rest[..1] == "b";
  }

  lemma ForwardIsValid()
    ensures ValidRegistry(FORWARD)
  {
    ReferencedB();
  }

  /** An object `a` that refers to an object `b`: validated and emitted, and the script fails on every server. */
  lemma ForwardReferenceFails(pg: Server)
    ensures ValidRegistry(FORWARD) && BaselineScript(FORWARD).Some?
    ensures Run(pg, true, map[], BaselineScript(FORWARD).value) == None
  {
    ForwardIsValid();
    ReferencedB();
    assert !StrLe("b", "a");
    ForwardReferenceStops(pg, FORWARD, "a", "owner");
  }

  /** A reference to an object later in the order stops the baseline. */
  lemma ForwardReferenceStops(pg: Server, reg: Registry, o: string, p: string)
    requires ValidRegistry(reg) && BaselineScript(reg).Some?
    requires HasProperty(reg, o, p) && IsReference(reg.objects[o][p].typ)
    requires !StrLe(Referenced(reg.objects[o][p].typ), o)
    ensures Run(pg, true, map[], BaselineScript(reg).value) == None
  {
    RefersForward(reg, o, p);
    BaselineRunsIff(pg, reg);
  }

  lemma RefersForward(reg: Registry, o: string, p: string)
    requires HasProperty(reg, o, p) && IsReference(reg.objects[o][p].typ)
    requires !StrLe(Referenced(reg.objects[o][p].typ), o)
    ensures !NoForwardReference(reg, {})
  {
  }

  // ----- names and lists that cannot be read

  const TEXT := Property("String", false, false)

  function OneProperty(p: string): Registry {
    OnlyObjects(map[], map["a" := map[p := TEXT]])
  }

  lemma OnePropertySpec(p: string)
    requires ValidRegistry(OneProperty(p))
    ensures Spec(OneProperty(p), "a", p) == ColumnSpec(p, Column(Text, false, NotUnique, None), None)
    ensures SpecsOf(OneProperty(p), "a") == map[p := Spec(OneProperty(p), "a", p)]
  {
    BuiltinsAreNotReferences();
  }

  lemma OnePropertyIsValid(p: string)
    ensures ValidRegistry(OneProperty(p)) && AllListed(OneProperty(p)) && NoForwardReference(OneProperty(p), {})
  {
    BuiltinsAreNotReferences();
  }

  /** A registry of one object with one unconstrained column. */
  lemma OneColumnReadIff(pg: Server, reg: Registry, p: string)
    requires ValidRegistry(reg) && reg.objects.Keys == {"a"} && reg.objects["a"].Keys == {p} && SqlName("a") == "a"
    requires Spec(reg, "a", p).name == p && Spec(reg, "a", p).constraint == None
    ensures AllNamesRead(pg, reg) <==> pg.accepts(TableName, "a") && ReadsColumn(pg, p)
  {
    assert HasProperty(reg, "a", p);
    forall o, q | HasProperty(reg, o, q) ensures o == "a" && q == p {
    }
  }

  lemma OneColumnApartIff(pg: Server, reg: Registry, p: string)
    requires ValidRegistry(reg) && reg.objects.Keys == {"a"} && SpecsOf(reg, "a").Keys == {p}
    requires SpecsOf(reg, "a")[p].name == p && SpecsOf(reg, "a")[p].constraint == None
    ensures NamesReadApart(pg, reg) <==>
      pg.fold("id") != pg.fold("version") && pg.fold(p) != pg.fold("id") && pg.fold(p) != pg.fold("version")
  {
  }

  /** An object with one property of type String: the registry is valid whatever the property is called, and the script
      runs exactly if the server reads its name as that of a column, and as another than those of the built-in ones. */
  lemma OnePropertyRunsIff(pg: Server, p: string)
    ensures ValidRegistry(OneProperty(p)) && BaselineScript(OneProperty(p)).Some?
    ensures Run(pg, true, map[], BaselineScript(OneProperty(p)).value).Some? <==>
      && pg.accepts(TableName, "a") && ReadsColumn(pg, p)
      && pg.fold("id") != pg.fold("version") && pg.fold(p) != pg.fold("id") && pg.fold(p) != pg.fold("version")
  {
    OnePropertyIsValid(p);
    OnePropertySpec(p);
    PlainName("a");
    OneColumnReadIff(pg, OneProperty(p), p);
    OneColumnApartIff(pg, OneProperty(p), p);
    BaselineRunsIff(pg, OneProperty(p));
  }

  /** So a column called `order`, on a server that reserves the word, is validated, emitted and refused. */
  lemma ReservedWordFails(pg: Server)
    requires !pg.accepts(ColumnName, "order")
    ensures ValidRegistry(OneProperty("order")) && BaselineScript(OneProperty("order")).Some?
    ensures Run(pg, true, map[], BaselineScript(OneProperty("order")).value) == None
  {
    OnePropertyRunsIff(pg, "order");
  }

  const QUOTED := OnlyObjects(map["T" := Some(["it's"])], map["a" := map["p" := Property("T", false, false)]])

  /** An enumeration with a quote in a value: validated, emitted, and refused by every server. */
  lemma QuotedValueFails(pg: Server)
    ensures ValidRegistry(QUOTED) && BaselineScript(QUOTED).Some?
    ensures Run(pg, true, map[], BaselineScript(QUOTED).value) == None
  {
    assert "T"[0] != "Reference<"[0];
    assert ValidRegistry(QUOTED);
    QuotedValueBreaksList();
    assert HasProperty(QUOTED, "a", "p") && !ReadableType(QUOTED, "T");
    BaselineRunsIff(pg, QUOTED);
  }

  /** Every emittable registry has its schema somewhere. */
  lemma EmittableBase(pg: Server, reg: Registry) returns (db0: Database)
    requires ValidRegistry(reg) && Emittable(reg)
    ensures HasSchema(db0, reg) && Based(reg, db0)
  {
    var empty: Database := map[];
    BaselineAcceptedIff(pg, reg);
    db0 := Run(pg, false, empty, BaselineSql(reg)).value;
    RunKeepsIntegrity(pg, false, empty, BaselineSql(reg));
    ExactMeansMatch(db0, reg);
    IntegrityMatchesColumns(db0);
  }

  lemma IntegrityMatchesColumns(db: Database)
    requires Integrity(db)
    ensures RowsMatchColumns(db)
  {
    forall t | t in db ensures forall row | row in db[t].rows :: row.Keys == db[t].columns.Keys {
      assert TableHolds(db, db[t]);
    }
  }

  /** An empty plan leaves the database as it is. */
  lemma NoChangeMigrates(pg: Server, prev: Registry, cur: Registry, db0: Database)
    requires Start(prev, cur, db0) && Changes(cur, prev) == []
    ensures Migrated(pg, prev, cur, db0, db0)
  {
    InitialState(pg, prev, cur, db0);
    ChangesExact(cur, prev);
    FinalState(pg, prev, cur, db0, [], db0);
  }

  // ----- survivors that change

  const FLAG := Property("Boolean", false, false)
  const PLAIN := OnlyObjects(map[], map["a" := map["flag" := FLAG]])
  const HIDING := OnlyObjects(map["Boolean" := Some(["yes"])], map["a" := map["flag" := FLAG]])
  const FIRM := OnlyObjects(map[], map["a" := map["flag" := FLAG.(required := true)]])

  lemma FlagIsEmittable(reg: Registry, flag: Property)
    requires flag.typ == "Boolean" && reg.objects == map["a" := map["flag" := flag]]
    requires reg.types == map[] || reg.types == map["Boolean" := Some(["yes"])]
    requires reg.behaviors == map[] && reg.transitions == map[]
    ensures ValidRegistry(reg) && Emittable(reg)
  {
    assert "Boolean"[0] != "Reference<"[0];
    assert !IsReference("Boolean");
    assert KnownType(reg, "Boolean");
    assert ValidRegistry(reg);
    PlainValuesAreListed(["yes"]);
    assert Spec(reg, "a", "flag").name == "flag";
    assert SpecsOf(reg, "a").Keys == {"flag"};
    assert NamesApart(SpecsOf(reg, "a"));
  }

  lemma UnchangedIsReady(prev: Registry, cur: Registry)
    requires SameStructure(cur, prev)
    ensures Ready(cur, prev) && Changes(cur, prev) == []
  {
    NoChangesIffSameStructure(cur, prev);
    forall o | o in prev.objects ensures ObjectReady(cur, prev, o) {
    }
  }

  lemma FlagUpgrade(prev: Registry, cur: Registry, before: Property, after: Property)
    requires ValidRegistry(prev) && ValidRegistry(cur) && Emittable(cur)
    requires prev.objects == map["a" := map["flag" := before]] && cur.objects == map["a" := map["flag" := after]]
    requires before.typ == after.typ
    ensures Upgrade(prev, cur) && Changes(cur, prev) == []
  {
    UnchangedIsReady(prev, cur);
  }

  lemma ShiftedTypeDisagrees(pg: Server, prev: Registry, cur: Registry, db0: Database, o: string, p: string)
    requires Start(prev, cur, db0) && Changes(cur, prev) == []
    requires HasProperty(prev, o, p) && HasProperty(cur, o, p) && TypeShifts(prev, cur, cur.objects[o][p].typ)
    ensures Migrated(pg, prev, cur, db0, db0) && !TypesAgree(prev, cur, db0)
  {
    NoChangeMigrates(pg, prev, cur, db0);
    TypesAgreeIff(pg, prev, cur, db0, db0);
  }

  /** A registry that merely adds an enumeration called Boolean: the plan sees no change at all, yet the column type
      of an old Boolean property is no longer the compiled one. */
  lemma HiddenTypeDisagrees(pg: Server) returns (db0: Database)
    ensures Start(PLAIN, HIDING, db0) && DiffPlan(HIDING, PLAIN).changes == []
    ensures Migrated(pg, PLAIN, HIDING, db0, db0) && !TypesAgree(PLAIN, HIDING, db0)
  {
    FlagIsEmittable(PLAIN, FLAG);
    FlagIsEmittable(HIDING, FLAG);
    FlagUpgrade(PLAIN, HIDING, FLAG, FLAG);
    db0 := EmittableBase(pg, PLAIN);
    ShiftedTypeDisagrees(pg, PLAIN, HIDING, db0, "a", "flag");
  }

  lemma ChangedFlagDisagrees(pg: Server, prev: Registry, cur: Registry, db0: Database, o: string, p: string)
    requires Start(prev, cur, db0) && Changes(cur, prev) == []
    requires HasProperty(prev, o, p) && HasProperty(cur, o, p) && !Keeps(prev, cur, o, p)
    ensures Migrated(pg, prev, cur, db0, db0) && !HasSchemaUpToNames(db0, cur)
  {
    NoChangeMigrates(pg, prev, cur, db0);
    SchemaMatchesIff(pg, prev, cur, db0, db0);
  }

  /** A property that is no longer required: the plan sees no change, and the migrated schema is not
      the compiled one. */
  lemma DroppedFlagDisagrees(pg: Server) returns (db0: Database)
    ensures Start(FIRM, PLAIN, db0) && DiffPlan(PLAIN, FIRM).changes == []
    ensures Migrated(pg, FIRM, PLAIN, db0, db0) && !HasSchemaUpToNames(db0, PLAIN)
  {
    FlagIsEmittable(FIRM, FLAG.(required := true));
    FlagIsEmittable(PLAIN, FLAG);
    FlagUpgrade(FIRM, PLAIN, FLAG.(required := true), FLAG);
    db0 := EmittableBase(pg, FIRM);
    ChangedFlagDisagrees(pg, FIRM, PLAIN, db0, "a", "flag");
  }

  // ----- a required property added over data

  const BARE := OnlyObjects(map[], map["a" := map[]])

  function DeclaringCode(backfill: Backfill): Operation {
    Operation(Some(PropertyRef("a", "code")), Some(backfill))
  }

  /** The object `a` with one property, and a migration that declares a backfill for it. */
  function Adding(definition: Property, backfill: Backfill): Registry {
    Registry(map[], map["a" := map["code" := definition]], map[], map[], {}, {}, {},
             [Migration(Some(JString("m")), Some([DeclaringCode(backfill)]))])
  }

  lemma AddingIsValid(definition: Property, backfill: Backfill)
    requires definition.typ in BUILTIN_TYPES && !IsReference(definition.typ)
    ensures ValidRegistry(Adding(definition, backfill)) && ValidRegistry(BARE)
  {
  }

  lemma AddingIsDeclared(definition: Property, backfill: Backfill)
    ensures var cur := Adding(definition, backfill);
      DeclaredMigration(cur.migrations, "a", "code") == Some(cur.migrations[0])
  {
    assert DeclaresBackfill(DeclaringCode(backfill), "a", "code");
  }

  lemma AddingLiteral(definition: Property, backfill: Backfill)
    requires backfill.Backfill? && backfill.value.Some?
    ensures BackfillLiteral(Adding(definition, backfill), "a", "code") ==
      if backfill.strategy == "literal" then LiteralOf(backfill.value.value) else None
  {
    var cur := Adding(definition, backfill);
    var operations := cur.migrations[0].operations.value;
    AddingIsDeclared(definition, backfill);
    assert operations[1..] == [];
    assert PropertyBackfill([], "a", "code") == None;
  }

  lemma AddingNamesApart(definition: Property, backfill: Backfill)
    requires definition.typ in BUILTIN_TYPES && !IsReference(definition.typ)
    requires ValidRegistry(Adding(definition, backfill)) && ValidRegistry(BARE)
    ensures NamesApart(SpecsOf(Adding(definition, backfill), "a")) && NamesApart(SpecsOf(BARE, "a"))
  {
    var cur := Adding(definition, backfill);
    assert Spec(cur, "a", "code").name == "code";
    assert SpecsOf(cur, "a").Keys == {"code"} && SpecsOf(BARE, "a").Keys == {};
  }

  lemma AddingUpgrade(definition: Property, backfill: Backfill)
    requires definition.typ in BUILTIN_TYPES && !IsReference(definition.typ)
    ensures Upgrade(BARE, Adding(definition, backfill)) && Emittable(BARE)
  {
    AddingIsValid(definition, backfill);
    AddingIsDeclared(definition, backfill);
    DeclaredIff(Adding(definition, backfill).migrations, "a", "code");
    AddingNamesApart(definition, backfill);
    assert ObjectReady(Adding(definition, backfill), BARE, "a");
  }

  lemma OnlyCodeIsAdded(definition: Property, backfill: Backfill, o: string, p: string)
    requires definition.required
    ensures RequiredAddition(Adding(definition, backfill), BARE, o, p) <==> o == "a" && p == "code"
  {
  }

  lemma BuiltinsAreNotReferences()
    ensures !IsReference("String") && !IsReference("Boolean")
  {
    assert "String"[0] != "Reference<"[0] && "Boolean"[0] != "Reference<"[0];
  }

  // ----- a database of any size for the bare object

  function BareRow(i: nat): Row {
    map["id" := SqlUuid(i), "version" := SqlInteger(1)]
  }

  function BareRows(n: nat): (rows: seq<Row>)
    ensures |rows| == n && forall i :: 0 <= i < n ==> rows[i] == BareRow(i)
  {
    seq(n, i requires 0 <= i < n => BareRow(i))
  }

  /** With ids and versions filled in, the rows are ones the table really admits. */
  lemma BareRowsHold(db: Database, columns: map<string, Column>, n: nat)
    requires columns == map["id" := ID_COLUMN, "version" := VERSION_COLUMN]
    ensures TableHolds(db, Table(columns, map[], BareRows(n)))
  {
    var t := Table(columns, map[], BareRows(n));
    forall row | row in t.rows
      ensures row.Keys == columns.Keys && Cell(row, "id").SqlUuid? && Cell(row, "version").SqlInteger?
    {
      var i :| 0 <= i < n && t.rows[i] == row;
    }
    forall i, j | 0 <= i < j < n
      ensures Cell(t.rows[i], "id") != Cell(t.rows[j], "id") && Cell(t.rows[i], "id") != SqlNull
    {
    }
  }

  lemma NothingDescribed(columns: map<string, Column>, constraints: map<string, Constraint>)
    requires Describes(map[], columns, constraints)
    ensures columns == map["id" := ID_COLUMN, "version" := VERSION_COLUMN] && constraints == map[]
  {
    assert forall c :: !NamesColumn(map[], c);
    assert forall k :: !NamesConstraint(map[], k);
  }

  lemma BareTable()
    requires ValidRegistry(BARE) && Emittable(BARE)
    ensures TableOf(BARE, "a").columns == map["id" := ID_COLUMN, "version" := VERSION_COLUMN]
    ensures TableOf(BARE, "a").constraints == map[]
  {
    TableOfIsDescribed(BARE, "a");
    assert SpecsOf(BARE, "a") == map[];
    NothingDescribed(TableOf(BARE, "a").columns, TableOf(BARE, "a").constraints);
  }

  function BareDatabase(n: nat): Database {
    map["a" := Table(map["id" := ID_COLUMN, "version" := VERSION_COLUMN], map[], BareRows(n))]
  }

  lemma BareDatabaseSchema(n: nat)
    requires ValidRegistry(BARE) && Emittable(BARE)
    ensures HasSchema(BareDatabase(n), BARE)
  {
    PlainName("a");
    BareTable();
    assert TableNamed(BARE, "a");
  }

  lemma BareDatabaseHolds(n: nat)
    ensures Integrity(BareDatabase(n))
  {
    BareRowsHold(BareDatabase(n), BareDatabase(n)["a"].columns, n);
  }

  lemma BareStart(cur: Registry, n: nat)
    requires Upgrade(BARE, cur) && Emittable(BARE)
    ensures Start(BARE, cur, BareDatabase(n)) && HasSchema(BareDatabase(n), BARE) && Integrity(BareDatabase(n))
  {
    BareDatabaseSchema(n);
    BareDatabaseHolds(n);
    ExactMeansMatch(BareDatabase(n), BARE);
    IntegrityMatchesColumns(BareDatabase(n));
  }

  lemma AddingRaisesIff(definition: Property, backfill: Backfill)
    requires definition.typ in BUILTIN_TYPES && !IsReference(definition.typ) && definition.required
    ensures var cur := Adding(definition, backfill);
      && ValidRegistry(cur) && !DiffPlan(cur, BARE).blocked
      && (MigrationScript(BARE, cur) == None <==> BackfillLiteral(cur, "a", "code") == None)
  {
    var cur := Adding(definition, backfill);
    AddingUpgrade(definition, backfill);
    BlockedIffNotReady(cur, BARE);
    forall o, p | PropertyRaises(cur, BARE, o, p) ensures o == "a" && p == "code" {
      OnlyCodeRaises(definition, backfill, o, p);
    }
    OnlyCodeRaises(definition, backfill, "a", "code");
    OnlyPropertyRaises(cur, BARE, "a", "code");
  }

  lemma OnlyCodeRaises(definition: Property, backfill: Backfill, o: string, p: string)
    requires definition.typ in BUILTIN_TYPES && !IsReference(definition.typ) && definition.required
    ensures PropertyRaises(Adding(definition, backfill), BARE, o, p) <==>
      o == "a" && p == "code" && BackfillLiteral(Adding(definition, backfill), o, p) == None
  {
    OnlyCodeIsAdded(definition, backfill, o, p);
  }

  lemma OnlyPropertyRaises(cur: Registry, prev: Registry, o: string, p: string)
    requires ValidRegistry(cur) && !DiffPlan(cur, prev).blocked
    requires forall a, q :: PropertyRaises(cur, prev, a, q) ==> a == o && q == p
    ensures MigrationScript(prev, cur) == None <==> PropertyRaises(cur, prev, o, p)
  {
    EmissionRaisesIff(cur, prev);
  }

  lemma AddingIsEmitted(definition: Property, value: Json)
    requires definition.typ in BUILTIN_TYPES && !IsReference(definition.typ) && definition.required
    requires LiteralOf(value).Some?
    ensures var cur := Adding(definition, Backfill("literal", Some(value)));
      Upgrade(BARE, cur) && Emittable(BARE) && !DiffPlan(cur, BARE).blocked && MigrationScript(BARE, cur).Some?
  {
    var backfill := Backfill("literal", Some(value));
    var cur := Adding(definition, backfill);
    AddingUpgrade(definition, backfill);
    AddingLiteral(definition, backfill);
    AddingRaisesIff(definition, backfill);
  }

  lemma OnlyAdditionFits(pg: Server, prev: Registry, cur: Registry, db0: Database, o: string, p: string)
    requires Start(prev, cur, db0) && RequiredAddition(cur, prev, o, p)
    requires forall a, q :: RequiredAddition(cur, prev, a, q) ==> a == o && q == p
    ensures DataFits(pg, prev, cur, db0) <==> Fits(pg, db0, SqlName(o), Spec(cur, o, p), BackfillFor(cur, o, p))
  {
  }

  lemma AddingFitsIff(pg: Server, definition: Property, value: Json, db0: Database)
    requires definition.required && LiteralOf(value).Some?
    requires Start(BARE, Adding(definition, Backfill("literal", Some(value))), db0)
    ensures var cur := Adding(definition, Backfill("literal", Some(value)));
      && "a" in db0
      && (DataFits(pg, BARE, cur, db0) <==> Fits(pg, db0, "a", Spec(cur, "a", "code"), LiteralOf(value)))
  {
    var backfill := Backfill("literal", Some(value));
    var cur := Adding(definition, backfill);
    AddingLiteral(definition, backfill);
    PlainName("a");
    forall o, p ensures RequiredAddition(cur, BARE, o, p) <==> o == "a" && p == "code" {
      OnlyCodeIsAdded(definition, backfill, o, p);
    }
    OnlyAdditionFits(pg, BARE, cur, db0, "a", "code");
  }

  /** When the added property has a literal backfill, the migration of an admitted script depends on its fit alone. */
  lemma AddingRunsIff(pg: Server, definition: Property, value: Json, n: nat)
    requires definition.typ in BUILTIN_TYPES && !IsReference(definition.typ) && definition.required
    requires LiteralOf(value).Some?
    ensures var cur, db0 := Adding(definition, Backfill("literal", Some(value))), BareDatabase(n);
      && ValidRegistry(cur) && !DiffPlan(cur, BARE).blocked
      && Based(BARE, db0) && HasSchema(db0, BARE) && Integrity(db0)
      && MigrationScript(BARE, cur).Some?
      && (Run(pg, true, db0, MigrationScript(BARE, cur).value).Some? <==>
            Admitted(pg, BARE, cur, db0) && Fits(pg, db0, "a", Spec(cur, "a", "code"), LiteralOf(value)))
  {
    var cur := Adding(definition, Backfill("literal", Some(value)));
    AddingIsEmitted(definition, value);
    BareStart(cur, n);
    MigrationRunsIff(pg, BARE, cur, BareDatabase(n));
    AddingFitsIff(pg, definition, value, BareDatabase(n));
  }

  const CODE := Property("String", true, true)
  const CODED := Adding(CODE, Backfill("literal", Some(JString("x"))))

  const CODE_SPEC := ColumnSpec("code", Column(Text, true, InlineUnique, None), None)

  lemma CodeSpec()
    ensures ValidRegistry(CODED) && Spec(CODED, "a", "code") == CODE_SPEC
    ensures BackfillFor(CODED, "a", "code") == Some(TextLiteral("x"))
  {
    BuiltinsAreNotReferences();
    AddingIsValid(CODE, Backfill("literal", Some(JString("x"))));
    AddingLiteral(CODE, Backfill("literal", Some(JString("x"))));
  }

  lemma CodeFitsIff(pg: Server, db0: Database)
    requires ValidRegistry(CODED) && "a" in db0
    ensures Fits(pg, db0, "a", Spec(CODED, "a", "code"), Some(TextLiteral("x"))) <==> |db0["a"].rows| <= 1
  {
    CodeSpec();
    assert '\0' !in "x";
  }

  lemma PlacesDiffer<T>(s: seq<T>, i: nat, j: nat)
    requires Distinct(s) && i < j < |s|
    ensures s[i] != s[j]
  {
  }

  lemma OnlyMember<T>(s: seq<T>, x: T)
    requires Distinct(s) && forall y :: y in s <==> y == x
    ensures s == [x]
  {
    assert x in s;
    forall i | 0 <= i < |s| ensures s[i] == x {
      assert s[i] in s;
    }
    if |s| > 1 {
      PlacesDiffer(s, 0, 1);
    }
  }

  lemma OnlyChange(cur: Registry, prev: Registry, o: string, p: string)
    requires o in cur.objects && p in cur.objects[o] && IsDifference(cur, prev, AddedProperty(cur, o, p))
    requires forall c :: IsDifference(cur, prev, c) ==> c == AddedProperty(cur, o, p)
    ensures Changes(cur, prev) == [AddedProperty(cur, o, p)]
  {
    ChangesExact(cur, prev);
    OnlyMember(Changes(cur, prev), AddedProperty(cur, o, p));
  }

  lemma AddingOnlyChange(definition: Property, backfill: Backfill)
    ensures var cur := Adding(definition, backfill); Changes(cur, BARE) == [AddedProperty(cur, "a", "code")]
  {
    var cur := Adding(definition, backfill);
    forall c | IsDifference(cur, BARE, c) ensures c == AddedProperty(cur, "a", "code") {
    }
    assert IsDifference(cur, BARE, AddedProperty(cur, "a", "code"));
    OnlyChange(cur, BARE, "a", "code");
  }

  /** A script for one added property is its block. */
  lemma OneBlock(prev: Registry, cur: Registry, o: string, p: string)
    requires ValidRegistry(cur) && Ready(cur, prev) && Adds(prev, cur, o, p)
    requires Changes(cur, prev) == [AddedProperty(cur, o, p)]
    ensures MigrationScript(prev, cur) == Some(Block(SqlName(o), Spec(cur, o, p), BackfillFor(cur, o, p)))
  {
    var change := AddedProperty(cur, o, p);
    ReadyScript(prev, cur);
    StatementsAreBlock(prev, cur, o, p);
    OneChange(cur, change);
  }

  lemma OneChange(cur: Registry, change: Change)
    requires ValidRegistry(cur) && RefersTo(cur, change)
    ensures AllStatements(cur, [change]) == ChangeStatements(cur, change)
  {
    assert [change][..0] == [];
    assert AllStatements(cur, []) == Some([]);
    if ChangeStatements(cur, change).Some? {
      assert [] + ChangeStatements(cur, change).value == ChangeStatements(cur, change).value;
    }
  }

  lemma CodeScript()
    requires ValidRegistry(CODED)
    ensures MigrationScript(BARE, CODED) == Some(Block("a", CODE_SPEC, Some(TextLiteral("x"))))
  {
    var backfill := Backfill("literal", Some(JString("x")));
    BuiltinsAreNotReferences();
    CodeSpec();
    PlainName("a");
    AddingUpgrade(CODE, backfill);
    AddingIsDeclared(CODE, backfill);
    AddingOnlyChange(CODE, backfill);
    OneBlock(BARE, CODED, "a", "code");
  }

  lemma UniqueBlockNames(t: string, spec: ColumnSpec, literal: Literal)
    requires spec.column.unique == InlineUnique && spec.constraint == None
    ensures ScriptNames(Block(t, spec, Some(literal))) ==
      [Name(ColumnsOf(t), spec.name)] + UniqueNames(t, NamedUnique(UniqueName(t, spec.name)))
  {
    var add := AddColumn(t, spec.name, BareColumn(spec.column));
    var fill, firm := UpdateWhereNull(t, spec.name, literal), SetNotNull(t, spec.name);
    var unique := AddUnique(t, UniqueName(t, spec.name), spec.name);
    assert Block(t, spec, Some(literal)) == [add] + ([fill] + ([firm] + ([unique] + [])));
    ScriptNamesFront(add, [fill] + ([firm] + ([unique] + [])));
    ScriptNamesFront(fill, [firm] + ([unique] + []));
    ScriptNamesFront(firm, [unique] + []);
    ScriptNamesFront(unique, []);
  }

  lemma NamesOfScript(script: seq<Statement>)
    requires script == Block("a", CODE_SPEC, Some(TextLiteral("x")))
    ensures ScriptNames(script) ==
      [Name(ColumnsOf("a"), "code"), Name(Relations, "uq_a_code"), Name(ConstraintsOf("a"), "uq_a_code")]
  {
    UniqueBlockNames("a", CODE_SPEC, TextLiteral("x"));
    assert UniqueName("a", "code") == "uq_a_code";
  }

  lemma CodeNames()
    requires ValidRegistry(CODED)
    ensures MigrationScript(BARE, CODED).Some?
    ensures ScriptNames(MigrationScript(BARE, CODED).value) ==
      [Name(ColumnsOf("a"), "code"), Name(Relations, "uq_a_code"), Name(ConstraintsOf("a"), "uq_a_code")]
  {
    CodeScript();
    NamesOfScript(MigrationScript(BARE, CODED).value);
  }

  const BARE_NAMES := {Name(Relations, "a"), Name(ColumnsOf("a"), "id"), Name(ColumnsOf("a"), "version")}

  lemma BareTableNames(db: Database)
    requires db.Keys == {"a"} && db["a"].constraints == map[]
    requires db["a"].columns == map["id" := ID_COLUMN, "version" := VERSION_COLUMN]
    ensures Names(db) == BARE_NAMES
  {
    assert db["a"].columns.Keys == {"id", "version"};
    assert Name(Relations, "a") in Names(db);
    assert "id" in db["a"].columns && "version" in db["a"].columns;
    assert Name(ColumnsOf("a"), "id") in Names(db) && Name(ColumnsOf("a"), "version") in Names(db);
  }

  /** The server reads `a`, `code` and `uq_a_code` as names, and as others than those already there. */
  predicate ReadsCode(pg: Server) {
    && pg.accepts(TableName, "a") && pg.accepts(ColumnName, "code") && pg.accepts(ConstraintName, "uq_a_code")
    && pg.fold("code") != pg.fold("id") && pg.fold("code") != pg.fold("version") && pg.fold("uq_a_code") != pg.fold("a")
  }

  lemma ThreeNamesFreeIff(pg: Server, taken: set<Name>, names: seq<Name>)
    requires taken == BARE_NAMES
    requires names ==
      [Name(ColumnsOf("a"), "code"), Name(Relations, "uq_a_code"), Name(ConstraintsOf("a"), "uq_a_code")]
    ensures NamesFree(pg, taken, names) <==>
      pg.fold("code") != pg.fold("id") && pg.fold("code") != pg.fold("version") && pg.fold("uq_a_code") != pg.fold("a")
  {
    if NamesFree(pg, taken, names) {
      assert !SameName(pg, Name(ColumnsOf("a"), "id"), names[0]);
      assert !SameName(pg, Name(ColumnsOf("a"), "version"), names[0]);
      assert !SameName(pg, Name(Relations, "a"), names[1]);
    }
  }

  lemma CodeReadIff(pg: Server)
    requires ValidRegistry(CODED)
    ensures NewNamesRead(pg, BARE, CODED) <==>
      pg.accepts(TableName, "a") && pg.accepts(ColumnName, "code") && pg.accepts(ConstraintName, "uq_a_code")
  {
    CodeSpec();
    CodeIsNamed();
    PlainName("a");
    assert UniqueName("a", "code") == "uq_a_code";
    assert NewProperty(CODED, BARE, "a", "code");
    forall o, p | NewProperty(CODED, BARE, o, p) ensures o == "a" && p == "code" {
    }
    forall o, p | NamesUnique(BARE, CODED, o, p) ensures o == "a" && p == "code" {
    }
  }

  lemma CodeAdmittedIff(pg: Server, n: nat)
    requires ValidRegistry(CODED) && MigrationScript(BARE, CODED).Some?
    ensures Admitted(pg, BARE, CODED, BareDatabase(n)) <==> ReadsCode(pg)
  {
    CodeReadIff(pg);
    CodeNames();
    BareTableNames(BareDatabase(n));
    ThreeNamesFreeIff(pg, Names(BareDatabase(n)), ScriptNames(MigrationScript(BARE, CODED).value));
    assert NoForwardReference(CODED, BARE.objects.Keys);
  }

  /** One unique literal fills at most one row: over a database of any size that meets all its constraints, the
      migration that adds `code` runs exactly if the server reads its names and the table has no more. */
  lemma CodeIsAddedIff(pg: Server, n: nat)
    ensures ValidRegistry(CODED) && Based(BARE, BareDatabase(n)) && Integrity(BareDatabase(n))
    ensures HasSchema(BareDatabase(n), BARE) && |BareDatabase(n)["a"].rows| == n
    ensures !DiffPlan(CODED, BARE).blocked && MigrationScript(BARE, CODED).Some?
    ensures Run(pg, true, BareDatabase(n), MigrationScript(BARE, CODED).value).Some? <==> ReadsCode(pg) && n <= 1
  {
    BuiltinsAreNotReferences();
    AddingRunsIff(pg, CODE, JString("x"), n);
    CodeFitsIff(pg, BareDatabase(n));
    CodeAdmittedIff(pg, n);
  }

  lemma CodeIsNamed()
    ensures AllKept(BARE, CODED) && NamesUnique(BARE, CODED, "a", "code")
  {
    BuiltinsAreNotReferences();
  }

  /** And then its UNIQUE has a name that the compiled schema does not give it. */
  lemma CodedSchemaIsNotExact(pg: Server, db0: Database, db: Database)
    requires ValidRegistry(BARE) && ValidRegistry(CODED) && HasSchema(db0, BARE) && Based(BARE, db0)
    requires MigrationScript(BARE, CODED).Some? && Run(pg, true, db0, MigrationScript(BARE, CODED).value) == Some(db)
    ensures HasSchemaUpToNames(db, CODED) && !HasSchema(db, CODED)
  {
    CodeIsNamed();
    AddingRaisesIff(CODE, Backfill("literal", Some(JString("x"))));
    SchemaOfNamed(pg, BARE, CODED, db0, db, "a", "code");
  }

  lemma SchemaOfNamed(pg: Server, prev: Registry, cur: Registry, db0: Database, db: Database, o: string, p: string)
    requires ValidRegistry(cur) && Based(prev, db0) && HasSchema(db0, prev)
    requires !DiffPlan(cur, prev).blocked && MigrationScript(prev, cur).Some?
    requires Run(pg, true, db0, MigrationScript(prev, cur).value) == Some(db)
    requires AllKept(prev, cur) && NamesUnique(prev, cur, o, p)
    ensures HasSchemaUpToNames(db, cur) && !HasSchema(db, cur)
  {
    MigrationRunsIff(pg, prev, cur, db0);
    SchemaMatchesIff(pg, prev, cur, db0, db);
    SchemaExactIff(pg, prev, cur, db0, db);
  }

  const SWITCH := Property("Boolean", true, false)
  const SWITCHED := Adding(SWITCH, Backfill("literal", Some(JString("not a boolean"))))

  lemma NotABoolean()
    ensures ReadBool("not a boolean") == None
  {
    var s := "not a boolean";
    assert TrimLeft(s) == s && TrimRight(s) == s;
  }

  lemma SwitchNeverFits(pg: Server, db0: Database)
    requires ValidRegistry(SWITCHED) && "a" in db0
    ensures !Fits(pg, db0, "a", Spec(SWITCHED, "a", "code"), Some(TextLiteral("not a boolean")))
  {
    BuiltinsAreNotReferences();
    NotABoolean();
    assert Spec(SWITCHED, "a", "code").column.typ == BooleanType;
  }

  /** A text that is no boolean, declared for a Boolean property: the registry validates, the plan is ready and the
      script is emitted, but it fails over any rows or none. */
  lemma IllTypedLiteralFails(pg: Server, n: nat)
    ensures ValidRegistry(SWITCHED) && Based(BARE, BareDatabase(n)) && Integrity(BareDatabase(n))
    ensures |BareDatabase(n)["a"].rows| == n && !DiffPlan(SWITCHED, BARE).blocked
    ensures MigrationScript(BARE, SWITCHED).Some?
    ensures Run(pg, true, BareDatabase(n), MigrationScript(BARE, SWITCHED).value) == None
  {
    BuiltinsAreNotReferences();
    AddingRunsIff(pg, SWITCH, JString("not a boolean"), n);
    SwitchNeverFits(pg, BareDatabase(n));
  }

  /** A backfill that is no literal: the plan is ready, and emission raises. */
  lemma OtherBackfillRaises()
    ensures var cur := Adding(CODE, Backfill("computed", Some(JString("x"))));
      ValidRegistry(cur) && !DiffPlan(cur, BARE).blocked && MigrationScript(BARE, cur) == None
  {
    var backfill := Backfill("computed", Some(JString("x")));
    var cur := Adding(CODE, backfill);
    BuiltinsAreNotReferences();
    AddingLiteral(CODE, backfill);
    assert "computed" != "literal";
    AddingRaisesIff(CODE, backfill);
  }

  // ----- types and migrations that lack a member

  const PRICED := OnlyObjects(map["Money" := None], map["a" := map["price" := Property("Money", false, false)]])

  lemma PricedIsValid()
    ensures ValidRegistry(PRICED) && !IsReference("Money") && Ready(PRICED, BARE)
  {
    assert "Money"[0] != "Reference<"[0];
    assert ObjectReady(PRICED, BARE, "a");
  }

  lemma PricedPlan()
    ensures !DiffPlan(PRICED, BARE).blocked && !PlanRaises(PRICED, BARE)
  {
    PricedIsValid();
    BlockedIffNotReady(PRICED, BARE);
    NoMigrationsPlan(PRICED, BARE);
  }

  lemma PricedRaises()
    ensures PropertyRaises(PRICED, BARE, "a", "price") && !AllListed(PRICED)
  {
    PricedIsValid();
    UnlistedProperty(PRICED, "a", "price");
  }

  lemma UnlistedProperty(reg: Registry, o: string, p: string)
    requires HasProperty(reg, o, p) && !ListsValues(reg, reg.objects[o][p].typ)
    ensures !AllListed(reg)
  {
    assert !ObjectLists(reg, o);
  }

  /** A type that lists no values, and a new optional property of it: validated and planned, and emission raises, as
      that of the baseline does. */
  lemma UnlistedTypeRaises()
    ensures ValidRegistry(PRICED) && !DiffPlan(PRICED, BARE).blocked && !PlanRaises(PRICED, BARE)
    ensures MigrationScript(BARE, PRICED) == None && BaselineScript(PRICED) == None
  {
    PricedIsValid();
    PricedPlan();
    PricedRaises();
    RaisingStops(PRICED, BARE, "a", "price");
  }

  lemma RaisingStops(cur: Registry, prev: Registry, o: string, p: string)
    requires ValidRegistry(cur) && !DiffPlan(cur, prev).blocked && PropertyRaises(cur, prev, o, p)
    ensures MigrationScript(prev, cur) == None
  {
    EmissionRaisesIff(cur, prev);
  }

  lemma NoMigrationsPlan(cur: Registry, prev: Registry)
    requires cur.migrations == []
    ensures !PlanRaises(cur, prev)
  {
  }

  /** The backfill of `code` in a migration without an identifier. */
  function Nameless(definition: Property, backfill: Backfill): Registry {
    Adding(definition, backfill).(migrations := [Migration(None, Some([DeclaringCode(backfill)]))])
  }

  lemma NamelessIsFound(definition: Property, backfill: Backfill)
    ensures var cur := Nameless(definition, backfill);
      DeclaredMigration(cur.migrations, "a", "code") == Some(Migration(None, Some([DeclaringCode(backfill)])))
  {
    assert DeclaresBackfill(DeclaringCode(backfill), "a", "code");
  }

  lemma NamelessIsReady(definition: Property, backfill: Backfill)
    ensures Ready(Nameless(definition, backfill), BARE)
  {
    NamelessIsFound(definition, backfill);
    DeclaredIff(Nameless(definition, backfill).migrations, "a", "code");
    assert ObjectReady(Nameless(definition, backfill), BARE, "a");
  }

  lemma LookupRaisesPlan(cur: Registry, prev: Registry, o: string, p: string)
    requires o in prev.objects && o in cur.objects && p in cur.objects[o] && p !in prev.objects[o]
    requires LookupRaises(cur, o, p)
    ensures PlanRaises(cur, prev)
  {
    assert ObjectRaises(cur, prev, o);
  }

  /** It is validated, a required addition would be ready and an optional one needs no migration,
      and planning raises. */
  lemma MissingIdRaises(definition: Property, backfill: Backfill)
    requires definition.typ in BUILTIN_TYPES && !IsReference(definition.typ)
    ensures var cur := Nameless(definition, backfill);
      ValidRegistry(cur) && !DiffPlan(cur, BARE).blocked && PlanRaises(cur, BARE)
  {
    NamelessIsFound(definition, backfill);
    NamelessIsReady(definition, backfill);
    BlockedIffNotReady(Nameless(definition, backfill), BARE);
    LookupRaisesPlan(Nameless(definition, backfill), BARE, "a", "code");
  }

  // ----- names that meet

  const NARROW := OnlyObjects(map[], map["a" := map[], "a_b" := map[]])

  function Declaring(o: string, p: string): Operation {
    Operation(Some(PropertyRef(o, p)), Some(Backfill("literal", Some(JString("x")))))
  }

  const MEETING := Registry(
    map[], map["a" := map["b_c" := CODE], "a_b" := map["c" := CODE]], map[], map[], {}, {}, {},
    [Migration(Some(JString("m")), Some([Declaring("a", "b_c"), Declaring("a_b", "c")]))])

  lemma MeetingIsValid()
    ensures ValidRegistry(NARROW) && ValidRegistry(MEETING)
    ensures Spec(MEETING, "a", "b_c").name == "b_c" && Spec(MEETING, "a_b", "c").name == "c"
    ensures NamesUnique(NARROW, MEETING, "a", "b_c") && NamesUnique(NARROW, MEETING, "a_b", "c")
  {
    BuiltinsAreNotReferences();
  }

  lemma DeclaringLiteral(migration: Migration, o: string, p: string)
    requires migration == MEETING.migrations[0] && ((o == "a" && p == "b_c") || (o == "a_b" && p == "c"))
    ensures DeclaredMigration([migration], o, p) == Some(migration)
    ensures PropertyBackfill(migration.operations.value, o, p) == Declaring(o, p).backfill
  {
    var first, second := Declaring("a", "b_c"), Declaring("a_b", "c");
    var operations := migration.operations.value;
    assert operations[0] == first && operations[1..] == [second];
    assert DeclaresBackfill(first, "a", "b_c") && DeclaresBackfill(second, "a_b", "c");
    assert LiteralFor(first, "a", "b_c") && LiteralFor(second, "a_b", "c") && "a" != "a_b";
    assert Declares([second], "a_b", "c") == Some(true) && PropertyBackfill([second], "a_b", "c") == second.backfill;
  }

  lemma MeetingIsEmitted()
    requires ValidRegistry(MEETING)
    ensures !DiffPlan(MEETING, NARROW).blocked && MigrationScript(NARROW, MEETING).Some?
  {
    MeetingLiterals();
    MeetingIsReady();
    BlockedIffNotReady(MEETING, NARROW);
    forall o, p ensures !PropertyRaises(MEETING, NARROW, o, p) {
      MeetingNeverRaises(o, p);
    }
    NothingStops(MEETING, NARROW);
  }

  lemma MeetingLiterals()
    ensures DeclaredMigration(MEETING.migrations, "a", "b_c").Some?
    ensures DeclaredMigration(MEETING.migrations, "a_b", "c").Some?
    ensures BackfillLiteral(MEETING, "a", "b_c").Some? && BackfillLiteral(MEETING, "a_b", "c").Some?
  {
    assert MEETING.migrations == [MEETING.migrations[0]];
    DeclaringLiteral(MEETING.migrations[0], "a", "b_c");
    DeclaringLiteral(MEETING.migrations[0], "a_b", "c");
  }

  lemma MeetingIsReady()
    requires DeclaredMigration(MEETING.migrations, "a", "b_c").Some?
    requires DeclaredMigration(MEETING.migrations, "a_b", "c").Some?
    ensures Ready(MEETING, NARROW)
  {
    DeclaredIff(MEETING.migrations, "a", "b_c");
    DeclaredIff(MEETING.migrations, "a_b", "c");
    assert ObjectReady(MEETING, NARROW, "a") && ObjectReady(MEETING, NARROW, "a_b");
  }

  lemma MeetingNeverRaises(o: string, p: string)
    requires BackfillLiteral(MEETING, "a", "b_c").Some? && BackfillLiteral(MEETING, "a_b", "c").Some?
    ensures !PropertyRaises(MEETING, NARROW, o, p)
  {
    BuiltinsAreNotReferences();
    assert HasProperty(MEETING, o, p) ==> (o == "a" && p == "b_c") || (o == "a_b" && p == "c");
  }

  lemma NothingStops(cur: Registry, prev: Registry)
    requires ValidRegistry(cur) && !DiffPlan(cur, prev).blocked && forall o, p :: !PropertyRaises(cur, prev, o, p)
    ensures MigrationScript(prev, cur).Some?
  {
    EmissionRaisesIff(cur, prev);
  }

  lemma MeetingUniqueNames()
    ensures UniqueName(SqlName("a"), "b_c") == UniqueName(SqlName("a_b"), "c")
  {
    PlainName("a");
    PlainName("a_b");
    assert "uq_" + "a" + "_" + "b_c" == "uq_a_b_c" == "uq_" + "a_b" + "_" + "c";
  }

  /** There are databases to migrate. */
  lemma NarrowHasBase(pg: Server) returns (db0: Database)
    ensures Based(NARROW, db0)
  {
    MeetingIsValid();
    NarrowIsEmittable();
    db0 := EmittableBase(pg, NARROW);
  }

  lemma NarrowIsEmittable()
    requires ValidRegistry(NARROW)
    ensures Emittable(NARROW)
  {
    PlainName("a");
    PlainName("a_b");
    assert SpecsOf(NARROW, "a") == map[] && SpecsOf(NARROW, "a_b") == map[];
  }

  /** Required unique properties `b_c` of `a` and `c` of `a_b`, with good backfills: validated, planned and emitted, and
      the migration fails on every server over any data. */
  lemma MeetingNamesFail(pg: Server, db0: Database)
    requires Based(NARROW, db0)
    ensures ValidRegistry(MEETING) && !DiffPlan(MEETING, NARROW).blocked && MigrationScript(NARROW, MEETING).Some?
    ensures Run(pg, true, db0, MigrationScript(NARROW, MEETING).value) == None
  {
    MeetingIsValid();
    MeetingIsEmitted();
    MeetingUniqueNames();
    UniqueNamesMeet(pg, NARROW, MEETING, db0, "a", "b_c", "a_b", "c");
  }
}
