/** The state of the database after each change of a ready migration, and the run as a whole. */
module MigrationRun {
  import opened Ordering
  import opened Values
  import opened Registry
  import opened Database
  import opened SchemaCompiler
  import opened Schema
  import opened MigrationPlan
  import opened MigrationSql
  import opened BackfillSafety
  import opened Refinement

  /** Rows have exactly the cells of their table's columns. */
  predicate RowsMatchColumns(db: Database) {
    forall t | t in db :: forall row | row in db[t].rows :: row.Keys == db[t].columns.Keys
  }

  /** A database with the schema of the previous registry and any data. UNIQUE constraints may bear names, so that
      the database may itself be the result of a migration. */
  ghost predicate Start(prev: Registry, cur: Registry, db0: Database) {
    Upgrade(prev, cur) && HasSchemaUpToNames(db0, prev) && RowsMatchColumns(db0)
  }

  function NewValues(pg: Server, prev: Registry, cur: Registry, o: string): (r: map<string, SqlValue>)
    requires ValidRegistry(cur) && o in prev.objects && o in cur.objects
    ensures forall p :: p in r <==> p in cur.objects[o] && p !in prev.objects[o]
    ensures forall p :: p in r ==> r[p] == FilledValue(pg, Spec(cur, o, p), BackfillFor(cur, o, p))
  {
    map p | p in cur.objects[o] && p !in prev.objects[o] :: FilledValue(pg, Spec(cur, o, p), BackfillFor(cur, o, p))
  }

  ghost function DoneProperties(prev: Registry, cur: Registry, o: string, done: seq<Change>): set<string> {
    if o in prev.objects && o in cur.objects
    then set p | p in cur.objects[o] && p !in prev.objects[o] && AddedProperty(cur, o, p) in done
    else {}
  }

  ghost predicate KeptTableAt(pg: Server, prev: Registry, cur: Registry, o: string, added: set<string>, before: Table,
                              after: Table) {
    && ValidRegistry(prev) && ValidRegistry(cur) && o in prev.objects && o in cur.objects
    && TableAt(Target(prev, cur, o, before), prev.objects[o].Keys, added, NewValues(pg, prev, cur, o), before, after)
  }

  ghost predicate CreatedIn(cur: Registry, done: seq<Change>, t: string) {
    exists o :: o in cur.objects && ObjectAdded(o) in done && SqlName(o) == t
  }

  type TableRelation = (string, set<string>, Table, Table) -> bool

  /** `KeptTableAt` as a relation between an object, its added properties, and its table before and after. */
  ghost function KeptRelation(pg: Server, prev: Registry, cur: Registry): TableRelation {
    (o, added, before, after) => KeptTableAt(pg, prev, cur, o, added, before, after)
  }

  ghost predicate KeptTables(kept: TableRelation, prev: Registry, cur: Registry, db0: Database, done: seq<Change>,
                             db: Database) {
    forall o :: o in prev.objects ==>
      && SqlName(o) in db0 && SqlName(o) in db
      && kept(o, DoneProperties(prev, cur, o, done), db0[SqlName(o)], db[SqlName(o)])
  }

  ghost predicate IsTableOf(cur: Registry, o: string, t: Table) {
    ValidRegistry(cur) && o in cur.objects && t == TableOf(cur, o)
  }

  ghost predicate CreatedTables(cur: Registry, done: seq<Change>, db: Database) {
    forall o :: o in cur.objects && ObjectAdded(o) in done ==> SqlName(o) in db && IsTableOf(cur, o, db[SqlName(o)])
  }

  ghost predicate NoOtherTables(prev: Registry, cur: Registry, done: seq<Change>, db: Database) {
    forall t :: t in db ==> TableNamed(prev, t) || CreatedIn(cur, done, t)
  }

  /** The same with any relation for the kept tables. */
  ghost predicate StateBy(kept: TableRelation, prev: Registry, cur: Registry, db0: Database, done: seq<Change>,
                          db: Database) {
    && (forall c :: c in done ==> IsDifference(cur, prev, c))
    && KeptTables(kept, prev, cur, db0, done, db)
    && CreatedTables(cur, done, db)
    && NoOtherTables(prev, cur, done, db)
  }

  /** After the changes `done`, in whatever order. */
  ghost predicate StateAt(pg: Server, prev: Registry, cur: Registry, db0: Database, done: seq<Change>, db: Database) {
    StateBy(KeptRelation(pg, prev, cur), prev, cur, db0, done, db)
  }

  // ----- the beginning

  lemma PreviousNamesApart(prev: Registry, cur: Registry, o: string)
    requires Upgrade(prev, cur) && o in prev.objects && o in cur.objects
    ensures NamesApart(SpecsOf(prev, o))
  {
    var specs, current := SpecsOf(prev, o), SpecsOf(cur, o);
    assert ObjectReady(cur, prev, o);
    forall p | p in specs ensures p in current && specs[p].name == current[p].name {
      SameTypeSameNames(prev, cur, o, p);
    }
  }

  lemma PropertiesPresent(specs: map<string, ColumnSpec>, before: Table, compiled: Table)
    requires Describes(specs, compiled.columns, compiled.constraints) && SameUpToNames(before, compiled)
    ensures forall p :: p in specs ==> specs[p].name in before.columns
  {
    assert before.columns.Keys == compiled.columns.Keys;
  }

  lemma TargetOnPrevious(prev: Registry, cur: Registry, o: string, before: Table)
    requires ValidRegistry(prev) && ValidRegistry(cur) && o in prev.objects && o in cur.objects
    requires prev.objects[o].Keys <= cur.objects[o].Keys
    requires forall p :: p in SpecsOf(prev, o) ==> SpecsOf(prev, o)[p].name in before.columns
    ensures Sub(Target(prev, cur, o, before), prev.objects[o].Keys).Keys == SpecsOf(prev, o).Keys
    ensures forall p :: p in SpecsOf(prev, o) ==>
      Target(prev, cur, o, before)[p] == SpecsOf(prev, o)[p].(column := before.columns[SpecsOf(prev, o)[p].name])
  {
    forall p | p in SpecsOf(prev, o)
      ensures Target(prev, cur, o, before)[p] ==
        SpecsOf(prev, o)[p].(column := before.columns[SpecsOf(prev, o)[p].name])
    {
      assert SpecsOf(prev, o)[p] == Spec(prev, o, p);
    }
  }

  lemma NamedColumnsAreDescribed(specs: map<string, ColumnSpec>, sub: map<string, ColumnSpec>, before: Table,
                                 compiled: Table)
    requires Describes(specs, compiled.columns, compiled.constraints) && SameUpToNames(before, compiled)
    requires sub.Keys == specs.Keys
    requires forall p :: p in specs ==>
      && specs[p].name in before.columns
      && sub[p] == specs[p].(column := before.columns[specs[p].name])
    ensures Describes(sub, before.columns, before.constraints)
  {
    assert before.columns.Keys == compiled.columns.Keys;
    assert EraseColumn(before.columns["id"]) == ID_COLUMN && EraseColumn(before.columns["version"]) == VERSION_COLUMN;
    forall c | NamesColumn(specs, c) ensures NamesColumn(sub, c) {
      var p :| p in specs && specs[p].name == c;
      assert sub[p].name == c;
    }
    forall k | NamesConstraint(specs, k) ensures NamesConstraint(sub, k) {
      var p :| p in specs && specs[p].constraint.Some? && specs[p].constraint.value.0 == k;
      assert sub[p].constraint == specs[p].constraint;
    }
  }

  lemma RowsKeepThemselves(specs: map<string, ColumnSpec>, values: map<string, SqlValue>, rows: seq<Row>)
    ensures RowsKept(specs, {}, values, rows, rows)
  {
  }

  lemma PreviousIsDescribed(pg: Server, prev: Registry, cur: Registry, db0: Database, o: string)
    requires Start(prev, cur, db0) && o in prev.objects
    ensures KeptTableAt(pg, prev, cur, o, {}, db0[SqlName(o)], db0[SqlName(o)])
  {
    var table := db0[SqlName(o)];
    var target := Target(prev, cur, o, table);
    assert SameUpToNames(table, TableOf(prev, o));
    assert ObjectReady(cur, prev, o);
    PreviousNamesApart(prev, cur, o);
    TableOfIsDescribed(prev, o);
    PropertiesPresent(SpecsOf(prev, o), table, TableOf(prev, o));
    TargetOnPrevious(prev, cur, o, table);
    var sub := Sub(target, prev.objects[o].Keys);
    NamedColumnsAreDescribed(SpecsOf(prev, o), sub, table, TableOf(prev, o));
    assert prev.objects[o].Keys + {} == prev.objects[o].Keys;
    RowsKeepThemselves(target, NewValues(pg, prev, cur, o), table.rows);
  }

  lemma InitialTables(kept: TableRelation, prev: Registry, cur: Registry, db0: Database)
    requires forall o :: o in prev.objects ==> SqlName(o) in db0 && kept(o, {}, db0[SqlName(o)], db0[SqlName(o)])
    ensures KeptTables(kept, prev, cur, db0, [], db0)
  {
    forall o ensures DoneProperties(prev, cur, o, []) == {} {
    }
  }

  lemma InitialState(pg: Server, prev: Registry, cur: Registry, db0: Database)
    requires Start(prev, cur, db0)
    ensures StateAt(pg, prev, cur, db0, [], db0)
  {
    forall o | o in prev.objects
      ensures SqlName(o) in db0 && KeptRelation(pg, prev, cur)(o, {}, db0[SqlName(o)], db0[SqlName(o)])
    {
      PreviousIsDescribed(pg, prev, cur, db0, o);
    }
    InitialTables(KeptRelation(pg, prev, cur), prev, cur, db0);
  }

  // ----- ids never move

  lemma KeptIds(specs: map<string, ColumnSpec>, added: set<string>, values: map<string, SqlValue>, before: seq<Row>,
                after: seq<Row>)
    requires RowsKept(specs, added, values, before, after)
    requires forall row | row in before :: "id" in row
    ensures (set row | row in after :: Cell(row, "id")) == (set row | row in before :: Cell(row, "id"))
  {
    var oldIds, newIds := (set row | row in before :: Cell(row, "id")), (set row | row in after :: Cell(row, "id"));
    forall i | 0 <= i < |before| ensures Cell(after[i], "id") == Cell(before[i], "id") {
      assert before[i] in before;
      assert RowKept(specs, added, values, before[i], after[i]);
    }
    forall x | x in newIds ensures x in oldIds {
      var row :| row in after && Cell(row, "id") == x;
      var i :| 0 <= i < |after| && after[i] == row;
      assert before[i] in before;
    }
    forall x | x in oldIds ensures x in newIds {
      var row :| row in before && Cell(row, "id") == x;
      var i :| 0 <= i < |before| && before[i] == row;
      assert after[i] in after;
    }
  }

  lemma HasIdColumn(pg: Server, prev: Registry, cur: Registry, db0: Database, o: string)
    requires Start(prev, cur, db0) && o in prev.objects
    ensures forall row | row in db0[SqlName(o)].rows :: "id" in row
  {
    PreviousIsDescribed(pg, prev, cur, db0, o);
  }

  lemma KeptTableIds(pg: Server, prev: Registry, cur: Registry, o: string, added: set<string>, before: Table,
                     after: Table)
    requires KeptTableAt(pg, prev, cur, o, added, before, after)
    requires forall row | row in before.rows :: "id" in row
    ensures (set row | row in after.rows :: Cell(row, "id")) == (set row | row in before.rows :: Cell(row, "id"))
  {
    KeptIds(Target(prev, cur, o, before), added, NewValues(pg, prev, cur, o), before.rows, after.rows);
  }

  lemma KeptTableIdsStay(pg: Server, prev: Registry, cur: Registry, db0: Database, done: seq<Change>, db: Database,
                         o: string)
    requires Start(prev, cur, db0) && StateAt(pg, prev, cur, db0, done, db) && o in prev.objects
    ensures Ids(db, SqlName(o)) == Ids(db0, SqlName(o))
  {
    var u := SqlName(o);
    HasIdColumn(pg, prev, cur, db0, o);
    KeptTableIds(pg, prev, cur, o, DoneProperties(prev, cur, o, done), db0[u], db[u]);
  }

  lemma OtherTableHasNoIds(pg: Server, prev: Registry, cur: Registry, db0: Database, done: seq<Change>, db: Database,
                           u: string)
    requires Start(prev, cur, db0) && StateAt(pg, prev, cur, db0, done, db) && !TableNamed(prev, u)
    ensures Ids(db, u) == Ids(db0, u)
  {
    if u in db {
      var o :| o in cur.objects && ObjectAdded(o) in done && SqlName(o) == u;
      assert IsTableOf(cur, o, db[u]);
    }
  }

  lemma IdsStay(pg: Server, prev: Registry, cur: Registry, db0: Database, done: seq<Change>, db: Database, u: string)
    requires Start(prev, cur, db0) && StateAt(pg, prev, cur, db0, done, db)
    ensures Ids(db, u) == Ids(db0, u)
  {
    if TableNamed(prev, u) {
      var o :| o in prev.objects && SqlName(o) == u;
      KeptTableIdsStay(pg, prev, cur, db0, done, db, o);
    } else {
      OtherTableHasNoIds(pg, prev, cur, db0, done, db, u);
    }
  }

  lemma SameRowsAndIdsFit(pg: Server, db: Database, db0: Database, t: string, spec: ColumnSpec,
                          backfill: Option<Literal>)
    requires t in db && t in db0 && |db[t].rows| == |db0[t].rows|
    requires forall u :: Ids(db, u) == Ids(db0, u)
    ensures Fits(pg, db, t, spec, backfill) <==> Fits(pg, db0, t, spec, backfill)
  {
  }

  /** So what a block needs of the data can be read off the database before the migration. */
  lemma FitsStays(pg: Server, prev: Registry, cur: Registry, db0: Database, done: seq<Change>, db: Database, o: string,
                  spec: ColumnSpec, backfill: Option<Literal>)
    requires Start(prev, cur, db0) && StateAt(pg, prev, cur, db0, done, db) && o in prev.objects
    ensures Fits(pg, db, SqlName(o), spec, backfill) <==> Fits(pg, db0, SqlName(o), spec, backfill)
  {
    forall u ensures Ids(db, u) == Ids(db0, u) {
      IdsStay(pg, prev, cur, db0, done, db, u);
    }
    assert KeptTableAt(pg, prev, cur, o, DoneProperties(prev, cur, o, done), db0[SqlName(o)], db[SqlName(o)]);
    SameRowsAndIdsFit(pg, db, db0, SqlName(o), spec, backfill);
  }

  // ----- one property

  /** A required or optional addition to a kept object, whose emission succeeds. */
  ghost predicate Adds(prev: Registry, cur: Registry, o: string, p: string) {
    && o in prev.objects && HasProperty(cur, o, p) && p !in prev.objects[o] && ListsValues(cur, cur.objects[o][p].typ)
    && (cur.objects[o][p].required ==>
          DeclaredMigration(cur.migrations, o, p).Some? && BackfillLiteral(cur, o, p).Some?)
  }

  lemma SpecFlags(reg: Registry, o: string, p: string)
    requires ValidRegistry(reg) && HasProperty(reg, o, p)
    ensures Spec(reg, o, p).column.notNull == reg.objects[o][p].required
    ensures Spec(reg, o, p).column.unique == InlineUnique || Spec(reg, o, p).column.unique == NotUnique
    ensures Spec(reg, o, p).column.default == None
  {
  }

  lemma StatementsAreBlock(prev: Registry, cur: Registry, o: string, p: string)
    requires ValidRegistry(cur) && Adds(prev, cur, o, p)
    ensures ChangeStatements(cur, AddedProperty(cur, o, p)) ==
      Some(Block(SqlName(o), Spec(cur, o, p), BackfillFor(cur, o, p)))
  {
    var change := AddedProperty(cur, o, p);
    if cur.objects[o][p].required {
      assert change.Classification() == "breaking_with_backfill";
    } else {
      assert change.Classification() == "additive";
      assert "additive" != "breaking_with_backfill";
    }
  }

  lemma BlockIsFresh(pg: Server, prev: Registry, cur: Registry, o: string, p: string, added: set<string>, before: Table,
                     t: Table)
    requires Upgrade(prev, cur) && Adds(prev, cur, o, p) && p !in added
    requires KeptTableAt(pg, prev, cur, o, added, before, t)
    ensures Fresh(t, SqlName(o), Spec(cur, o, p)) && ReadableCheck(Spec(cur, o, p).constraint)
  {
    var target, spec := Target(prev, cur, o, before), Spec(cur, o, p);
    TargetIsLawful(prev, cur, o, before);
    TargetNames(prev, cur, o, p, before);
    TableLeavesRoom(target, prev.objects[o].Keys + added, t, p);
    forall q | q in target && target[q].constraint.Some?
      ensures target[q].constraint.value.0 == ForeignKeyName(o, q) || target[q].constraint.value.0 == CheckName(o, q)
    {
      TargetNames(prev, cur, o, q, before);
    }
    UniqueNameIsNew(target, prev.objects[o].Keys + added, t, o, spec.name);
    assert HasProperty(cur, o, p) && !HasProperty(prev, o, p);
    EnumerationReadable(cur, o, p);
    assert target[p].name == spec.name && target[p].constraint == spec.constraint;
  }

  /** The table after the block of a property. */
  ghost function Grown(pg: Server, prev: Registry, cur: Registry, o: string, p: string, before: Table, t: Table): Table
    requires ValidRegistry(prev) && ValidRegistry(cur) && o in prev.objects && HasProperty(cur, o, p)
    requires p !in prev.objects[o]
  {
    WithSpec(t, TargetSpec(prev, cur, o, p, before), NewValues(pg, prev, cur, o)[p])
  }

  /** The block of one property is accepted exactly when its literal fits. */
  lemma PropertyBlock(pg: Server, prev: Registry, cur: Registry, db: Database, o: string, p: string,
                      added: set<string>, before: Table)
    requires Upgrade(prev, cur) && Adds(prev, cur, o, p) && p !in added
    requires SqlName(o) in db && KeptTableAt(pg, prev, cur, o, added, before, db[SqlName(o)])
    ensures Run(pg, false, db, Block(SqlName(o), Spec(cur, o, p), BackfillFor(cur, o, p))) ==
      if Fits(pg, db, SqlName(o), Spec(cur, o, p), BackfillFor(cur, o, p))
      then Some(db[SqlName(o) := Grown(pg, prev, cur, o, p, before, db[SqlName(o)])])
      else None
  {
    SpecFlags(cur, o, p);
    BlockIsFresh(pg, prev, cur, o, p, added, before, db[SqlName(o)]);
    BlockEffect(pg, db, SqlName(o), Spec(cur, o, p), BackfillFor(cur, o, p));
  }

  /** And then the table is one property further. */
  lemma PropertyGrows(pg: Server, prev: Registry, cur: Registry, o: string, p: string, added: set<string>,
                      before: Table, t: Table)
    requires Upgrade(prev, cur) && Adds(prev, cur, o, p) && p !in added
    requires KeptTableAt(pg, prev, cur, o, added, before, t)
    requires forall row | row in before.rows :: Spec(cur, o, p).name !in row
    ensures KeptTableAt(pg, prev, cur, o, added + {p}, before, Grown(pg, prev, cur, o, p, before, t))
  {
    var target := Target(prev, cur, o, before);
    TargetIsLawful(prev, cur, o, before);
    TargetNames(prev, cur, o, p, before);
    TableLeavesRoom(target, prev.objects[o].Keys + added, t, p);
    TableGrows(target, prev.objects[o].Keys, added, NewValues(pg, prev, cur, o), before, t, p);
  }

  lemma NewNameNotInRows(pg: Server, prev: Registry, cur: Registry, db0: Database, o: string, p: string)
    requires Start(prev, cur, db0) && o in prev.objects && HasProperty(cur, o, p) && p !in prev.objects[o]
    ensures forall row | row in db0[SqlName(o)].rows :: Spec(cur, o, p).name !in row
  {
    var target := Target(prev, cur, o, db0[SqlName(o)]);
    PreviousIsDescribed(pg, prev, cur, db0, o);
    TargetIsLawful(prev, cur, o, db0[SqlName(o)]);
    TargetNames(prev, cur, o, p, db0[SqlName(o)]);
    TableLeavesRoom(target, prev.objects[o].Keys + {}, db0[SqlName(o)], p);
  }

  lemma DoneGrows(prev: Registry, cur: Registry, o: string, done: seq<Change>, p: string)
    requires o in prev.objects && HasProperty(cur, o, p) && p !in prev.objects[o]
    ensures DoneProperties(prev, cur, o, done + [AddedProperty(cur, o, p)]) == DoneProperties(prev, cur, o, done) + {p}
  {
  }

  predicate IsAbout(change: Change, o: string) {
    change.PropertyAdded? && change.objectId == o
  }

  lemma OtherTablesKept(kept: TableRelation, prev: Registry, cur: Registry, db0: Database, done: seq<Change>,
                        db: Database, change: Change, next: Database)
    requires KeptTables(kept, prev, cur, db0, done, db)
    requires forall a :: a in prev.objects && !IsAbout(change, a) ==>
      SqlName(a) in next && next[SqlName(a)] == db[SqlName(a)]
    requires forall a :: a in prev.objects && IsAbout(change, a) ==>
      && SqlName(a) in next
      && kept(a, DoneProperties(prev, cur, a, done + [change]), db0[SqlName(a)], next[SqlName(a)])
    ensures KeptTables(kept, prev, cur, db0, done + [change], next)
  {
    forall a | a in prev.objects && !IsAbout(change, a)
      ensures DoneProperties(prev, cur, a, done + [change]) == DoneProperties(prev, cur, a, done)
    {
    }
  }

  lemma OtherTablesNamed(prev: Registry, cur: Registry, done: seq<Change>, db: Database, change: Change, next: Database)
    requires NoOtherTables(prev, cur, done, db)
    requires forall u :: u in next && u !in db ==>
      change.ObjectAdded? && change.objectId in cur.objects && SqlName(change.objectId) == u
    ensures NoOtherTables(prev, cur, done + [change], next)
  {
    forall u | u in next ensures TableNamed(prev, u) || CreatedIn(cur, done + [change], u) {
      if u !in db {
        assert change in done + [change];
      } else if CreatedIn(cur, done, u) {
        var a :| a in cur.objects && ObjectAdded(a) in done && SqlName(a) == u;
        assert ObjectAdded(a) in done + [change];
      }
    }
  }

  /** No other object shares the table name. */
  ghost predicate OwnTableName(cur: Registry, o: string) {
    forall a :: a in cur.objects && a != o ==> SqlName(a) != SqlName(o)
  }

  lemma CreatedTablesKept(cur: Registry, done: seq<Change>, db: Database, change: Change, next: Database)
    requires CreatedTables(cur, done, db)
    requires forall a :: a in cur.objects && ObjectAdded(a) in done ==>
      SqlName(a) in next && next[SqlName(a)] == db[SqlName(a)]
    requires change.ObjectAdded? && change.objectId in cur.objects ==>
      SqlName(change.objectId) in next && IsTableOf(cur, change.objectId, next[SqlName(change.objectId)])
    ensures CreatedTables(cur, done + [change], next)
  {
  }

  lemma PropertyTables(kept: TableRelation, prev: Registry, cur: Registry, db0: Database, done: seq<Change>,
                       db: Database,
                       o: string, p: string, t: Table)
    requires KeptTables(kept, prev, cur, db0, done, db)
    requires Adds(prev, cur, o, p) && OwnTableName(cur, o) && prev.objects.Keys <= cur.objects.Keys && SqlName(o) in db0
    requires kept(o, DoneProperties(prev, cur, o, done) + {p}, db0[SqlName(o)], t)
    ensures KeptTables(kept, prev, cur, db0, done + [AddedProperty(cur, o, p)], db[SqlName(o) := t])
  {
    var change := AddedProperty(cur, o, p);
    DoneGrows(prev, cur, o, done, p);
    OtherTablesKept(kept, prev, cur, db0, done, db, change, db[SqlName(o) := t]);
  }

  lemma PropertyState(kept: TableRelation, prev: Registry, cur: Registry, db0: Database, done: seq<Change>,
                      db: Database,
                      o: string, p: string, t: Table)
    requires StateBy(kept, prev, cur, db0, done, db)
    requires Adds(prev, cur, o, p) && OwnTableName(cur, o) && prev.objects.Keys <= cur.objects.Keys && SqlName(o) in db0
    requires kept(o, DoneProperties(prev, cur, o, done) + {p}, db0[SqlName(o)], t)
    ensures StateBy(kept, prev, cur, db0, done + [AddedProperty(cur, o, p)], db[SqlName(o) := t])
  {
    var change := AddedProperty(cur, o, p);
    var next := db[SqlName(o) := t];
    assert IsDifference(cur, prev, change);
    PropertyTables(kept, prev, cur, db0, done, db, o, p, t);
    KeptIsNotAdded(prev, cur, done, o);
    PropertyCreatedTables(cur, done, db, o, change, t);
    OtherTablesNamed(prev, cur, done, db, change, next);
  }

  lemma PropertyCreatedTables(cur: Registry, done: seq<Change>, db: Database, o: string, change: Change, t: Table)
    requires CreatedTables(cur, done, db) && ObjectAdded(o) !in done && !change.ObjectAdded? && OwnTableName(cur, o)
    ensures CreatedTables(cur, done + [change], db[SqlName(o) := t])
  {
    CreatedTablesKept(cur, done, db, change, db[SqlName(o) := t]);
  }

  lemma KeptIsNotAdded(prev: Registry, cur: Registry, done: seq<Change>, o: string)
    requires o in prev.objects && forall c :: c in done ==> IsDifference(cur, prev, c)
    ensures ObjectAdded(o) !in done
  {
    forall c | c in done ensures c != ObjectAdded(o) {
      assert IsDifference(cur, prev, c);
    }
  }

  // ----- one object

  lemma NewTableName(pg: Server, prev: Registry, cur: Registry, db0: Database, done: seq<Change>, db: Database,
                     o: string)
    requires Start(prev, cur, db0) && StateAt(pg, prev, cur, db0, done, db)
    requires IsDifference(cur, prev, ObjectAdded(o)) && ObjectAdded(o) !in done
    ensures SqlName(o) !in db
  {
    forall u | u in db ensures u != SqlName(o) {
      assert TableNamed(prev, u) || CreatedIn(cur, done, u);
    }
  }

  lemma NewTypesReadable(prev: Registry, cur: Registry, o: string)
    requires Upgrade(prev, cur) && IsDifference(cur, prev, ObjectAdded(o))
    ensures TypesReadable(cur, o) && ObjectLists(cur, o)
  {
    forall p | p in cur.objects[o] ensures ReadableType(cur, cur.objects[o][p].typ) {
      assert HasProperty(cur, o, p) && !HasProperty(prev, o, p);
    }
  }

  lemma ObjectCreated(pg: Server, prev: Registry, cur: Registry, db0: Database, done: seq<Change>, db: Database,
                      o: string)
    requires Start(prev, cur, db0) && StateAt(pg, prev, cur, db0, done, db)
    requires IsDifference(cur, prev, ObjectAdded(o)) && ObjectAdded(o) !in done
    ensures SqlName(o) !in db && ChangeStatements(cur, ObjectAdded(o)).Some?
    ensures Run(pg, false, db, ChangeStatements(cur, ObjectAdded(o)).value) == Some(db[SqlName(o) := TableOf(cur, o)])
  {
    NewTableName(pg, prev, cur, db0, done, db, o);
    NewTypesReadable(prev, cur, o);
    TableCreated(pg, cur, o, db);
  }

  lemma TableCreated(pg: Server, cur: Registry, o: string, db: Database)
    requires ValidRegistry(cur) && o in cur.objects && NamesApart(SpecsOf(cur, o)) && TypesReadable(cur, o)
    requires SqlName(o) !in db
    ensures Run(pg, false, db, [CreateFrom(SqlName(o), Sorted(SpecsOf(cur, o)))]) ==
      Some(db[SqlName(o) := TableOf(cur, o)])
  {
    var stmt := CreateFrom(SqlName(o), Sorted(SpecsOf(cur, o)));
    SpecsAreLawful(cur, o);
    CreateOfAcceptedIff(pg, NewTable(SqlName(o), SpecsOf(cur, o)), db);
    RunOne(pg, false, db, stmt, []);
    assert [stmt] + [] == [stmt];
  }

  lemma ObjectTables(kept: TableRelation, prev: Registry, cur: Registry, db0: Database, done: seq<Change>, db: Database,
                     o: string, t: Table)
    requires KeptTables(kept, prev, cur, db0, done, db) && SqlName(o) !in db
    ensures KeptTables(kept, prev, cur, db0, done + [ObjectAdded(o)], db[SqlName(o) := t])
  {
    OtherTablesKept(kept, prev, cur, db0, done, db, ObjectAdded(o), db[SqlName(o) := t]);
  }

  lemma ObjectCreatedTables(cur: Registry, done: seq<Change>, db: Database, o: string, t: Table)
    requires CreatedTables(cur, done, db) && SqlName(o) !in db && IsTableOf(cur, o, t)
    ensures CreatedTables(cur, done + [ObjectAdded(o)], db[SqlName(o) := t])
  {
    CreatedTablesKept(cur, done, db, ObjectAdded(o), db[SqlName(o) := t]);
  }

  lemma ObjectState(pg: Server, prev: Registry, cur: Registry, db0: Database, done: seq<Change>, db: Database,
                    o: string, t: Table)
    requires StateAt(pg, prev, cur, db0, done, db)
    requires IsDifference(cur, prev, ObjectAdded(o)) && SqlName(o) !in db && IsTableOf(cur, o, t)
    ensures StateAt(pg, prev, cur, db0, done + [ObjectAdded(o)], db[SqlName(o) := t])
  {
    var next := db[SqlName(o) := t];
    ObjectTables(KeptRelation(pg, prev, cur), prev, cur, db0, done, db, o, t);
    ObjectCreatedTables(cur, done, db, o, t);
    OtherTablesNamed(prev, cur, done, db, ObjectAdded(o), next);
  }

  // ----- the whole run

  /** What the data must satisfy for one change. */
  ghost predicate ChangeFits(pg: Server, cur: Registry, db0: Database, change: Change)
    requires ValidRegistry(cur)
  {
    change.PropertyAdded? && HasProperty(cur, change.objectId, change.property) && SqlName(change.objectId) in db0 ==>
      Fits(pg, db0, SqlName(change.objectId), Spec(cur, change.objectId, change.property),
           BackfillFor(cur, change.objectId, change.property))
  }

  lemma ObjectStep(pg: Server, prev: Registry, cur: Registry, db0: Database, done: seq<Change>, db: Database, o: string)
    requires Start(prev, cur, db0) && StateAt(pg, prev, cur, db0, done, db)
    requires IsDifference(cur, prev, ObjectAdded(o)) && ObjectAdded(o) !in done
    ensures Run(pg, false, db, ChangeStatements(cur, ObjectAdded(o)).value).Some?
    ensures StateAt(pg, prev, cur, db0, done + [ObjectAdded(o)],
                    Run(pg, false, db, ChangeStatements(cur, ObjectAdded(o)).value).value)
  {
    ObjectCreated(pg, prev, cur, db0, done, db, o);
    ObjectState(pg, prev, cur, db0, done, db, o, TableOf(cur, o));
  }

  lemma PropertyRuns(pg: Server, prev: Registry, cur: Registry, db0: Database, done: seq<Change>, db: Database,
                     o: string, p: string)
    requires Start(prev, cur, db0) && StateAt(pg, prev, cur, db0, done, db)
    requires Adds(prev, cur, o, p) && AddedProperty(cur, o, p) !in done
    ensures SqlName(o) in db0 && SqlName(o) in db
    ensures Run(pg, false, db, Block(SqlName(o), Spec(cur, o, p), BackfillFor(cur, o, p))) ==
      if Fits(pg, db0, SqlName(o), Spec(cur, o, p), BackfillFor(cur, o, p))
      then Some(db[SqlName(o) := Grown(pg, prev, cur, o, p, db0[SqlName(o)], db[SqlName(o)])])
      else None
  {
    PropertyBlock(pg, prev, cur, db, o, p, DoneProperties(prev, cur, o, done), db0[SqlName(o)]);
    FitsStays(pg, prev, cur, db0, done, db, o, Spec(cur, o, p), BackfillFor(cur, o, p));
  }

  lemma PropertyMoves(pg: Server, prev: Registry, cur: Registry, db0: Database, done: seq<Change>, db: Database,
                      o: string, p: string)
    requires Start(prev, cur, db0) && StateAt(pg, prev, cur, db0, done, db)
    requires Adds(prev, cur, o, p) && AddedProperty(cur, o, p) !in done && SqlName(o) in db0 && SqlName(o) in db
    ensures StateAt(pg, prev, cur, db0, done + [AddedProperty(cur, o, p)],
                    db[SqlName(o) := Grown(pg, prev, cur, o, p, db0[SqlName(o)], db[SqlName(o)])])
  {
    NewNameNotInRows(pg, prev, cur, db0, o, p);
    PropertyGrows(pg, prev, cur, o, p, DoneProperties(prev, cur, o, done), db0[SqlName(o)], db[SqlName(o)]);
    PropertyState(KeptRelation(pg, prev, cur), prev, cur, db0, done, db, o, p,
                  Grown(pg, prev, cur, o, p, db0[SqlName(o)], db[SqlName(o)]));
  }

  lemma PropertyStep(pg: Server, prev: Registry, cur: Registry, db0: Database, done: seq<Change>, db: Database,
                     o: string, p: string)
    requires Start(prev, cur, db0) && StateAt(pg, prev, cur, db0, done, db)
    requires Adds(prev, cur, o, p) && AddedProperty(cur, o, p) !in done
    ensures var stmts := Block(SqlName(o), Spec(cur, o, p), BackfillFor(cur, o, p));
      && (Run(pg, false, db, stmts).Some? <==> ChangeFits(pg, cur, db0, AddedProperty(cur, o, p)))
      && (Run(pg, false, db, stmts).Some? ==>
            StateAt(pg, prev, cur, db0, done + [AddedProperty(cur, o, p)], Run(pg, false, db, stmts).value))
  {
    PropertyRuns(pg, prev, cur, db0, done, db, o, p);
    PropertyMoves(pg, prev, cur, db0, done, db, o, p);
  }

  lemma ChangeStep(pg: Server, prev: Registry, cur: Registry, db0: Database, done: seq<Change>, db: Database,
                   change: Change)
    requires Start(prev, cur, db0) && StateAt(pg, prev, cur, db0, done, db)
    requires IsDifference(cur, prev, change) && !change.Blocked() && change !in done
    requires RefersTo(cur, change) && ChangeStatements(cur, change).Some?
    ensures Run(pg, false, db, ChangeStatements(cur, change).value).Some? <==> ChangeFits(pg, cur, db0, change)
    ensures Run(pg, false, db, ChangeStatements(cur, change).value).Some? ==>
      StateAt(pg, prev, cur, db0, done + [change], Run(pg, false, db, ChangeStatements(cur, change).value).value)
  {
    if change.ObjectAdded? {
      ObjectStep(pg, prev, cur, db0, done, db, change.objectId);
    } else {
      ChangeRaisesIff(cur, prev, change);
      StatementsAreBlock(prev, cur, change.objectId, change.property);
      PropertyStep(pg, prev, cur, db0, done, db, change.objectId, change.property);
    }
  }

  lemma {:induction false} RunChanges(pg: Server, prev: Registry, cur: Registry, db0: Database, changes: seq<Change>)
    requires Start(prev, cur, db0) && Distinct(changes)
    requires forall c | c in changes :: IsDifference(cur, prev, c) && !c.Blocked() && RefersTo(cur, c)
    requires AllStatements(cur, changes).Some?
    ensures Run(pg, false, db0, AllStatements(cur, changes).value).Some? <==>
      forall c :: c in changes ==> ChangeFits(pg, cur, db0, c)
    ensures Run(pg, false, db0, AllStatements(cur, changes).value).Some? ==>
      StateAt(pg, prev, cur, db0, changes, Run(pg, false, db0, AllStatements(cur, changes).value).value)
  {
    if changes == [] {
      InitialState(pg, prev, cur, db0);
    } else {
      var init, last := changes[..|changes| - 1], changes[|changes| - 1];
      assert changes == init + [last];
      assert last !in init;
      RunChanges(pg, prev, cur, db0, init);
      var first, rest := AllStatements(cur, init).value, ChangeStatements(cur, last).value;
      RunConcat(pg, false, db0, first, rest);
      if Run(pg, false, db0, first).Some? {
        ChangeStep(pg, prev, cur, db0, init, Run(pg, false, db0, first).value, last);
      }
    }
  }
}
