/** When the generated scripts run on PostgreSQL. */
module ScriptTheorems {
  import opened Ordering
  import opened Values
  import opened Registry
  import opened Database
  import opened StaticChecks
  import opened SchemaCompiler
  import opened Schema
  import opened MigrationPlan
  import opened MigrationSql
  import opened BackfillSafety
  import opened Refinement
  import opened MigrationRun
  import opened MigrationTheorems
  import opened SchemaRefinement
  import opened ForeignKeyOrder
  import opened NameChecks
  import opened Legibility
  import opened TableNames

  // ----- one CREATE TABLE

  lemma NothingTaken(db: Database, t: string)
    requires t !in db
    ensures Empty(Names(db), t)
  {
  }

  lemma FreeTableIsNew(pg: Server, db: Database, t: string)
    requires TableFree(pg, Names(db), t)
    ensures t !in db
  {
    forall u | u in db ensures u != t {
      assert Name(Relations, u) in Names(db);
      assert !SameName(pg, Name(Relations, u), Name(Relations, t));
    }
  }

  lemma ReadsTableMeansReadable(pg: Server, item: NewTable)
    requires ReadsTable(pg, item)
    ensures ChecksReadable(item.specs)
  {
    forall p | p in item.specs ensures ReadableCheck(item.specs[p].constraint) {
      assert ReadsSpec(pg, item.specs[p]);
    }
  }

  /** A CREATE TABLE is accepted exactly if the server can read all it says, the names of the table, its columns and its
      constraints are free as the server reads them, and the tables it refers to are there. */
  lemma CreateRunsIff(pg: Server, item: NewTable, db: Database)
    requires Compiled(item.specs)
    ensures Exec(pg, true, db, CreateOf(item)).Some? <==>
      ReadsTable(pg, item) && TableNamesFree(pg, Names(db), item) && TargetsOf(item, db.Keys)
    ensures Exec(pg, true, db, CreateOf(item)).Some? ==>
      Exec(pg, true, db, CreateOf(item)).value == db[item.name := TableMade(item)]
  {
    CreateOfAcceptedIff(pg, item, db);
    CreateLegibleIff(pg, item);
    CreateTargets(item, db.Keys);
    if item.name !in db {
      NothingTaken(db, item.name);
      FreeCreateIff(pg, Names(db), item);
    }
    if TableNamesFree(pg, Names(db), item) {
      FreeTableIsNew(pg, db, item.name);
      assert NamesApart(item.specs);
    }
    if ReadsTable(pg, item) {
      ReadsTableMeansReadable(pg, item);
    }
  }

  // ----- schema.sql

  lemma ReadsAllMeansReadable(pg: Server, reg: Registry)
    requires ValidRegistry(reg) && AllNamesRead(pg, reg)
    ensures AllReadable(reg) && AllListed(reg)
  {
    forall o, p | HasProperty(reg, o, p) ensures ReadableType(reg, reg.objects[o][p].typ) {
      ReadsSpecMeansReadable(pg, reg, o, p);
    }
    forall o | o in reg.objects ensures ObjectLists(reg, o) {
      forall p | p in reg.objects[o] ensures ListsValues(reg, reg.objects[o][p].typ) {
        assert HasProperty(reg, o, p);
      }
    }
  }

  /** The baseline is emitted and runs on an empty database exactly if the server can read every name and list in it,
      names are apart as the server reads them, and no object refers to a later one. Then it builds the schema. */
  lemma BaselineRunsIff(pg: Server, reg: Registry)
    requires ValidRegistry(reg)
    ensures BaselineScript(reg).Some? && Run(pg, true, map[], BaselineScript(reg).value).Some? <==>
      AllNamesRead(pg, reg) && NamesReadApart(pg, reg) && NoForwardReference(reg, {})
    ensures BaselineScript(reg).Some? && Run(pg, true, map[], BaselineScript(reg).value).Some? ==>
      Emittable(reg) && HasSchema(Run(pg, true, map[], BaselineScript(reg).value).value, reg)
  {
    var db: Database := map[];
    assert db.Keys == {} && Names(db) == {};
    StrictRun(pg, db, BaselineSql(reg));
    BaselineLegibleIff(pg, reg);
    BaselineNamesFreeIff(pg, reg);
    BaselineAcceptedIff(pg, reg);
    if AllNamesRead(pg, reg) {
      ReadsAllMeansReadable(pg, reg);
    }
    if NamesReadApart(pg, reg) {
      ReadApartIsUnambiguous(pg, reg);
      BaselineTargetsIff(reg);
    }
  }

  // ----- one added property

  lemma BlockTargetsIff(table: string, spec: ColumnSpec, backfill: Option<Literal>, tables: set<string>)
    ensures AllTargetsPresent(Block(table, spec, backfill), tables) <==>
      (spec.constraint.Some? && spec.constraint.value.1.ForeignKey? ==> spec.constraint.value.1.target in tables)
  {
    var stmts := Block(table, spec, backfill);
    TargetsIff(stmts, tables);
    if spec.constraint.Some? {
      var last := AddConstraint(table, spec.constraint.value.0, spec.constraint.value.1);
      assert stmts[|stmts| - 1] == last && last in stmts;
    }
  }

  lemma {:induction false} TargetsIff(stmts: seq<Statement>, tables: set<string>)
    requires forall stmt | stmt in stmts :: !stmt.CreateTable?
    ensures AllTargetsPresent(stmts, tables) <==> forall stmt | stmt in stmts :: TargetsPresent(stmt, tables)
    decreases |stmts|
  {
    if stmts != [] {
      TargetsIff(stmts[1..], tables);
      assert stmts == [stmts[0]] + stmts[1..];
    }
  }

  /** What the block needs whatever the rows are. */
  ghost predicate BlockAdmitted(pg: Server, db: Database, table: string, spec: ColumnSpec, backfill: Option<Literal>) {
    && pg.accepts(TableName, table) && ReadsSpec(pg, spec)
    && (backfill.Some? && spec.column.unique == InlineUnique ==>
          pg.accepts(ConstraintName, UniqueName(table, spec.name)))
    && NamesFree(pg, Names(db), ScriptNames(Block(table, spec, backfill)))
    && (spec.constraint.Some? && spec.constraint.value.1.ForeignKey? ==> spec.constraint.value.1.target in db)
  }

  /** The block of an added property succeeds exactly if the server can read it, its names are free, its target is there
      and, with a backfill, the literal can be assigned to the column's type and, unless the table is empty, is
      non-null, allowed by the property's enumeration or reference, and fills at most one row if the property is unique.
      Then every other column keeps its values, the new one holds the literal's value or NULL, and the declared
      constraints are those of the property. */
  lemma BlockRunsIff(pg: Server, db: Database, table: string, spec: ColumnSpec, backfill: Option<Literal>)
    requires table in db && Fresh(db[table], table, spec) && !spec.column.unique.NamedUnique?
    requires backfill == None ==> !spec.column.notNull
    ensures Run(pg, true, db, Block(table, spec, backfill)) ==
      if BlockAdmitted(pg, db, table, spec, backfill) && Fits(pg, db, table, spec, backfill)
      then Some(db[table := WithSpec(db[table], FinalSpec(table, spec, backfill.Some?),
                                     FilledValue(pg, spec, backfill))])
      else None
  {
    StrictRun(pg, db, Block(table, spec, backfill));
    BlockLegibleIff(pg, table, spec, backfill);
    BlockTargetsIff(table, spec, backfill, db.Keys);
    if ReadsSpec(pg, spec) {
      BlockEffect(pg, db, table, spec, backfill);
    }
  }

  // ----- the migration script

  /** What the script of a migration needs whatever the rows are: the server can read it, each name it introduces is
      free and introduced once, and no new object refers to a later new one. */
  ghost predicate Admitted(pg: Server, prev: Registry, cur: Registry, db0: Database)
    requires ValidRegistry(cur) && MigrationScript(prev, cur).Some?
  {
    && NewNamesRead(pg, prev, cur)
    && NamesFree(pg, Names(db0), ScriptNames(MigrationScript(prev, cur).value))
    && NoForwardReference(cur, prev.objects.Keys)
  }

  lemma NewNamesReadMeansReadable(pg: Server, prev: Registry, cur: Registry)
    requires ValidRegistry(cur) && NewNamesRead(pg, prev, cur)
    ensures forall o, p :: HasProperty(cur, o, p) && !HasProperty(prev, o, p) ==>
      ReadableType(cur, cur.objects[o][p].typ)
  {
    forall o, p | HasProperty(cur, o, p) && !HasProperty(prev, o, p) ensures ReadableType(cur, cur.objects[o][p].typ) {
      assert NewProperty(cur, prev, o, p);
      ReadsSpecMeansReadable(pg, cur, o, p);
    }
  }

  lemma FreeNamesStart(pg: Server, prev: Registry, cur: Registry, db0: Database)
    requires ValidRegistry(cur) && Based(prev, db0) && Ready(cur, prev) && MigrationScript(prev, cur).Some?
    requires NewNamesRead(pg, prev, cur) && NamesFree(pg, Names(db0), ScriptNames(MigrationScript(prev, cur).value))
    ensures Start(prev, cur, db0)
  {
    ReadyScript(prev, cur);
    FreeScriptIsApart(pg, cur, Names(db0), Changes(cur, prev));
    FreeMigrationIsUnambiguous(pg, prev, cur, db0, Changes(cur, prev));
    NewNamesReadMeansReadable(pg, prev, cur);
  }

  lemma BasedTables(prev: Registry, db0: Database)
    requires Based(prev, db0)
    ensures db0.Keys == NamesOf(SqlName, prev.objects.Keys)
  {
    forall t | t in db0 ensures t in NamesOf(SqlName, prev.objects.Keys) {
      assert TableNamed(prev, t);
    }
  }

  lemma AdmissibleIff(pg: Server, prev: Registry, cur: Registry, db0: Database)
    requires ValidRegistry(cur) && Based(prev, db0) && Ready(cur, prev) && MigrationScript(prev, cur).Some?
    ensures Admissible(pg, db0, MigrationScript(prev, cur).value) <==> Admitted(pg, prev, cur, db0)
    ensures Admitted(pg, prev, cur, db0) ==> Start(prev, cur, db0)
  {
    ScriptLegibleIff(pg, prev, cur);
    if NewNamesRead(pg, prev, cur) && NamesFree(pg, Names(db0), ScriptNames(MigrationScript(prev, cur).value)) {
      FreeNamesStart(pg, prev, cur, db0);
      BasedTables(prev, db0);
      BlockedIffNotReady(cur, prev);
      ScriptTargetsIff(prev, cur);
    }
  }

  /** A ready migration whose emission succeeds, over any database with the schema of the previous registry, succeeds
      exactly if the script is admitted and every backfill literal fits its table. Then names of the current registry do
      not collide, every old row and cell is kept, and what is declared is added. */
  lemma MigrationRunsIff(pg: Server, prev: Registry, cur: Registry, db0: Database)
    requires ValidRegistry(cur) && Based(prev, db0) && !DiffPlan(cur, prev).blocked && MigrationScript(prev, cur).Some?
    ensures Run(pg, true, db0, MigrationScript(prev, cur).value).Some? <==>
      Admitted(pg, prev, cur, db0) && DataFits(pg, prev, cur, db0)
    ensures Run(pg, true, db0, MigrationScript(prev, cur).value).Some? ==>
      Start(prev, cur, db0) && Migrated(pg, prev, cur, db0, Run(pg, true, db0, MigrationScript(prev, cur).value).value)
  {
    BlockedIffNotReady(cur, prev);
    StrictRun(pg, db0, MigrationScript(prev, cur).value);
    AdmissibleIff(pg, prev, cur, db0);
    if Admitted(pg, prev, cur, db0) {
      MigrationRefines(pg, prev, cur, db0);
    }
  }

  /** Without data it succeeds exactly if the script is admitted and every backfill literal can be assigned to its
      column. */
  lemma EmptyTablesRunIff(pg: Server, prev: Registry, cur: Registry, db0: Database)
    requires ValidRegistry(cur) && Based(prev, db0) && !DiffPlan(cur, prev).blocked && MigrationScript(prev, cur).Some?
    requires forall t :: t in db0 ==> db0[t].rows == []
    ensures Run(pg, true, db0, MigrationScript(prev, cur).value).Some? <==>
      Admitted(pg, prev, cur, db0) && AllAssignable(pg, prev, cur)
  {
    MigrationRunsIff(pg, prev, cur, db0);
    BlockedIffNotReady(cur, prev);
    AdmissibleIff(pg, prev, cur, db0);
    if Admitted(pg, prev, cur, db0) {
      EmptyTablesFitIff(pg, prev, cur, db0);
    }
  }

  // ----- names of added UNIQUE constraints

  lemma BlockNamesUnique(table: string, spec: ColumnSpec, literal: Literal)
    requires spec.column.unique == InlineUnique
    ensures Name(Relations, UniqueName(table, spec.name)) in ScriptNames(Block(table, spec, Some(literal)))
  {
    var stmt := AddUnique(table, UniqueName(table, spec.name), spec.name);
    var n := Name(Relations, UniqueName(table, spec.name));
    assert n in NewNames(stmt) && stmt in Block(table, spec, Some(literal));
    FlatMapMembers(NewNames, Block(table, spec, Some(literal)), n);
  }

  lemma PropertyNamesUnique(prev: Registry, cur: Registry, o: string, p: string)
    requires ValidRegistry(cur) && Ready(cur, prev) && NamesUnique(prev, cur, o, p)
    requires Emits(cur, AddedProperty(cur, o, p))
    ensures Name(Relations, UniqueName(SqlName(o), Spec(cur, o, p).name))
      in NamesOfChange(cur)(AddedProperty(cur, o, p))
  {
    var change := AddedProperty(cur, o, p);
    assert IsDifference(cur, prev, change);
    ReadyMeansUnblocked(cur, prev, change);
    ChangeRaisesIff(cur, prev, change);
    StatementsAreBlock(prev, cur, o, p);
    InlineUniqueIff(cur, o, p);
    BlockNamesUnique(SqlName(o), Spec(cur, o, p), BackfillFor(cur, o, p).value);
  }

  /** Two added properties whose UNIQUE names the server reads alike: the migration fails over any data, since tables
      and columns run together in these names. */
  lemma UniqueNamesMeet(pg: Server, prev: Registry, cur: Registry, db0: Database, o: string, p: string, a: string,
                        q: string)
    requires ValidRegistry(cur) && Based(prev, db0) && !DiffPlan(cur, prev).blocked && MigrationScript(prev, cur).Some?
    requires NamesUnique(prev, cur, o, p) && NamesUnique(prev, cur, a, q) && (o != a || p != q)
    requires pg.fold(UniqueName(SqlName(o), Spec(cur, o, p).name)) ==
      pg.fold(UniqueName(SqlName(a), Spec(cur, a, q).name))
    ensures Run(pg, true, db0, MigrationScript(prev, cur).value) == None
  {
    MigrationRunsIff(pg, prev, cur, db0);
    BlockedIffNotReady(cur, prev);
    ReadyScript(prev, cur);
    if Admitted(pg, prev, cur, db0) {
      UniqueNamesNotFree(pg, prev, cur, Names(db0), o, p, a, q);
    }
  }

  lemma UniqueNamesNotFree(pg: Server, prev: Registry, cur: Registry, taken: set<Name>, o: string, p: string, a: string,
                           q: string)
    requires ValidRegistry(cur) && Ready(cur, prev) && MigrationScript(prev, cur).Some?
    requires NamesUnique(prev, cur, o, p) && NamesUnique(prev, cur, a, q) && (o != a || p != q)
    requires pg.fold(UniqueName(SqlName(o), Spec(cur, o, p).name)) ==
      pg.fold(UniqueName(SqlName(a), Spec(cur, a, q).name))
    ensures !NamesFree(pg, taken, ScriptNames(MigrationScript(prev, cur).value))
  {
    ReadyScript(prev, cur);
    if NamesFree(pg, taken, ScriptNames(MigrationScript(prev, cur).value)) {
      var c, d := AddedProperty(cur, o, p), AddedProperty(cur, a, q);
      FreeScriptIsApart(pg, cur, taken, Changes(cur, prev));
      assert IsDifference(cur, prev, c) && IsDifference(cur, prev, d);
      PropertyNamesUnique(prev, cur, o, p);
      PropertyNamesUnique(prev, cur, a, q);
      FoldsDiffer(pg, NamesOfChange(cur)(c), NamesOfChange(cur)(d), UniqueName(SqlName(o), Spec(cur, o, p).name),
                  UniqueName(SqlName(a), Spec(cur, a, q).name));
    }
  }

  lemma FoldsDiffer(pg: Server, some: seq<Name>, others: seq<Name>, m: string, n: string)
    requires Apart(pg, some, others) && Name(Relations, m) in some && Name(Relations, n) in others
    ensures pg.fold(m) != pg.fold(n)
  {
    assert !SameName(pg, Name(Relations, m), Name(Relations, n));
  }
}
