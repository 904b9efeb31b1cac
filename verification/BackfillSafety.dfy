/** What one ADD COLUMN block does to a table with data, and exactly when it succeeds. */
module BackfillSafety {
  import opened Values
  import opened Database
  import opened SchemaCompiler
  import opened MigrationSql

  /** The value meets the property's own constraint: it is a listed value, or the id of an existing target row. */
  predicate ValueAllowed(db: Database, k: Option<(string, Constraint)>, v: SqlValue) {
    match k
    case None => true
    case Some((_, ForeignKey(_, target))) => v in Ids(db, target)
    case Some((_, CheckIn(_, values))) => v.SqlText? && values.Some? && v.s in values.value
  }

  /** The statement can assign the constant to the column at all. */
  predicate Assignable(pg: Server, spec: ColumnSpec, backfill: Option<Literal>) {
    backfill.Some? ==> Assign(pg, spec.column.typ, backfill.value).Some?
  }

  /** What the block puts into existing rows. */
  function FilledValue(pg: Server, spec: ColumnSpec, backfill: Option<Literal>): SqlValue {
    if backfill.Some? && Assignable(pg, spec, backfill)
    then Assign(pg, spec.column.typ, backfill.value).value
    else SqlNull
  }

  /** The condition on the literal and on existing data, checkable before the migration. */
  predicate Fits(pg: Server, db: Database, table: string, spec: ColumnSpec, backfill: Option<Literal>)
    requires table in db
  {
    var v := FilledValue(pg, spec, backfill);
    && Assignable(pg, spec, backfill)
    && (backfill.Some? ==>
          || db[table].rows == []
          || (&& v != SqlNull
              && (spec.column.unique == InlineUnique ==> |db[table].rows| <= 1)
              && ValueAllowed(db, spec.constraint, v)))
  }

  /** The column as it ends up: a backfilled one is NOT NULL and, if unique, so by a named constraint. */
  function FinalSpec(table: string, spec: ColumnSpec, backfilled: bool): ColumnSpec {
    if !backfilled then spec
    else
      var unique := if spec.column.unique == InlineUnique then NamedUnique(UniqueName(table, spec.name)) else NotUnique;
      spec.(column := Column(spec.column.typ, true, unique, None))
  }

  function WithSpec(t: Table, spec: ColumnSpec, v: SqlValue): Table {
    Table(t.columns[spec.name := spec.column],
          if spec.constraint.Some? then t.constraints[spec.constraint.value.0 := spec.constraint.value.1]
          else t.constraints,
          WithCell(t.rows, spec.name, v))
  }

  /** The block's column and names are new to the table, and its constraint is about its column. */
  ghost predicate Fresh(t: Table, table: string, spec: ColumnSpec) {
    && spec.name != "id"
    && spec.name !in t.columns
    && (forall k :: k in t.constraints ==> t.constraints[k].column != spec.name)
    && UniqueName(table, spec.name) !in t.constraints
    && (spec.constraint.Some? ==>
          && spec.constraint.value.0 !in t.constraints
          && spec.constraint.value.1.column == spec.name)
  }

  lemma IdsUnchanged(db: Database, table: string, t: Table, c: string, v: SqlValue)
    requires table in db && c != "id" && t.rows == WithCell(db[table].rows, c, v)
    ensures forall u :: Ids(db[table := t], u) == Ids(db, u)
  {
    var next := db[table := t];
    forall u ensures Ids(next, u) == Ids(db, u) {
      if u == table {
        forall x ensures x in Ids(next, u) <==> x in Ids(db, u) {
          if x in Ids(next, u) {
            var row :| row in t.rows && Cell(row, "id") == x;
            var i :| 0 <= i < |t.rows| && t.rows[i] == row;
            assert db[table].rows[i] in db[table].rows;
          }
          if x in Ids(db, u) {
            var row :| row in db[table].rows && Cell(row, "id") == x;
            var i :| 0 <= i < |db[table].rows| && db[table].rows[i] == row;
            assert t.rows[i] in t.rows;
          }
        }
      }
    }
  }

  /** A column holding one value in every row. */
  lemma ConstantColumnHolds(column: Column, c: string, rows: seq<Row>, v: SqlValue)
    requires forall i :: 0 <= i < |rows| ==> Cell(rows[i], c) == v
    ensures ColumnHolds(column, c, rows) <==>
      || rows == []
      || ((column.notNull ==> v != SqlNull) && (column.unique != NotUnique && v != SqlNull ==> |rows| <= 1))
  {
    if rows != [] {
      assert rows[0] in rows;
      if |rows| > 1 {
        assert Cell(rows[0], c) == Cell(rows[1], c);
      }
    }
  }

  lemma ConstantColumnMeets(db: Database, k: (string, Constraint), rows: seq<Row>, v: SqlValue)
    requires forall i :: 0 <= i < |rows| ==> Cell(rows[i], k.1.column) == v
    requires ReadableCheck(Some(k))
    ensures ConstraintHolds(db, k.1, rows) <==> rows == [] || v == SqlNull || ValueAllowed(db, Some(k), v)
  {
    if rows != [] {
      assert rows[0] in rows;
    }
  }

  lemma RunOne(pg: Server, immediate: bool, db: Database, stmt: Statement, rest: seq<Statement>)
    ensures Run(pg, immediate, db, [stmt] + rest) ==
      match Exec(pg, immediate, db, stmt) case None => None case Some(next) => Run(pg, immediate, next, rest)
  {
    assert ([stmt] + rest)[1..] == rest;
  }

  /** The trailing ADD CONSTRAINT on a column that holds `v` in every row. */
  lemma ConstraintStep(pg: Server, db: Database, table: string, spec: ColumnSpec, v: SqlValue)
    requires table in db && spec.name in db[table].columns
    requires ReadableCheck(spec.constraint)
    requires spec.constraint.Some? ==>
      spec.constraint.value.0 !in db[table].constraints && spec.constraint.value.1.column == spec.name
    requires forall i :: 0 <= i < |db[table].rows| ==> Cell(db[table].rows[i], spec.name) == v
    ensures Run(pg, false, db, ConstraintStatement(table, spec)) ==
      if db[table].rows == [] || v == SqlNull || ValueAllowed(db, spec.constraint, v)
      then Some(db[table := db[table].(constraints :=
             if spec.constraint.Some? then db[table].constraints[spec.constraint.value.0 := spec.constraint.value.1]
             else db[table].constraints)])
      else None
  {
    match spec.constraint {
      case None =>
        assert db[table := db[table].(constraints := db[table].constraints)] == db;
      case Some(k) =>
        ConstantColumnMeets(db, k, db[table].rows, v);
        RunOne(pg, false, db, AddConstraint(table, k.0, k.1), []);
        assert [AddConstraint(table, k.0, k.1)] + [] == ConstraintStatement(table, spec);
    }
  }

  /** An optional column is added over any data; existing rows get NULL. */
  lemma PlainBlock(pg: Server, db: Database, table: string, spec: ColumnSpec)
    requires table in db && Fresh(db[table], table, spec) && ReadableCheck(spec.constraint) && !spec.column.notNull
    ensures Run(pg, false, db, Block(table, spec, None)) == Some(db[table := WithSpec(db[table], spec, SqlNull)])
  {
    var rows := WithCell(db[table].rows, spec.name, SqlNull);
    ConstantColumnHolds(spec.column, spec.name, rows, SqlNull);
    var next := db[table := db[table].(columns := db[table].columns[spec.name := spec.column], rows := rows)];
    RunOne(pg, false, db, AddColumn(table, spec.name, spec.column), ConstraintStatement(table, spec));
    ConstraintStep(pg, next, table, spec, SqlNull);
    assert db[table := WithSpec(db[table], spec, SqlNull)] ==
      next[table := next[table].(constraints := WithSpec(db[table], spec, SqlNull).constraints)];
  }

  function Added(db: Database, table: string, spec: ColumnSpec, column: Column, v: SqlValue): Database
    requires table in db
  {
    db[table := db[table].(columns := db[table].columns[spec.name := column],
                           rows := WithCell(db[table].rows, spec.name, v))]
  }

  lemma ColumnReplaced(db: Database, table: string, spec: ColumnSpec, first: Column, column: Column, v: SqlValue)
    requires table in db
    ensures var before := Added(db, table, spec, first, v);
      before[table := before[table].(columns := before[table].columns[spec.name := column])]
      == Added(db, table, spec, column, v)
  {
    var before := Added(db, table, spec, first, v);
    assert before[table].columns[spec.name := column] == db[table].columns[spec.name := column];
  }

  lemma AddBare(pg: Server, db: Database, table: string, spec: ColumnSpec)
    requires table in db && Fresh(db[table], table, spec)
    ensures Exec(pg, false, db, AddColumn(table, spec.name, BareColumn(spec.column))) ==
      Some(Added(db, table, spec, BareColumn(spec.column), SqlNull))
  {
    ConstantColumnHolds(BareColumn(spec.column), spec.name, WithCell(db[table].rows, spec.name, SqlNull), SqlNull);
  }

  lemma FilledRows(rows: seq<Row>, c: string, v: SqlValue)
    ensures FillNulls(WithCell(rows, c, SqlNull), c, v) == WithCell(rows, c, v)
  {
    forall i | 0 <= i < |rows| ensures FillNulls(WithCell(rows, c, SqlNull), c, v)[i] == WithCell(rows, c, v)[i] {
      assert rows[i][c := SqlNull][c := v] == rows[i][c := v];
    }
  }

  lemma FillBare(pg: Server, db: Database, table: string, spec: ColumnSpec, literal: Literal)
    requires table in db && Fresh(db[table], table, spec)
    ensures Exec(pg, false, Added(db, table, spec, BareColumn(spec.column), SqlNull),
                 UpdateWhereNull(table, spec.name, literal)) ==
      match Assign(pg, spec.column.typ, literal)
      case None => None
      case Some(v) => Some(Added(db, table, spec, BareColumn(spec.column), v))
  {
    var before := Added(db, table, spec, BareColumn(spec.column), SqlNull);
    if Assign(pg, spec.column.typ, literal).Some? {
      var v := Assign(pg, spec.column.typ, literal).value;
      FilledRows(db[table].rows, spec.name, v);
      assert before[table := before[table].(rows := WithCell(db[table].rows, spec.name, v))] ==
        Added(db, table, spec, BareColumn(spec.column), v);
      ConstantColumnHolds(BareColumn(spec.column), spec.name, WithCell(db[table].rows, spec.name, v), v);
    }
  }

  /** ADD COLUMN, then UPDATE: accepted if the literal can be assigned, and then its value is in every row. Otherwise
      the block stops, even where there are no rows. */
  lemma AddAndFill(pg: Server, db: Database, table: string, spec: ColumnSpec, literal: Literal, rest: seq<Statement>)
    requires table in db && Fresh(db[table], table, spec)
    ensures Run(pg, false, db,
                [AddColumn(table, spec.name, BareColumn(spec.column)), UpdateWhereNull(table, spec.name, literal)]
                + rest) ==
      match Assign(pg, spec.column.typ, literal)
      case None => None
      case Some(v) => Run(pg, false, Added(db, table, spec, BareColumn(spec.column), v), rest)
  {
    var add, update := AddColumn(table, spec.name, BareColumn(spec.column)), UpdateWhereNull(table, spec.name, literal);
    AddBare(pg, db, table, spec);
    FillBare(pg, db, table, spec, literal);
    RunOne(pg, false, db, add, [update] + rest);
    RunOne(pg, false, Added(db, table, spec, BareColumn(spec.column), SqlNull), update, rest);
    assert [add, update] + rest == [add] + ([update] + rest);
  }

  lemma NotNullStep(pg: Server, db: Database, table: string, spec: ColumnSpec, v: SqlValue, rest: seq<Statement>)
    requires table in db && Fresh(db[table], table, spec)
    ensures Run(pg, false, Added(db, table, spec, BareColumn(spec.column), v), [SetNotNull(table, spec.name)] + rest) ==
      if db[table].rows == [] || v != SqlNull
      then Run(pg, false, Added(db, table, spec, Column(spec.column.typ, true, NotUnique, None), v), rest)
      else None
  {
    var before := Added(db, table, spec, BareColumn(spec.column), v);
    var column := Column(spec.column.typ, true, NotUnique, None);
    RunOne(pg, false, before, SetNotNull(table, spec.name), rest);
    ConstantColumnHolds(column, spec.name, before[table].rows, v);
    ColumnReplaced(db, table, spec, before[table].columns[spec.name], column, v);
  }

  /** The column once its UNIQUE is added. */
  function NamedColumn(table: string, spec: ColumnSpec): Column {
    Column(spec.column.typ, true, NamedUnique(UniqueName(table, spec.name)), None)
  }

  lemma UniqueStep(pg: Server, db: Database, table: string, spec: ColumnSpec, v: SqlValue, rest: seq<Statement>)
    requires table in db && Fresh(db[table], table, spec) && (db[table].rows == [] || v != SqlNull)
    ensures Run(pg, false, Added(db, table, spec, Column(spec.column.typ, true, NotUnique, None), v),
                [AddUnique(table, UniqueName(table, spec.name), spec.name)] + rest) ==
      if |db[table].rows| <= 1
      then Run(pg, false, Added(db, table, spec, NamedColumn(table, spec), v), rest)
      else None
  {
    var before := Added(db, table, spec, Column(spec.column.typ, true, NotUnique, None), v);
    var column := NamedColumn(table, spec);
    RunOne(pg, false, before, AddUnique(table, UniqueName(table, spec.name), spec.name), rest);
    ConstantColumnHolds(column, spec.name, before[table].rows, v);
    ColumnReplaced(db, table, spec, before[table].columns[spec.name], column, v);
  }

  lemma FilledConstraintStep(pg: Server, db: Database, table: string, spec: ColumnSpec, v: SqlValue)
    requires table in db && Fresh(db[table], table, spec) && ReadableCheck(spec.constraint)
    requires (db[table].rows == [] || v != SqlNull)
    ensures Run(pg, false, Added(db, table, spec, FinalSpec(table, spec, true).column, v),
                ConstraintStatement(table, spec)) ==
      if db[table].rows == [] || ValueAllowed(db, spec.constraint, v)
      then Some(db[table := WithSpec(db[table], FinalSpec(table, spec, true), v)])
      else None
  {
    var final := FinalSpec(table, spec, true);
    var before := Added(db, table, spec, final.column, v);
    ConstraintStep(pg, before, table, spec, v);
    IdsUnchanged(db, table, before[table], spec.name, v);
    assert ValueAllowed(before, spec.constraint, v) == ValueAllowed(db, spec.constraint, v);
    assert before[table := before[table].(constraints := WithSpec(db[table], final, v).constraints)] ==
      db[table := WithSpec(db[table], final, v)];
  }

  /** The backfilled block succeeds exactly when the literal can be assigned to the column's type and, unless the table
      is empty, is non-null, is allowed by the property's enumeration or reference, and fills at most one row if the
      property is unique. Then every other column keeps its values, the new one holds the literal's value, and the
      declared constraints are those of the property. */
  lemma BackfilledBlock(pg: Server, db: Database, table: string, spec: ColumnSpec, literal: Literal)
    requires table in db && Fresh(db[table], table, spec) && ReadableCheck(spec.constraint)
    ensures Run(pg, false, db, Block(table, spec, Some(literal))) ==
      if Fits(pg, db, table, spec, Some(literal))
      then Some(db[table := WithSpec(db[table], FinalSpec(table, spec, true), FilledValue(pg, spec, Some(literal)))])
      else None
  {
    var tail := ConstraintStatement(table, spec);
    var unique := AddUnique(table, UniqueName(table, spec.name), spec.name);
    var middle := if spec.column.unique == InlineUnique then [unique] + tail else tail;
    var start := [AddColumn(table, spec.name, BareColumn(spec.column)), UpdateWhereNull(table, spec.name, literal)];
    assert Block(table, spec, Some(literal)) == start + ([SetNotNull(table, spec.name)] + middle);
    AddAndFill(pg, db, table, spec, literal, [SetNotNull(table, spec.name)] + middle);
    if Assignable(pg, spec, Some(literal)) {
      var v := FilledValue(pg, spec, Some(literal));
      NotNullStep(pg, db, table, spec, v, middle);
      if db[table].rows == [] || v != SqlNull {
        if spec.column.unique == InlineUnique {
          UniqueStep(pg, db, table, spec, v, tail);
        }
        FilledConstraintStep(pg, db, table, spec, v);
      }
    }
  }

  /** Both kinds of block at once. */
  lemma BlockEffect(pg: Server, db: Database, table: string, spec: ColumnSpec, backfill: Option<Literal>)
    requires table in db && Fresh(db[table], table, spec) && ReadableCheck(spec.constraint)
    requires backfill == None ==> !spec.column.notNull
    ensures Run(pg, false, db, Block(table, spec, backfill)) ==
      if Fits(pg, db, table, spec, backfill)
      then Some(db[table := WithSpec(db[table], FinalSpec(table, spec, backfill.Some?),
                                     FilledValue(pg, spec, backfill))])
      else None
  {
    match backfill {
      case None => PlainBlock(pg, db, table, spec);
      case Some(v) => BackfilledBlock(pg, db, table, spec, v);
    }
  }
}
