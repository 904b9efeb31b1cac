/** The emitted statements, name by name: which table, which columns in which order, which constraints. */
module EmittedTables {
  import opened Ordering
  import opened Values
  import opened Registry
  import opened RegistryValidation
  import opened SqlLiteral
  import opened Database
  import opened SchemaCompiler
  import opened SqlNames
  import opened Schema
  import opened MigrationPlan
  import opened MigrationSql

  // ----- one column

  function UniqueFlag(definition: Property): Uniqueness {
    if definition.unique then InlineUnique else NotUnique
  }

  /** A column of a built-in type, named after its property, without a constraint. */
  lemma PlainColumn(reg: Registry, o: string, p: string, definition: Property, typ: SqlType)
    requires !IsReference(definition.typ) && definition.typ !in reg.types
    requires
      || (definition.typ in {"String", "Text"} && typ == Text)
      || (definition.typ == "Boolean" && typ == BooleanType)
      || (definition.typ == "Timestamp" && typ == TimestampTz)
    ensures SqlColumn(reg, o, p, definition) ==
      Some(ColumnSpec(p, Column(typ, definition.required, UniqueFlag(definition), None), None))
  {
  }

  /** One of an enumeration: a text, with a CHECK named after table and property over the values listed. */
  lemma EnumerationColumn(reg: Registry, o: string, p: string, definition: Property, table: string, values: seq<string>)
    requires !IsReference(definition.typ) && definition.typ in reg.types && reg.types[definition.typ] == Some(values)
    requires SqlName(o) == table
    ensures SqlColumn(reg, o, p, definition) == Some(ColumnSpec(
      p, Column(Text, definition.required, UniqueFlag(definition), None),
      Some(("chk_" + table + "_" + p, CheckIn(p, ListedValues(values))))))
  {
  }

  /** And one that refers to an object: a UUID that is never UNIQUE, with a key to that object's table. */
  lemma ReferenceColumn(reg: Registry, o: string, p: string, definition: Property, table: string, x: string,
                        target: string)
    requires IsReferenceTo(definition.typ, x) && SqlName(o) == table && SqlName(x) == target
    ensures SqlColumn(reg, o, p, definition) == Some(ColumnSpec(
      p + "_id", Column(Uuid, definition.required, NotUnique, None),
      Some(("fk_" + table + "_" + p, ForeignKey(p + "_id", target)))))
  {
    ReferencedIs(definition.typ, x);
  }

  // ----- one table

  lemma PairsAt(specs: map<string, ColumnSpec>, names: seq<string>)
    requires forall p | p in names :: p in specs
    ensures var columns := ColumnPairs(Listed(specs, names));
      && |columns| == |names| + 2
      && columns[0] == ("id", Column(Uuid, true, PrimaryKey, None))
      && columns[|columns| - 1] == ("version", Column(BigInt, true, NotUnique, Some(1)))
      && forall i :: 0 <= i < |names| ==>
           names[i] in names && columns[i + 1] == (specs[names[i]].name, specs[names[i]].column)
  {
    var columns := ColumnPairs(Listed(specs, names));
    forall i | 0 <= i < |names|
      ensures names[i] in names && columns[i + 1] == (specs[names[i]].name, specs[names[i]].column)
    {
      assert columns[i + 1] == PropertyColumns(Listed(specs, names))[i];
    }
  }

  lemma NamesOfSpecs(reg: Registry, o: string, names: seq<string>)
    requires ValidRegistry(reg) && o in reg.objects && names == SortSet(reg.objects[o].Keys)
    ensures SpecsOf(reg, o).Keys == reg.objects[o].Keys
    ensures forall p :: p in names ==> p in reg.objects[o] && SpecsOf(reg, o)[p] == Spec(reg, o, p)
  {
  }

  /** The id comes first and the version last; between them are the properties' columns, in the order of their names. */
  lemma ColumnsInOrder(reg: Registry, o: string, names: seq<string>, columns: seq<(string, Column)>)
    requires ValidRegistry(reg) && o in reg.objects
    requires names == SortSet(reg.objects[o].Keys) && columns == ColumnPairs(Sorted(SpecsOf(reg, o)))
    ensures |columns| == |names| + 2 && SortedBy(StrLe, names)
    ensures columns[0] == ("id", Column(Uuid, true, PrimaryKey, None))
    ensures columns[|columns| - 1] == ("version", Column(BigInt, true, NotUnique, Some(1)))
    ensures forall i :: 0 <= i < |names| ==>
      names[i] in reg.objects[o] && columns[i + 1] == (Spec(reg, o, names[i]).name, Spec(reg, o, names[i]).column)
  {
    SortSetSorts(reg.objects[o].Keys);
    NamesOfSpecs(reg, o, names);
    PairsAt(SpecsOf(reg, o), names);
  }

  // ----- the schema

  lemma {:induction false} CreatedTable(items: seq<NewTable>, i: nat)
    requires i < |items|
    ensures |Creates(items)| == |items| && Creates(items)[i] == CreateOf(items[i])
  {
    if i > 0 {
      CreatedTable(items[1..], i - 1);
    } else if |items| > 1 {
      CreatedTable(items[1..], 0);
    }
  }

  /** The tables of schema.sql, in the order of the object identifiers; an object called `approval.object.x` gets the
      table `approval_x`, and one without the prefix and dots a table of its own name. */
  lemma SchemaTables(reg: Registry, i: nat)
    requires ValidRegistry(reg) && BaselineScript(reg).Some? && i < |reg.objects|
    ensures var script, ids := BaselineScript(reg).value, SortSet(reg.objects.Keys);
      && |script| == |ids| == |reg.objects| && SortedBy(StrLe, ids)
      && script[i].CreateTable?
      && (forall x :: '.' !in x && ids[i] == "approval.object." + x ==> script[i].table == "approval_" + x)
      && ('.' !in ids[i] ==> script[i].table == ids[i])
  {
    var ids := SortSet(reg.objects.Keys);
    SortSetSorts(reg.objects.Keys);
    CreatedTable(NewTables(reg, ids), i);
    forall x | '.' !in x && ids[i] == "approval.object." + x ensures SqlName(ids[i]) == "approval_" + x {
      ApprovalObjectName(x);
    }
    if '.' !in ids[i] {
      PlainName(ids[i]);
    }
  }

  ghost predicate ReferenceFor(reg: Registry, script: seq<Statement>, table: string, p: string, definition: Property,
                               column: (string, Column), constraint: Option<(string, Constraint)>)
  {
    exists x, i :: IsReferenceTo(definition.typ, x) && IsTableOf(reg, script, i, x)
      && column == (p + "_id", Column(Uuid, definition.required, NotUnique, None))
      && constraint == Some(("fk_" + table + "_" + p, ForeignKey(p + "_id", script[i].table)))
  }

  predicate EnumerationFor(reg: Registry, table: string, p: string, definition: Property, column: (string, Column),
                           constraint: Option<(string, Constraint)>)
    requires definition.typ in reg.types
  {
    && reg.types[definition.typ].Some?
    && column == (p, Column(Text, definition.required, UniqueFlag(definition), None))
    && constraint == Some(("chk_" + table + "_" + p, CheckIn(p, ListedValues(reg.types[definition.typ].value))))
  }

  predicate BuiltinFor(p: string, definition: Property, column: (string, Column),
                       constraint: Option<(string, Constraint)>)
  {
    var typ, required, unique := definition.typ, definition.required, UniqueFlag(definition);
    && constraint == None
    && (|| (typ == "String" && column == (p, Column(Text, required, unique, None)))
        || (typ == "Text" && column == (p, Column(Text, required, unique, None)))
        || (typ == "Boolean" && column == (p, Column(BooleanType, required, unique, None)))
        || (typ == "Timestamp" && column == (p, Column(TimestampTz, required, unique, None))))
  }

  /** The column and the constraint that a property gets in its object's table. A reference leads to the table that the
      script creates for the object referred to. */
  ghost predicate ColumnFor(reg: Registry, script: seq<Statement>, table: string, p: string, definition: Property,
                            column: (string, Column), constraint: Option<(string, Constraint)>)
  {
    if exists x :: IsReferenceTo(definition.typ, x) then
      ReferenceFor(reg, script, table, p, definition, column, constraint)
    else if definition.typ in reg.types then EnumerationFor(reg, table, p, definition, column, constraint)
    else BuiltinFor(p, definition, column, constraint)
  }

  /** The statement creates the table of the object: it is at the object's place among the sorted identifiers. */
  ghost predicate IsTableOf(reg: Registry, script: seq<Statement>, i: int, o: string) {
    && 0 <= i < |script| == |SortSet(reg.objects.Keys)|
    && SortSet(reg.objects.Keys)[i] == o && script[i].CreateTable?
  }

  lemma SchemaStatement(reg: Registry, i: nat)
    requires ValidRegistry(reg) && BaselineScript(reg).Some? && i < |reg.objects|
    ensures var script, ids := BaselineScript(reg).value, SortSet(reg.objects.Keys);
      && |script| == |ids| == |reg.objects| && ids[i] in reg.objects
      && script[i] == CreateFrom(SqlName(ids[i]), Sorted(SpecsOf(reg, ids[i])))
      && IsTableOf(reg, script, i, ids[i]) && ObjectLists(reg, ids[i])
  {
    var ids := SortSet(reg.objects.Keys);
    SortSetSorts(reg.objects.Keys);
    assert ids[i] in ids;
    CreatedTable(NewTables(reg, ids), i);
  }

  lemma TableInScript(reg: Registry, o: string) returns (i: nat)
    requires ValidRegistry(reg) && BaselineScript(reg).Some? && o in reg.objects
    ensures IsTableOf(reg, BaselineScript(reg).value, i, o) && BaselineScript(reg).value[i].table == SqlName(o)
  {
    var ids := SortSet(reg.objects.Keys);
    SortSetSorts(reg.objects.Keys);
    i :| 0 <= i < |ids| && ids[i] == o;
    SchemaStatement(reg, i);
  }

  lemma SpecIsReference(reg: Registry, o: string, p: string, x: string)
    requires ValidRegistry(reg) && BaselineScript(reg).Some? && HasProperty(reg, o, p)
    requires IsReferenceTo(reg.objects[o][p].typ, x)
    ensures var spec := Spec(reg, o, p);
      ReferenceFor(reg, BaselineScript(reg).value, SqlName(o), p, reg.objects[o][p], (spec.name, spec.column),
                   spec.constraint)
  {
    ReferencedIs(reg.objects[o][p].typ, x);
    assert KnownType(reg, reg.objects[o][p].typ);
    var i := TableInScript(reg, x);
    ReferenceColumn(reg, o, p, reg.objects[o][p], SqlName(o), x, SqlName(x));
  }

  lemma SpecIsEnumeration(reg: Registry, o: string, p: string)
    requires ValidRegistry(reg) && HasProperty(reg, o, p) && ListsValues(reg, reg.objects[o][p].typ)
    requires !IsReference(reg.objects[o][p].typ) && reg.objects[o][p].typ in reg.types
    ensures var spec := Spec(reg, o, p);
      EnumerationFor(reg, SqlName(o), p, reg.objects[o][p], (spec.name, spec.column), spec.constraint)
  {
    EnumerationColumn(reg, o, p, reg.objects[o][p], SqlName(o), reg.types[reg.objects[o][p].typ].value);
  }

  lemma SpecIsBuiltin(reg: Registry, o: string, p: string)
    requires ValidRegistry(reg) && HasProperty(reg, o, p)
    requires !IsReference(reg.objects[o][p].typ) && reg.objects[o][p].typ !in reg.types
    ensures var spec := Spec(reg, o, p);
      BuiltinFor(p, reg.objects[o][p], (spec.name, spec.column), spec.constraint)
  {
    var definition := reg.objects[o][p];
    assert KnownType(reg, definition.typ);
    var typ :=
      if definition.typ == "Boolean" then BooleanType else if definition.typ == "Timestamp" then TimestampTz else Text;
    PlainColumn(reg, o, p, definition, typ);
  }

  lemma SpecIsColumnFor(reg: Registry, o: string, p: string)
    requires ValidRegistry(reg) && BaselineScript(reg).Some? && HasProperty(reg, o, p) && ObjectLists(reg, o)
    ensures var spec := Spec(reg, o, p);
      ColumnFor(reg, BaselineScript(reg).value, SqlName(o), p, reg.objects[o][p], (spec.name, spec.column),
                spec.constraint)
  {
    var typ := reg.objects[o][p].typ;
    NoReferenceIff(typ);
    if x :| IsReferenceTo(typ, x) {
      SpecIsReference(reg, o, p, x);
    } else if typ in reg.types {
      SpecIsEnumeration(reg, o, p);
    } else {
      SpecIsBuiltin(reg, o, p);
    }
  }

  /** What the baseline script has for a property: its column, in the place of its name among the properties', and its
      constraint, both as the property's type and flags say. */
  lemma SchemaColumns(reg: Registry, i: nat, k: nat)
    requires ValidRegistry(reg) && BaselineScript(reg).Some? && i < |reg.objects|
    requires SortSet(reg.objects.Keys)[i] in reg.objects
    requires k < |SortSet(reg.objects[SortSet(reg.objects.Keys)[i]].Keys)|
    ensures var script, o := BaselineScript(reg).value, SortSet(reg.objects.Keys)[i];
      var names := SortSet(reg.objects[o].Keys);
      && IsTableOf(reg, script, i, o)
      && |script[i].columns| == |names| + 2 && names[k] in reg.objects[o]
      && exists constraint ::
           && ColumnFor(reg, script, script[i].table, names[k], reg.objects[o][names[k]], script[i].columns[k + 1],
                        constraint)
           && (constraint.Some? ==> constraint.value in script[i].constraints)
  {
    var o := SortSet(reg.objects.Keys)[i];
    var names := SortSet(reg.objects[o].Keys);
    SchemaStatement(reg, i);
    ColumnsInOrder(reg, o, names, ColumnPairs(Sorted(SpecsOf(reg, o))));
    SpecIsColumnFor(reg, o, names[k]);
    ConstraintListed(reg, o, names, k);
  }

  lemma ConstraintListed(reg: Registry, o: string, names: seq<string>, k: nat)
    requires ValidRegistry(reg) && o in reg.objects && names == SortSet(reg.objects[o].Keys) && k < |names|
    ensures names[k] in reg.objects[o]
    ensures Spec(reg, o, names[k]).constraint.Some? ==>
      Spec(reg, o, names[k]).constraint.value in ConstraintPairs(Sorted(SpecsOf(reg, o)))
  {
    NamesOfSpecs(reg, o, names);
    assert names[k] in names;
    ConstraintPairsMembers(Sorted(SpecsOf(reg, o)));
    assert Sorted(SpecsOf(reg, o))[k] == SpecsOf(reg, o)[names[k]];
  }

  // ----- the migration

  lemma BlockTable(table: string, spec: ColumnSpec, backfill: Option<Literal>)
    ensures forall stmt :: stmt in Block(table, spec, backfill) ==> !stmt.CreateTable? && stmt.table == table
  {
  }

  /** The statement is about the table of the object. */
  ghost predicate About(stmt: Statement, o: string) {
    && stmt.table == SqlName(o)
    && (forall x :: '.' !in x && o == "approval.object." + x ==> stmt.table == "approval_" + x)
    && ('.' !in o ==> stmt.table == o)
  }

  lemma NamedForObject(stmt: Statement, o: string)
    requires stmt.table == SqlName(o)
    ensures About(stmt, o)
  {
    forall x | '.' !in x && o == "approval.object." + x ensures stmt.table == "approval_" + x {
      ApprovalObjectName(x);
    }
    if '.' !in o {
      PlainName(o);
    }
  }

  lemma ChangeTable(cur: Registry, change: Change)
    requires ValidRegistry(cur) && RefersTo(cur, change) && ChangeStatements(cur, change).Some?
    ensures forall stmt :: stmt in ChangeStatements(cur, change).value ==> Serves(stmt, change)
  {
    if change.PropertyAdded? {
      var o, p := change.objectId, change.property;
      BlockTable(SqlName(o), Spec(cur, o, p), None);
      if BackfillLiteral(cur, o, p).Some? {
        BlockTable(SqlName(o), Spec(cur, o, p), BackfillLiteral(cur, o, p));
      }
    }
    forall stmt | stmt in ChangeStatements(cur, change).value ensures Serves(stmt, change) {
      NamedForObject(stmt, change.objectId);
    }
  }

  ghost predicate Serves(stmt: Statement, change: Change) {
    About(stmt, change.objectId) && (stmt.CreateTable? <==> change.ObjectAdded?)
  }

  ghost predicate AllRefer(cur: Registry, changes: seq<Change>) {
    forall c | c in changes :: RefersTo(cur, c)
  }

  ghost predicate AmongFirst(cur: Registry, changes: seq<Change>, n: int, stmt: Statement)
    requires ValidRegistry(cur) && AllRefer(cur, changes) && 0 <= n <= |changes|
  {
    AllStatements(cur, changes[..n]).Some? && stmt in AllStatements(cur, changes[..n]).value
  }

  ghost predicate Emitted(cur: Registry, change: Change, stmt: Statement)
    requires ValidRegistry(cur)
  {
    RefersTo(cur, change) && ChangeStatements(cur, change).Some? && stmt in ChangeStatements(cur, change).value
  }

  lemma StatementStep(cur: Registry, changes: seq<Change>, n: nat, stmt: Statement)
    requires ValidRegistry(cur) && AllRefer(cur, changes) && n <= |changes| && AmongFirst(cur, changes, n, stmt)
    ensures n > 0 && (AmongFirst(cur, changes, n - 1, stmt) || Emitted(cur, changes[n - 1], stmt))
  {
    if n > 0 {
      var i := n - 1;
      AllStatementsStep(cur, changes, i);
      assert changes[i] in changes;
      AppendMember(AllStatements(cur, changes[..i]), ChangeStatements(cur, changes[i]), stmt);
    }
  }

  lemma AppendMember(a: Option<seq<Statement>>, b: Option<seq<Statement>>, stmt: Statement)
    requires Append(a, b).Some? && stmt in Append(a, b).value
    ensures a.Some? && b.Some? && (stmt in a.value || stmt in b.value)
  {
  }

  lemma {:induction false} StatementOf(cur: Registry, changes: seq<Change>, n: nat, stmt: Statement) returns (i: nat)
    requires ValidRegistry(cur) && AllRefer(cur, changes) && n <= |changes| && AmongFirst(cur, changes, n, stmt)
    ensures i < |changes| && Emitted(cur, changes[i], stmt)
  {
    StatementStep(cur, changes, n, stmt);
    i := n - 1;
    if AmongFirst(cur, changes, n - 1, stmt) {
      i := StatementOf(cur, changes, n - 1, stmt);
    }
  }

  /** A migration creates tables for new objects and alters those of kept ones, and calls them as the schema does. */
  lemma MigrationTables(cur: Registry, prev: Registry, stmt: Statement)
    requires ValidRegistry(cur) && MigrationScript(prev, cur).Some? && stmt in MigrationScript(prev, cur).value
    ensures exists o :: o in cur.objects && About(stmt, o) && (stmt.CreateTable? <==> o !in prev.objects)
  {
    var c := ChangeOf(cur, prev, stmt);
    ChangeTable(cur, c);
    assert About(stmt, c.objectId);
  }

  lemma ChangeOf(cur: Registry, prev: Registry, stmt: Statement) returns (c: Change)
    requires ValidRegistry(cur) && MigrationScript(prev, cur).Some? && stmt in MigrationScript(prev, cur).value
    ensures IsDifference(cur, prev, c) && !c.Blocked() && Emitted(cur, c, stmt)
  {
    DiffRefersToCurrent(cur, prev);
    ChangesExact(cur, prev);
    var changes := Changes(cur, prev);
    assert changes[..|changes|] == changes;
    var i := StatementOf(cur, changes, |changes|, stmt);
    c := changes[i];
    assert c in changes;
  }
}
