/** When the server can read a generated script: in terms of the registries it comes from. */
module Legibility {
  import opened Ordering
  import opened Values
  import opened Registry
  import opened Database
  import opened StaticChecks
  import opened SchemaCompiler
  import opened Schema
  import opened MigrationPlan
  import opened MigrationSql
  import opened Refinement
  import opened MigrationRun
  import opened SchemaRefinement

  /** The column's name, and the name, the list or the target of its constraint. */
  ghost predicate ReadsSpec(pg: Server, spec: ColumnSpec) {
    && ReadsColumn(pg, spec.name)
    && (spec.constraint.Some? ==> LegibleConstraint(pg, spec.constraint.value.0, spec.constraint.value.1))
  }

  ghost predicate ReadsTable(pg: Server, item: NewTable) {
    pg.accepts(TableName, item.name) && forall p :: p in item.specs ==> ReadsSpec(pg, item.specs[p])
  }

  /** As the compiler makes them: no UNIQUE with a name, and constraints on their own columns. */
  ghost predicate Compiled(specs: map<string, ColumnSpec>) {
    && ConstraintNamesApart(specs) && ConstraintsOwnColumn(specs)
    && forall p :: p in specs ==> !specs[p].column.unique.NamedUnique?
  }

  lemma ColumnIsListed(specs: map<string, ColumnSpec>, names: seq<string>, p: string)
    requires Enumerates(names, specs) && p in specs
    ensures (specs[p].name, specs[p].column) in ColumnPairs(Listed(specs, names))
  {
    PositionsCover(specs, names);
    var i :| 0 <= i < |names| && names[i] == p;
    assert ColumnPairs(Listed(specs, names))[i + 1] == (specs[p].name, specs[p].column);
  }

  lemma ListedColumn(specs: map<string, ColumnSpec>, names: seq<string>, c: (string, Column))
    requires Enumerates(names, specs) && c in ColumnPairs(Listed(specs, names))
    ensures c == ("id", ID_COLUMN) || c == ("version", VERSION_COLUMN)
      || exists p :: p in specs && c == (specs[p].name, specs[p].column)
  {
    var pairs := ColumnPairs(Listed(specs, names));
    var i :| 0 <= i < |pairs| && pairs[i] == c;
    if 0 < i < |pairs| - 1 {
      assert names[i - 1] in names;
      assert pairs[i] == (specs[names[i - 1]].name, specs[names[i - 1]].column);
    }
  }

  lemma ColumnsLegibleIff(pg: Server, table: string, specs: map<string, ColumnSpec>, names: seq<string>)
    requires Enumerates(names, specs) && Compiled(specs)
    ensures (forall c | c in ColumnPairs(Listed(specs, names)) :: LegibleColumn(pg, c.0, c.1)) <==>
      forall p :: p in specs ==> ReadsColumn(pg, specs[p].name)
  {
    forall p | p in specs ensures (specs[p].name, specs[p].column) in ColumnPairs(Listed(specs, names)) {
      ColumnIsListed(specs, names, p);
    }
    forall c | c in ColumnPairs(Listed(specs, names))
      ensures c == ("id", ID_COLUMN) || c == ("version", VERSION_COLUMN)
        || exists p :: p in specs && c == (specs[p].name, specs[p].column)
    {
      ListedColumn(specs, names, c);
    }
  }

  lemma ConstraintsLegibleIff(pg: Server, specs: map<string, ColumnSpec>, names: seq<string>)
    requires Enumerates(names, specs) && Compiled(specs)
    ensures (forall k | k in ConstraintPairs(Listed(specs, names)) :: LegibleConstraint(pg, k.0, k.1)) <==>
      forall p :: p in specs && specs[p].constraint.Some? ==>
        LegibleConstraint(pg, specs[p].constraint.value.0, specs[p].constraint.value.1)
  {
    ConstraintsListed(specs, names);
    var pairs := ConstraintPairs(Listed(specs, names));
    if forall k | k in pairs :: LegibleConstraint(pg, k.0, k.1) {
      forall p | p in specs && specs[p].constraint.Some?
        ensures LegibleConstraint(pg, specs[p].constraint.value.0, specs[p].constraint.value.1)
      {
        assert specs[p].constraint == Some(specs[p].constraint.value);
        assert specs[p].constraint.value in pairs;
      }
    }
  }

  lemma CreateLegibleIff(pg: Server, item: NewTable)
    requires Compiled(item.specs)
    ensures Legible(pg, CreateOf(item)) <==> ReadsTable(pg, item)
  {
    var names := SortSet(item.specs.Keys);
    ColumnsLegibleIff(pg, item.name, item.specs, names);
    ConstraintsLegibleIff(pg, item.specs, names);
  }

  lemma LegibleConcat(pg: Server, a: seq<Statement>, b: seq<Statement>)
    ensures AllLegible(pg, a + b) <==> AllLegible(pg, a) && AllLegible(pg, b)
  {
    assert forall stmt :: stmt in a ==> stmt in a + b;
    assert forall stmt :: stmt in b ==> stmt in a + b;
  }

  lemma LegibleOne(pg: Server, stmt: Statement)
    ensures AllLegible(pg, [stmt]) <==> Legible(pg, stmt)
  {
    assert stmt in [stmt];
  }

  lemma ConstraintStatementLegibleIff(pg: Server, table: string, spec: ColumnSpec)
    requires pg.accepts(TableName, table)
    ensures AllLegible(pg, ConstraintStatement(table, spec)) <==>
      (spec.constraint.Some? ==> LegibleConstraint(pg, spec.constraint.value.0, spec.constraint.value.1))
  {
    if spec.constraint.Some? {
      LegibleOne(pg, AddConstraint(table, spec.constraint.value.0, spec.constraint.value.1));
    }
  }

  lemma BlockLegibleIff(pg: Server, table: string, spec: ColumnSpec, backfill: Option<Literal>)
    requires !spec.column.unique.NamedUnique?
    ensures AllLegible(pg, Block(table, spec, backfill)) <==>
      && pg.accepts(TableName, table) && ReadsSpec(pg, spec)
      && (backfill.Some? && spec.column.unique == InlineUnique ==>
            pg.accepts(ConstraintName, UniqueName(table, spec.name)))
  {
    var tail := ConstraintStatement(table, spec);
    if pg.accepts(TableName, table) {
      ConstraintStatementLegibleIff(pg, table, spec);
    }
    match backfill {
      case None =>
        LegibleOne(pg, AddColumn(table, spec.name, spec.column));
        LegibleConcat(pg, [AddColumn(table, spec.name, spec.column)], tail);
      case Some(v) =>
        var add := AddColumn(table, spec.name, BareColumn(spec.column));
        var fill := [UpdateWhereNull(table, spec.name, v), SetNotNull(table, spec.name)];
        var unique := AddUnique(table, UniqueName(table, spec.name), spec.name);
        var middle := if spec.column.unique == InlineUnique then [unique] else [];
        LegibleOne(pg, add);
        LegibleOne(pg, unique);
        LegibleConcat(pg, [add], fill);
        LegibleConcat(pg, [add] + fill, middle);
        LegibleConcat(pg, [add] + fill + middle, tail);
        assert Block(table, spec, backfill) == [add] + fill + middle + tail;
        assert pg.accepts(TableName, table) && ReadsColumn(pg, spec.name) ==> AllLegible(pg, fill);
    }
  }

  // ----- registries

  lemma SpecsAreCompiled(reg: Registry, o: string)
    requires ValidRegistry(reg) && o in reg.objects
    ensures Compiled(SpecsOf(reg, o))
  {
    SpecsAreLawful(reg, o);
    forall p | p in reg.objects[o] ensures !SpecsOf(reg, o)[p].column.unique.NamedUnique? {
      SpecFlags(reg, o, p);
    }
  }

  lemma ReadsSpecMeansReadable(pg: Server, reg: Registry, o: string, p: string)
    requires ValidRegistry(reg) && HasProperty(reg, o, p) && ReadsSpec(pg, Spec(reg, o, p))
    ensures ReadableType(reg, reg.objects[o][p].typ)
  {
    EnumerationReadable(reg, o, p);
  }

  /** The server can read every name, list and target of the registry's tables. */
  ghost predicate AllNamesRead(pg: Server, reg: Registry)
    requires ValidRegistry(reg)
  {
    && (forall o :: o in reg.objects ==> pg.accepts(TableName, SqlName(o)))
    && (forall o, p :: HasProperty(reg, o, p) ==> ReadsSpec(pg, Spec(reg, o, p)))
  }

  lemma ReadsObjectIff(pg: Server, reg: Registry, o: string)
    requires ValidRegistry(reg) && o in reg.objects
    ensures ReadsTable(pg, NewTable(SqlName(o), SpecsOf(reg, o))) <==>
      pg.accepts(TableName, SqlName(o)) && forall p :: HasProperty(reg, o, p) ==> ReadsSpec(pg, Spec(reg, o, p))
  {
    assert forall p :: HasProperty(reg, o, p) ==> SpecsOf(reg, o)[p] == Spec(reg, o, p);
  }

  lemma {:induction false} CreatesLegibleIff(pg: Server, items: seq<NewTable>)
    requires forall item :: item in items ==> Compiled(item.specs)
    ensures AllLegible(pg, Creates(items)) <==> forall item :: item in items ==> ReadsTable(pg, item)
  {
    if items != [] {
      assert items == [items[0]] + items[1..];
      CreatesLegibleIff(pg, items[1..]);
      CreateLegibleIff(pg, items[0]);
      LegibleOne(pg, CreateOf(items[0]));
      LegibleConcat(pg, [CreateOf(items[0])], Creates(items[1..]));
    }
  }

  /** What holds of the table made for each object holds of each table in the list, and conversely. */
  lemma EachObject(items: seq<NewTable>, ids: seq<string>, objects: set<string>, made: string -> NewTable,
                   ok: NewTable -> bool)
    requires |items| == |ids| && forall o :: o in ids <==> o in objects
    requires forall i :: 0 <= i < |ids| ==> items[i] == made(ids[i])
    ensures (forall item :: item in items ==> ok(item)) <==> forall o :: o in objects ==> ok(made(o))
  {
    forall o | o in objects ensures made(o) in items {
      assert o in ids;
      var i :| 0 <= i < |ids| && ids[i] == o;
      assert items[i] == made(o);
    }
    assert forall i :: 0 <= i < |ids| ==> ids[i] in ids;
  }

  lemma EachPair(items: seq<NewTable>, ids: seq<string>, objects: set<string>, made: string -> NewTable,
                 fold: string -> string)
    requires |items| == |ids| && Distinct(ids) && forall o :: o in ids <==> o in objects
    requires forall i :: 0 <= i < |ids| ==> items[i] == made(ids[i])
    ensures (forall i, j :: 0 <= i < j < |items| ==> fold(items[i].name) != fold(items[j].name)) <==>
      forall a, b :: a in objects && b in objects && a != b ==> fold(made(a).name) != fold(made(b).name)
  {
    assert forall i :: 0 <= i < |ids| ==> ids[i] in ids;
    if forall i, j :: 0 <= i < j < |items| ==> fold(items[i].name) != fold(items[j].name) {
      forall a, b | a in objects && b in objects && a != b ensures fold(made(a).name) != fold(made(b).name) {
        assert a in ids && b in ids;
        var i :| 0 <= i < |ids| && ids[i] == a;
        var j :| 0 <= j < |ids| && ids[j] == b;
        assert fold(items[if i < j then i else j].name) != fold(items[if i < j then j else i].name);
      }
    }
  }

  ghost function MadeFor(reg: Registry): string -> NewTable
    requires ValidRegistry(reg)
  {
    o => if o in reg.objects then NewTable(SqlName(o), SpecsOf(reg, o)) else NewTable("", map[])
  }

  lemma ItemsOf(reg: Registry, ids: seq<string>)
    requires ValidRegistry(reg) && ids == SortSet(reg.objects.Keys)
    ensures Distinct(ids) && forall o :: o in ids <==> o in reg.objects.Keys
    ensures forall i :: 0 <= i < |ids| ==> NewTables(reg, ids)[i] == MadeFor(reg)(ids[i])
    ensures forall item :: item in NewTables(reg, ids) ==> Compiled(item.specs)
  {
    forall i | 0 <= i < |ids|
      ensures NewTables(reg, ids)[i] == MadeFor(reg)(ids[i]) && Compiled(NewTables(reg, ids)[i].specs)
    {
      assert ids[i] in ids;
      SpecsAreCompiled(reg, ids[i]);
    }
  }

  ghost function ReadsFor(pg: Server): NewTable -> bool {
    item => ReadsTable(pg, item)
  }

  lemma ReadByObject(pg: Server, reg: Registry)
    requires ValidRegistry(reg)
    ensures AllNamesRead(pg, reg) <==> forall o :: o in reg.objects.Keys ==> ReadsFor(pg)(MadeFor(reg)(o))
  {
    forall o | o in reg.objects ensures ReadsFor(pg)(MadeFor(reg)(o)) <==>
      pg.accepts(TableName, SqlName(o)) && forall p :: HasProperty(reg, o, p) ==> ReadsSpec(pg, Spec(reg, o, p))
    {
      ReadsObjectIff(pg, reg, o);
    }
  }

  lemma BaselineLegibleIff(pg: Server, reg: Registry)
    requires ValidRegistry(reg)
    ensures AllLegible(pg, BaselineSql(reg)) <==> AllNamesRead(pg, reg)
  {
    var ids := SortSet(reg.objects.Keys);
    ItemsOf(reg, ids);
    CreatesLegibleIff(pg, NewTables(reg, ids));
    EachObject(NewTables(reg, ids), ids, reg.objects.Keys, MadeFor(reg), ReadsFor(pg));
    ReadByObject(pg, reg);
  }

  // ----- the migration script

  /** The server can read every name, list and target that a migration to `cur` writes. */
  ghost predicate NewNamesRead(pg: Server, prev: Registry, cur: Registry)
    requires ValidRegistry(cur)
  {
    && (forall o :: o in cur.objects && o !in prev.objects ==> pg.accepts(TableName, SqlName(o)))
    && (forall o, p :: NewProperty(cur, prev, o, p) ==>
          pg.accepts(TableName, SqlName(o)) && ReadsSpec(pg, Spec(cur, o, p)))
    && (forall o, p :: NamesUnique(prev, cur, o, p) ==>
          pg.accepts(ConstraintName, UniqueName(SqlName(o), Spec(cur, o, p).name)))
  }

  ghost predicate ChangeRead(pg: Server, prev: Registry, cur: Registry, change: Change)
    requires ValidRegistry(cur) && RefersTo(cur, change)
  {
    match change
    case ObjectAdded(o) => ReadsTable(pg, NewTable(SqlName(o), SpecsOf(cur, o)))
    case PropertyAdded(o, p, _, _, _) =>
      && pg.accepts(TableName, SqlName(o)) && ReadsSpec(pg, Spec(cur, o, p))
      && (NamesUnique(prev, cur, o, p) ==> pg.accepts(ConstraintName, UniqueName(SqlName(o), Spec(cur, o, p).name)))
    case _ => true
  }

  lemma InlineUniqueIff(reg: Registry, o: string, p: string)
    requires ValidRegistry(reg) && HasProperty(reg, o, p)
    ensures Spec(reg, o, p).column.unique == InlineUnique <==>
      reg.objects[o][p].unique && !IsReference(reg.objects[o][p].typ)
  {
    if !IsReference(reg.objects[o][p].typ) {
      SpecOfEnum(reg, o, p);
    }
  }

  lemma PropertyLegibleIff(pg: Server, prev: Registry, cur: Registry, o: string, p: string)
    requires ValidRegistry(cur) && Adds(prev, cur, o, p) && ChangeStatements(cur, AddedProperty(cur, o, p)).Some?
    ensures AllLegible(pg, ChangeStatements(cur, AddedProperty(cur, o, p)).value) <==>
      ChangeRead(pg, prev, cur, AddedProperty(cur, o, p))
  {
    StatementsAreBlock(prev, cur, o, p);
    SpecFlags(cur, o, p);
    InlineUniqueIff(cur, o, p);
    BlockLegibleIff(pg, SqlName(o), Spec(cur, o, p), BackfillFor(cur, o, p));
  }

  lemma ChangeLegibleIff(pg: Server, prev: Registry, cur: Registry, change: Change)
    requires ValidRegistry(cur) && RefersTo(cur, change) && IsDifference(cur, prev, change) && !change.Blocked()
    requires ChangeStatements(cur, change).Some?
    ensures AllLegible(pg, ChangeStatements(cur, change).value) <==> ChangeRead(pg, prev, cur, change)
  {
    if change.ObjectAdded? {
      var item := NewTable(SqlName(change.objectId), SpecsOf(cur, change.objectId));
      SpecsAreCompiled(cur, change.objectId);
      CreateLegibleIff(pg, item);
      LegibleOne(pg, CreateOf(item));
    } else {
      ChangeRaisesIff(cur, prev, change);
      PropertyLegibleIff(pg, prev, cur, change.objectId, change.property);
    }
  }

  lemma {:induction false} ChangesLegibleIff(pg: Server, prev: Registry, cur: Registry, changes: seq<Change>)
    requires ValidRegistry(cur) && AllStatementsRefer(cur, prev, changes) && AllStatements(cur, changes).Some?
    ensures AllLegible(pg, AllStatements(cur, changes).value) <==>
      forall c :: c in changes ==> ChangeRead(pg, prev, cur, c)
  {
    if changes != [] {
      var init, last := changes[..|changes| - 1], changes[|changes| - 1];
      assert changes == init + [last];
      ChangesLegibleIff(pg, prev, cur, init);
      ChangeLegibleIff(pg, prev, cur, last);
      LegibleConcat(pg, AllStatements(cur, init).value, ChangeStatements(cur, last).value);
    }
  }

  ghost predicate AllStatementsRefer(cur: Registry, prev: Registry, changes: seq<Change>) {
    forall c | c in changes :: RefersTo(cur, c) && IsDifference(cur, prev, c) && !c.Blocked()
  }

  lemma ChangesReadIff(pg: Server, prev: Registry, cur: Registry, changes: seq<Change>)
    requires ValidRegistry(cur) && AllStatementsRefer(cur, prev, changes)
    requires forall c :: c in changes <==> IsDifference(cur, prev, c)
    ensures (forall c :: c in changes ==> ChangeRead(pg, prev, cur, c)) <==> NewNamesRead(pg, prev, cur)
  {
    if forall c :: c in changes ==> ChangeRead(pg, prev, cur, c) {
      forall o | o in cur.objects && o !in prev.objects ensures pg.accepts(TableName, SqlName(o)) {
        assert ObjectAdded(o) in changes;
      }
      forall o, p | NewProperty(cur, prev, o, p)
        ensures pg.accepts(TableName, SqlName(o)) && ReadsSpec(pg, Spec(cur, o, p))
      {
        if o in prev.objects {
          assert AddedProperty(cur, o, p) in changes;
        } else {
          assert ObjectAdded(o) in changes;
          ReadsObjectIff(pg, cur, o);
        }
      }
      forall o, p | NamesUnique(prev, cur, o, p)
        ensures pg.accepts(ConstraintName, UniqueName(SqlName(o), Spec(cur, o, p).name))
      {
        assert AddedProperty(cur, o, p) in changes;
      }
    }
    if NewNamesRead(pg, prev, cur) {
      forall c | c in changes ensures ChangeRead(pg, prev, cur, c) {
        if c.ObjectAdded? {
          ReadsObjectIff(pg, cur, c.objectId);
          forall p | HasProperty(cur, c.objectId, p) ensures ReadsSpec(pg, Spec(cur, c.objectId, p)) {
            assert NewProperty(cur, prev, c.objectId, p);
          }
        } else if c.PropertyAdded? {
          assert NewProperty(cur, prev, c.objectId, c.property);
        }
      }
    }
  }

  /** An emitted script can be read exactly if what it writes of the registry can. */
  lemma ScriptLegibleIff(pg: Server, prev: Registry, cur: Registry)
    requires ValidRegistry(cur) && Ready(cur, prev) && MigrationScript(prev, cur).Some?
    ensures AllLegible(pg, MigrationScript(prev, cur).value) <==> NewNamesRead(pg, prev, cur)
  {
    var changes := Changes(cur, prev);
    ReadyScript(prev, cur);
    ChangesLegibleIff(pg, prev, cur, changes);
    ChangesReadIff(pg, prev, cur, changes);
  }

  lemma ReadyScript(prev: Registry, cur: Registry)
    requires ValidRegistry(cur) && Ready(cur, prev)
    ensures AllStatementsRefer(cur, prev, Changes(cur, prev))
    ensures forall c :: c in Changes(cur, prev) <==> IsDifference(cur, prev, c)
    ensures MigrationScript(prev, cur) == AllStatements(cur, Changes(cur, prev))
  {
    BlockedIffNotReady(cur, prev);
    ChangesExact(cur, prev);
    DiffRefersToCurrent(cur, prev);
    forall c | c in Changes(cur, prev) ensures !c.Blocked() {
      ReadyMeansUnblocked(cur, prev, c);
    }
  }
}
