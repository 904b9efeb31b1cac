/** From a migration plan to SQL statements, tools/semantic_platform_generate.py. */
module MigrationSql {
  import opened Ordering
  import opened Values
  import opened Registry
  import opened Database
  import opened SqlLiteral
  import opened SchemaCompiler
  import opened MigrationPlan

  predicate LiteralFor(operation: Operation, o: string, p: string) {
    && operation.Operation? && operation.property == Some(PropertyRef(o, p))
    && operation.backfill.Some? && operation.backfill.value.Backfill? && operation.backfill.value.strategy == "literal"
  }

  /** `_property_backfill`: the first matching operation with a literal backfill; `None` when it raises. */
  function PropertyBackfill(operations: seq<Operation>, o: string, p: string): Option<Backfill> {
    if operations == [] || operations[0].MalformedOperation? then None
    else if LiteralFor(operations[0], o, p) then operations[0].backfill
    else PropertyBackfill(operations[1..], o, p)
  }

  /** The constant the text of `_sql_literal` denotes; lists and objects are its error. */
  function LiteralOf(value: Json): Option<Literal> {
    match value
    case JNull => Some(NullLiteral)
    case JBool(b) => Some(BooleanLiteral(b))
    case JNumber(_, text) => Some(NumberLiteral(text))
    case JString(s) => Some(TextLiteral(s))
    case JArray(_) => None
    case JObject(_) => None
  }

  /** The statement carries the constant that the emitted text is read as. */
  lemma LiteralIsRead(value: Json)
    requires value.JNumber? ==> IsNumberText(value.text)
    ensures LiteralOf(value) == match LiteralText(value) case None => None case Some(text) => ReadConstant(text)
    ensures IsConstantOf(value, LiteralOf(value))
  {
    LiteralTextIsRead(value);
  }

  /** The backfill at `k` is the first literal one for the property, and everything before it is well formed. */
  ghost predicate FirstLiteral(operations: seq<Operation>, k: int, o: string, p: string, backfill: Backfill) {
    && 0 <= k < |operations|
    && operations[k] == Operation(Some(PropertyRef(o, p)), Some(backfill))
    && backfill.Backfill? && backfill.strategy == "literal"
    && forall j :: 0 <= j < k ==> operations[j].Operation? && !IsLiteralFor(operations[j], o, p)
  }

  predicate IsLiteralFor(operation: Operation, o: string, p: string) {
    match operation
    case Operation(Some(PropertyRef(objectId, name)), Some(Backfill(strategy, _))) =>
      objectId == o && name == p && strategy == "literal"
    case _ => false
  }

  lemma {:induction false} BackfillIsFirstLiteral(operations: seq<Operation>, o: string, p: string)
    ensures forall backfill :: PropertyBackfill(operations, o, p) == Some(backfill) <==>
      exists k :: FirstLiteral(operations, k, o, p, backfill)
  {
    if operations != [] {
      BackfillIsFirstLiteral(operations[1..], o, p);
      forall backfill ensures PropertyBackfill(operations, o, p) == Some(backfill) <==>
        exists k :: FirstLiteral(operations, k, o, p, backfill)
      {
        LiteralStep(operations, o, p, backfill);
      }
    }
  }

  lemma LiteralStep(operations: seq<Operation>, o: string, p: string, backfill: Backfill)
    requires operations != []
    requires PropertyBackfill(operations[1..], o, p) == Some(backfill) <==>
      exists k :: FirstLiteral(operations[1..], k, o, p, backfill)
    ensures PropertyBackfill(operations, o, p) == Some(backfill) <==>
      exists k :: FirstLiteral(operations, k, o, p, backfill)
  {
    var rest := operations[1..];
    assert forall k :: 0 <= k < |rest| ==> rest[k] == operations[k + 1];
    if PropertyBackfill(operations, o, p) == Some(backfill) {
      if LiteralFor(operations[0], o, p) {
        assert FirstLiteral(operations, 0, o, p, backfill);
      } else {
        var k :| FirstLiteral(rest, k, o, p, backfill);
        assert forall j :: 0 < j < k + 1 ==> operations[j] == rest[j - 1];
        assert FirstLiteral(operations, k + 1, o, p, backfill);
      }
    }
    if k :| FirstLiteral(operations, k, o, p, backfill) {
      if k > 0 {
        assert operations[0].Operation? && !IsLiteralFor(operations[0], o, p);
        assert FirstLiteral(rest, k - 1, o, p, backfill);
      }
    }
  }

  /** The literal a required addition is filled with; `None` when `_add_property_sql` raises. */
  function BackfillLiteral(reg: Registry, o: string, p: string): Option<Literal> {
    match DeclaredMigration(reg.migrations, o, p)
    case None => None
    case Some(migration) =>
      match PropertyBackfill(migration.operations.value, o, p)
      case None => None
      case Some(MalformedBackfill) => None
      case Some(Backfill(_, None)) => None
      case Some(Backfill(_, Some(value))) => LiteralOf(value)
  }

  // ----- the statements of one change

  function UniqueName(table: string, column: string): string {
    "uq_" + table + "_" + column
  }

  function ConstraintStatement(table: string, spec: ColumnSpec): seq<Statement> {
    match spec.constraint
    case None => []
    case Some((name, constraint)) => [AddConstraint(table, name, constraint)]
  }

  /** The column as it is first added when a backfill follows: its bare type. */
  function BareColumn(column: Column): Column {
    Column(column.typ, false, NotUnique, None)
  }

  /** The statements of `_add_property_sql`; with a backfill literal, the filling block. */
  function Block(table: string, spec: ColumnSpec, backfill: Option<Literal>): seq<Statement> {
    match backfill
    case None => [AddColumn(table, spec.name, spec.column)] + ConstraintStatement(table, spec)
    case Some(v) =>
      [AddColumn(table, spec.name, BareColumn(spec.column))]
      + [UpdateWhereNull(table, spec.name, v), SetNotNull(table, spec.name)]
      + (if spec.column.unique == InlineUnique then [AddUnique(table, UniqueName(table, spec.name), spec.name)] else [])
      + ConstraintStatement(table, spec)
  }

  predicate RefersTo(reg: Registry, change: Change) {
    match change
    case ObjectAdded(o) => o in reg.objects
    case PropertyAdded(o, p, _, _, _) => HasProperty(reg, o, p)
    case _ => true
  }

  function AddPropertyStatements(reg: Registry, change: Change): Option<seq<Statement>>
    requires ValidRegistry(reg) && change.PropertyAdded? && RefersTo(reg, change)
  {
    var o, p := change.objectId, change.property;
    if !ListsValues(reg, reg.objects[o][p].typ) then None
    else if change.Classification() != "breaking_with_backfill" then Some(Block(SqlName(o), Spec(reg, o, p), None))
    else
      match BackfillLiteral(reg, o, p)
      case None => None
      case Some(v) => Some(Block(SqlName(o), Spec(reg, o, p), Some(v)))
  }

  function ChangeStatements(reg: Registry, change: Change): Option<seq<Statement>>
    requires ValidRegistry(reg) && RefersTo(reg, change)
  {
    match change
    case ObjectAdded(o) => if ObjectLists(reg, o) then Some([CreateFrom(SqlName(o), Sorted(SpecsOf(reg, o)))]) else None
    case PropertyAdded(_, _, _, _, _) => AddPropertyStatements(reg, change)
    case _ => Some([])
  }

  function Append(a: Option<seq<Statement>>, b: Option<seq<Statement>>): Option<seq<Statement>> {
    if a.Some? && b.Some? then Some(a.value + b.value) else None
  }

  function AllStatements(reg: Registry, changes: seq<Change>): Option<seq<Statement>>
    requires ValidRegistry(reg) && forall change | change in changes :: RefersTo(reg, change)
  {
    if changes == [] then Some([])
    else Append(AllStatements(reg, changes[..|changes| - 1]), ChangeStatements(reg, changes[|changes| - 1]))
  }

  /** `_migration_sql` without its comments; `None` when it raises. */
  function Script(reg: Registry, plan: Plan): Option<seq<Statement>>
    requires ValidRegistry(reg) && forall change | change in plan.changes :: RefersTo(reg, change)
  {
    if plan.mode == Baseline || plan.blocked then Some([]) else AllStatements(reg, plan.changes)
  }

  // ----- the emitters' steps

  method AddPropertySql(reg: Registry, change: Change) returns (stmts: Option<seq<Statement>>)
    requires ValidRegistry(reg) && change.PropertyAdded? && RefersTo(reg, change)
    ensures stmts == AddPropertyStatements(reg, change)
  {
    var o, p := change.objectId, change.property;
    ValidatedColumnsResolve(reg, o, p);
    var column := SqlColumn(reg, o, p, reg.objects[o][p]);
    if column == None {
      return None;
    }
    var literal: Option<Literal> := None;
    if change.Classification() == "breaking_with_backfill" {
      literal := BackfillLiteral(reg, o, p);
      if literal == None {
        return None;
      }
    }
    var lines := BlockSql(SqlName(o), column.value, literal);
    return Some(lines);
  }

  /** The statements that `_add_property_sql` appends one by one. */
  method BlockSql(table: string, spec: ColumnSpec, literal: Option<Literal>) returns (lines: seq<Statement>)
    ensures lines == Block(table, spec, literal)
  {
    lines := [];
    if literal.Some? {
      lines := lines + [AddColumn(table, spec.name, BareColumn(spec.column))];
      lines := lines + [UpdateWhereNull(table, spec.name, literal.value)];
      lines := lines + [SetNotNull(table, spec.name)];
      if spec.column.unique == InlineUnique {
        lines := lines + [AddUnique(table, UniqueName(table, spec.name), spec.name)];
      }
    } else {
      lines := lines + [AddColumn(table, spec.name, spec.column)];
    }
    if spec.constraint.Some? {
      lines := lines + [AddConstraint(table, spec.constraint.value.0, spec.constraint.value.1)];
    }
  }

  /** The loop's branches on the kind of a change. */
  method ChangeSql(reg: Registry, change: Change) returns (stmts: Option<seq<Statement>>)
    requires ValidRegistry(reg) && RefersTo(reg, change)
    ensures stmts == ChangeStatements(reg, change)
  {
    if change.ObjectAdded? {
      var stmt := CreateTableSql(reg, change.objectId);
      return if stmt == None then None else Some([stmt.value]);
    } else if change.PropertyAdded? {
      stmts := AddPropertySql(reg, change);
    } else {
      return Some([]);
    }
  }

  lemma AllStatementsStep(reg: Registry, changes: seq<Change>, i: nat)
    requires ValidRegistry(reg) && (forall change | change in changes :: RefersTo(reg, change)) && i < |changes|
    ensures AllStatements(reg, changes[..i + 1]) ==
      Append(AllStatements(reg, changes[..i]), ChangeStatements(reg, changes[i]))
  {
    assert changes[..i + 1][..i] == changes[..i];
  }

  method MigrationSqlOf(reg: Registry, plan: Plan) returns (script: Option<seq<Statement>>)
    requires ValidRegistry(reg) && forall change | change in plan.changes :: RefersTo(reg, change)
    ensures script == Script(reg, plan)
  {
    if plan.mode == Baseline || plan.blocked {
      return Some([]);
    }
    var lines: seq<Statement> := [];
    for i := 0 to |plan.changes|
      invariant Some(lines) == AllStatements(reg, plan.changes[..i])
    {
      AllStatementsStep(reg, plan.changes, i);
      FailurePropagates(reg, plan.changes, i + 1);
      var stmts := ChangeSql(reg, plan.changes[i]);
      if stmts == None {
        return None;
      }
      lines := lines + stmts.value;
    }
    assert plan.changes[..|plan.changes|] == plan.changes;
    return Some(lines);
  }

  lemma {:induction false} FailurePropagates(reg: Registry, changes: seq<Change>, i: nat)
    requires ValidRegistry(reg) && (forall change | change in changes :: RefersTo(reg, change)) && i <= |changes|
    ensures AllStatements(reg, changes[..i]) == None ==> AllStatements(reg, changes) == None
    decreases |changes| - i
  {
    if i < |changes| {
      assert changes[..i + 1][..i] == changes[..i];
      FailurePropagates(reg, changes, i + 1);
    } else {
      assert changes[..i] == changes;
    }
  }

  /** `_migration_artifacts`: the plan, then its script; `None` when either raises. */
  method MigrationArtifacts(reg: Registry, previous: Option<Registry>) returns (made: Option<(Plan, seq<Statement>)>)
    requires ValidRegistry(reg)
    ensures made == match previous
      case None => Some((Plan(Baseline, "no_previous_registry", false, [], []), []))
      case Some(prev) =>
        if PlanRaises(reg, prev) || MigrationScript(prev, reg) == None then None
        else Some((DiffPlan(reg, prev), MigrationScript(prev, reg).value))
  {
    var plan := MigrationPlanOf(reg, previous);
    if plan == None {
      return None;
    }
    if previous.Some? {
      DiffRefersToCurrent(reg, previous.value);
    }
    var script := MigrationSqlOf(reg, plan.value);
    return if script == None then None else Some((plan.value, script.value));
  }

  lemma DiffRefersToCurrent(cur: Registry, prev: Registry)
    ensures forall change | change in DiffPlan(cur, prev).changes :: RefersTo(cur, change)
  {
    ChangesExact(cur, prev);
  }

  /** The migration script from `prev` to `cur`. */
  function MigrationScript(prev: Registry, cur: Registry): Option<seq<Statement>>
    requires ValidRegistry(cur)
  {
    DiffRefersToCurrent(cur, prev);
    Script(cur, DiffPlan(cur, prev))
  }

  // ----- when emission raises

  lemma {:induction false} AllStatementsIff(reg: Registry, changes: seq<Change>)
    requires ValidRegistry(reg) && forall change | change in changes :: RefersTo(reg, change)
    ensures AllStatements(reg, changes).Some? <==>
      forall change :: change in changes ==> ChangeStatements(reg, change).Some?
  {
    if changes != [] {
      var init, last := changes[..|changes| - 1], changes[|changes| - 1];
      assert changes == init + [last];
      AllStatementsIff(reg, init);
    }
  }

  /** A required property new on an object both registries have. */
  predicate RequiredAddition(cur: Registry, prev: Registry, o: string, p: string) {
    o in prev.objects && HasProperty(cur, o, p) && p !in prev.objects[o] && cur.objects[o][p].required
  }

  /** The script creates the property's column: its object is new, or is kept and did not have it. */
  predicate NewProperty(cur: Registry, prev: Registry, o: string, p: string) {
    HasProperty(cur, o, p) && !HasProperty(prev, o, p)
  }

  /** What makes the emission of one property raise. */
  ghost predicate PropertyRaises(cur: Registry, prev: Registry, o: string, p: string) {
    || (NewProperty(cur, prev, o, p) && !ListsValues(cur, cur.objects[o][p].typ))
    || (RequiredAddition(cur, prev, o, p) && BackfillLiteral(cur, o, p) == None)
  }

  lemma ChangeRaisesIff(cur: Registry, prev: Registry, change: Change)
    requires ValidRegistry(cur) && RefersTo(cur, change)
    requires IsDifference(cur, prev, change) && !change.Blocked()
    ensures ChangeStatements(cur, change) == None <==>
      || (change.PropertyAdded? && PropertyRaises(cur, prev, change.objectId, change.property))
      || (change.ObjectAdded? && exists p :: PropertyRaises(cur, prev, change.objectId, p))
  {
    if change.ObjectAdded? {
      var o := change.objectId;
      forall p ensures PropertyRaises(cur, prev, o, p) <==>
        HasProperty(cur, o, p) && !ListsValues(cur, cur.objects[o][p].typ) {
      }
    }
  }

  lemma RaisingPropertyIsChanged(cur: Registry, prev: Registry, o: string, p: string) returns (change: Change)
    requires PropertyRaises(cur, prev, o, p)
    ensures IsDifference(cur, prev, change) && change.objectId == o
    ensures change.ObjectAdded? || (change.PropertyAdded? && change.property == p)
  {
    change := if o in prev.objects then AddedProperty(cur, o, p) else ObjectAdded(o);
  }

  lemma SomeChangeRaisesIff(cur: Registry, prev: Registry, changes: seq<Change>)
    requires ValidRegistry(cur) && forall c | c in changes :: RefersTo(cur, c) && !c.Blocked()
    requires forall c :: c in changes <==> IsDifference(cur, prev, c)
    ensures AllStatements(cur, changes) == None <==> exists o, p :: PropertyRaises(cur, prev, o, p)
  {
    AllStatementsIff(cur, changes);
    if change :| change in changes && ChangeStatements(cur, change) == None {
      ChangeRaisesIff(cur, prev, change);
    }
    if o, p :| PropertyRaises(cur, prev, o, p) {
      var change := RaisingPropertyIsChanged(cur, prev, o, p);
      assert change in changes;
      ChangeRaisesIff(cur, prev, change);
    }
  }

  /** Emission of a ready plan raises exactly when a property the script creates is of an enumeration that lists no
      values, or the migration found for some required addition to a kept object has no literal backfill with a scalar
      value: validation asks for no values, and the planner accepts any backfill member. */
  lemma EmissionRaisesIff(cur: Registry, prev: Registry)
    requires ValidRegistry(cur) && !DiffPlan(cur, prev).blocked
    ensures MigrationScript(prev, cur) == None <==> exists o, p :: PropertyRaises(cur, prev, o, p)
  {
    ChangesExact(cur, prev);
    DiffRefersToCurrent(cur, prev);
    SomeChangeRaisesIff(cur, prev, DiffPlan(cur, prev).changes);
  }
}
