/** From a registry to tables: names, columns and CREATE TABLE, tools/semantic_platform_generate.py. */
module SchemaCompiler {
  import opened Ordering
  import opened Values
  import opened Registry
  import opened Database
  import opened SqlLiteral

  function SqlName(semanticId: string): string {
    Replace(Replace(semanticId, "approval.object.", "approval_"), ".", "_")
  }

  /** The dictionary lookup of `_sql_type`; `None` is its KeyError. */
  function SqlTypeOf(typ: string): Option<SqlType> {
    if typ == "String" then Some(Text)
    else if typ == "Text" then Some(Text)
    else if typ == "Boolean" then Some(BooleanType)
    else if typ == "Timestamp" then Some(TimestampTz)
    else None
  }

  datatype ColumnSpec = ColumnSpec(name: string, column: Column, constraint: Option<(string, Constraint)>)

  function ForeignKeyName(objectId: string, property: string): string {
    "fk_" + SqlName(objectId) + "_" + property
  }

  function CheckName(objectId: string, property: string): string {
    "chk_" + SqlName(objectId) + "_" + property
  }

  /** A column of enumerated type, whose CHECK lists `values`. */
  function EnumColumn(objectId: string, property: string, definition: Property,
                      values: Option<set<string>>): ColumnSpec {
    var unique := if definition.unique then InlineUnique else NotUnique;
    ColumnSpec(property, Column(Text, definition.required, unique, None),
               Some((CheckName(objectId, property), CheckIn(property, values))))
  }

  /** `_sql_column`; `None` is the KeyError of an unknown type, or the error of a type that lists no values. */
  function SqlColumn(reg: Registry, objectId: string, property: string, definition: Property): Option<ColumnSpec> {
    var unique := if definition.unique then InlineUnique else NotUnique;
    if IsReference(definition.typ) then
      var column := property + "_id";
      var key := ForeignKey(column, SqlName(Referenced(definition.typ)));
      Some(ColumnSpec(column, Column(Uuid, definition.required, NotUnique, None),
                      Some((ForeignKeyName(objectId, property), key))))
    else if definition.typ in reg.types then
      match reg.types[definition.typ]
      case None => None
      case Some(values) => Some(EnumColumn(objectId, property, definition, ListedValues(values)))
    else
      match SqlTypeOf(definition.typ)
      case None => None
      case Some(typ) => Some(ColumnSpec(property, Column(typ, definition.required, unique, None), None))
  }

  predicate HasProperty(reg: Registry, o: string, p: string) {
    o in reg.objects && p in reg.objects[o]
  }

  /** The entry of an enumeration lists values, which validation does not ask. */
  predicate ListsValues(reg: Registry, typ: string) {
    IsReference(typ) || (typ in reg.types ==> reg.types[typ].Some?)
  }

  /** And the server can read the list. */
  predicate ReadableType(reg: Registry, typ: string) {
    ListsValues(reg, typ) && (!IsReference(typ) && typ in reg.types ==> ListedValues(reg.types[typ].value).Some?)
  }

  /** In a validated registry a column can be compiled exactly if its type, when it is an enumeration, lists values;
      every foreign key targets the table of a declared object. */
  lemma ValidatedColumnsResolve(reg: Registry, o: string, p: string)
    requires ValidRegistry(reg) && HasProperty(reg, o, p)
    ensures SqlColumn(reg, o, p, reg.objects[o][p]).Some? <==> ListsValues(reg, reg.objects[o][p].typ)
    ensures SqlColumn(reg, o, p, reg.objects[o][p]).Some? ==>
      var k := SqlColumn(reg, o, p, reg.objects[o][p]).value.constraint;
      k.Some? && k.value.1.ForeignKey? ==> exists target :: target in reg.objects && SqlName(target) == k.value.1.target
  {
    var typ := reg.objects[o][p].typ;
    assert KnownType(reg, typ);
    if IsReference(typ) {
      assert Referenced(typ) in reg.objects;
    }
  }

  /** The column a validated registry gives a property. Where none can be compiled, its CHECK cannot be read either. */
  function Spec(reg: Registry, o: string, p: string): ColumnSpec
    requires ValidRegistry(reg) && HasProperty(reg, o, p)
  {
    match SqlColumn(reg, o, p, reg.objects[o][p])
    case None => EnumColumn(o, p, reg.objects[o][p], None)
    case Some(spec) => spec
  }

  function SpecsOf(reg: Registry, o: string): map<string, ColumnSpec>
    requires ValidRegistry(reg) && o in reg.objects
  {
    map p | p in reg.objects[o] :: Spec(reg, o, p)
  }

  // ----- CREATE TABLE

  const ID_COLUMN := Column(Uuid, true, PrimaryKey, None)
  const VERSION_COLUMN := Column(BigInt, true, NotUnique, Some(1))

  /** The specifications of the named properties, in order. */
  function Listed(specs: map<string, ColumnSpec>, names: seq<string>): (r: seq<ColumnSpec>)
    requires forall p | p in names :: p in specs
    ensures |r| == |names| && forall i :: 0 <= i < |names| ==> r[i] == specs[names[i]]
  {
    seq(|names|, i requires 0 <= i < |names| => specs[names[i]])
  }

  function PropertyColumns(specs: seq<ColumnSpec>): (r: seq<(string, Column)>)
    ensures |r| == |specs| && forall i :: 0 <= i < |specs| ==> r[i] == (specs[i].name, specs[i].column)
  {
    seq(|specs|, i requires 0 <= i < |specs| => (specs[i].name, specs[i].column))
  }

  function ColumnPairs(specs: seq<ColumnSpec>): seq<(string, Column)> {
    ([("id", ID_COLUMN)] + PropertyColumns(specs)) + [("version", VERSION_COLUMN)]
  }

  function ConstraintPairs(specs: seq<ColumnSpec>): seq<(string, Constraint)> {
    if specs == [] then []
    else
      var last := specs[|specs| - 1];
      ConstraintPairs(specs[..|specs| - 1]) + if last.constraint.Some? then [last.constraint.value] else []
  }

  /** The statement `_create_table_sql` emits for the columns of an object, listed by name. */
  function CreateFrom(table: string, listed: seq<ColumnSpec>): Statement {
    CreateTable(table, ColumnPairs(listed), ConstraintPairs(listed))
  }

  /** The table that statement makes. */
  function TableFrom(listed: seq<ColumnSpec>): Table {
    Table(ToMap(ColumnPairs(listed)), ToMap(ConstraintPairs(listed)), [])
  }

  function Sorted(specs: map<string, ColumnSpec>): seq<ColumnSpec> {
    Listed(specs, SortSet(specs.Keys))
  }

  lemma PairsGrow(specs: map<string, ColumnSpec>, names: seq<string>, i: nat)
    requires (forall p | p in names :: p in specs) && i < |names|
    ensures PropertyColumns(Listed(specs, names[..i + 1])) ==
      PropertyColumns(Listed(specs, names[..i])) + [(specs[names[i]].name, specs[names[i]].column)]
    ensures ConstraintPairs(Listed(specs, names[..i + 1])) == ConstraintPairs(Listed(specs, names[..i]))
      + if specs[names[i]].constraint.Some? then [specs[names[i]].constraint.value] else []
  {
    var shorter, longer := Listed(specs, names[..i]), Listed(specs, names[..i + 1]);
    assert longer == shorter + [specs[names[i]]];
    assert longer[..|longer| - 1] == shorter;
  }

  /** `names` lists each key once. */
  ghost predicate Enumerates(names: seq<string>, specs: map<string, ColumnSpec>) {
    Distinct(names) && forall p :: p in names <==> p in specs
  }

  ghost predicate BuiltSoFar(specs: map<string, ColumnSpec>, names: seq<string>,
                             columns: seq<(string, Column)>, constraints: seq<(string, Constraint)>)
    requires forall p | p in names :: p in specs
  {
    && columns == [("id", ID_COLUMN)] + PropertyColumns(Listed(specs, names))
    && constraints == ConstraintPairs(Listed(specs, names))
  }

  /** Every property of the object has a column. */
  predicate ObjectLists(reg: Registry, o: string)
    requires o in reg.objects
  {
    forall p | p in reg.objects[o] :: ListsValues(reg, reg.objects[o][p].typ)
  }

  predicate Resolves(reg: Registry, o: string, p: string) {
    HasProperty(reg, o, p) && SqlColumn(reg, o, p, reg.objects[o][p]).Some?
  }

  ghost predicate ResolveTo(reg: Registry, o: string, names: seq<string>, specs: map<string, ColumnSpec>)
    requires forall p | p in names :: p in specs
  {
    forall p | p in names :: Resolves(reg, o, p) ==> SqlColumn(reg, o, p, reg.objects[o][p]) == Some(specs[p])
  }

  predicate AllResolve(reg: Registry, o: string, names: seq<string>) {
    forall p | p in names :: Resolves(reg, o, p)
  }

  lemma AllResolveStep(reg: Registry, o: string, names: seq<string>, i: nat)
    requires i < |names|
    ensures AllResolve(reg, o, names[..i + 1]) <==> AllResolve(reg, o, names[..i]) && Resolves(reg, o, names[i])
    ensures AllResolve(reg, o, names) ==> Resolves(reg, o, names[i])
  {
    assert names[..i + 1] == names[..i] + [names[i]];
  }

  /** The loop over the properties; `None` is the error of a column that cannot be compiled. */
  method PropertyPairs(reg: Registry, o: string, names: seq<string>, ghost specs: map<string, ColumnSpec>)
    returns (pairs: Option<(seq<(string, Column)>, seq<(string, Constraint)>)>)
    requires o in reg.objects && (forall p | p in names :: p in reg.objects[o] && p in specs)
    requires ResolveTo(reg, o, names, specs)
    ensures pairs.Some? <==> AllResolve(reg, o, names)
    ensures pairs.Some? ==> BuiltSoFar(specs, names, pairs.value.0, pairs.value.1)
  {
    var columns: seq<(string, Column)> := [("id", ID_COLUMN)];
    var constraints: seq<(string, Constraint)> := [];
    for i := 0 to |names|
      invariant BuiltSoFar(specs, names[..i], columns, constraints)
      invariant AllResolve(reg, o, names[..i])
    {
      AllResolveStep(reg, o, names, i);
      var spec := SqlColumn(reg, o, names[i], reg.objects[o][names[i]]);
      if spec == None {
        return None;
      }
      assert spec.value == specs[names[i]];
      PairsGrow(specs, names, i);
      columns := columns + [(spec.value.name, spec.value.column)];
      if spec.value.constraint.Some? {
        constraints := constraints + [spec.value.constraint.value];
      }
    }
    assert names[..|names|] == names;
    return Some((columns, constraints));
  }

  /** `_create_table_sql`; `None` when it raises, which validation rules out for all but types without values. */
  method CreateTableSql(reg: Registry, o: string) returns (stmt: Option<Statement>)
    requires ValidRegistry(reg) && o in reg.objects
    ensures stmt == if ObjectLists(reg, o) then Some(CreateFrom(SqlName(o), Sorted(SpecsOf(reg, o)))) else None
  {
    var names := SortSet(reg.objects[o].Keys);
    SqlColumnsAreSpecs(reg, o, names);
    var pairs := PropertyPairs(reg, o, names, SpecsOf(reg, o));
    if pairs == None {
      return None;
    }
    BuiltStatement(SqlName(o), SpecsOf(reg, o), names, pairs.value.0, pairs.value.1);
    return Some(CreateTable(SqlName(o), pairs.value.0 + [("version", VERSION_COLUMN)], pairs.value.1));
  }

  lemma BuiltStatement(table: string, specs: map<string, ColumnSpec>, names: seq<string>,
                       columns: seq<(string, Column)>, constraints: seq<(string, Constraint)>)
    requires names == SortSet(specs.Keys) && BuiltSoFar(specs, names, columns, constraints)
    ensures CreateTable(table, columns + [("version", VERSION_COLUMN)], constraints) == CreateFrom(table, Sorted(specs))
  {
  }

  lemma SqlColumnsAreSpecs(reg: Registry, o: string, names: seq<string>)
    requires ValidRegistry(reg) && o in reg.objects && names == SortSet(reg.objects[o].Keys)
    ensures ResolveTo(reg, o, names, SpecsOf(reg, o))
    ensures ObjectLists(reg, o) <==> AllResolve(reg, o, names)
    ensures SpecsOf(reg, o).Keys == reg.objects[o].Keys
  {
    forall p | p in reg.objects[o] ensures Resolves(reg, o, p) <==> ListsValues(reg, reg.objects[o][p].typ) {
      ValidatedColumnsResolve(reg, o, p);
    }
    assert forall p :: p in names <==> p in reg.objects[o];
  }

  // ----- what makes the script acceptable

  /** Column names are distinct and not the two built-in ones. */
  ghost predicate NamesApart(specs: map<string, ColumnSpec>) {
    && (forall p :: p in specs ==> specs[p].name != "id" && specs[p].name != "version")
    && (forall p, q :: p in specs && q in specs && p != q ==> specs[p].name != specs[q].name)
  }

  /** Column names are distinct, also from the built-in ones, when read so. */
  ghost predicate ColumnsApartAs(read: string -> string, specs: map<string, ColumnSpec>) {
    && read("id") != read("version")
    && (forall p :: p in specs ==> read(specs[p].name) != read("id") && read(specs[p].name) != read("version"))
    && (forall p, q :: p in specs && q in specs && p != q ==> read(specs[p].name) != read(specs[q].name))
  }

  /** Constraint names are distinct when read so. */
  ghost predicate ConstraintsApartAs(read: string -> string, specs: map<string, ColumnSpec>) {
    forall p, q :: p in specs && q in specs && p != q && specs[p].constraint.Some? && specs[q].constraint.Some? ==>
      read(specs[p].constraint.value.0) != read(specs[q].constraint.value.0)
  }

  ghost predicate ConstraintNamesApart(specs: map<string, ColumnSpec>) {
    forall p, q :: p in specs && q in specs && p != q && specs[p].constraint.Some? && specs[q].constraint.Some? ==>
      specs[p].constraint.value.0 != specs[q].constraint.value.0
  }

  /** Each constraint is about its own property's column. */
  ghost predicate ConstraintsOwnColumn(specs: map<string, ColumnSpec>) {
    forall p :: p in specs && specs[p].constraint.Some? ==> specs[p].constraint.value.1.column == specs[p].name
  }

  predicate ReadableCheck(k: Option<(string, Constraint)>) {
    k.Some? && k.value.1.CheckIn? ==> k.value.1.values.Some?
  }

  ghost predicate ChecksReadable(specs: map<string, ColumnSpec>) {
    forall p :: p in specs ==> ReadableCheck(specs[p].constraint)
  }

  /** Table names do not collide, nor do the column names of a table. */
  ghost predicate Unambiguous(reg: Registry)
    requires ValidRegistry(reg)
  {
    && (forall a, b :: a in reg.objects && b in reg.objects && a != b ==> SqlName(a) != SqlName(b))
    && (forall o :: o in reg.objects ==> NamesApart(SpecsOf(reg, o)))
  }

  ghost predicate AllReadable(reg: Registry) {
    forall o, p :: HasProperty(reg, o, p) ==> ReadableType(reg, reg.objects[o][p].typ)
  }

  /** Besides, every enumeration in use can be read. */
  ghost predicate Emittable(reg: Registry)
    requires ValidRegistry(reg)
  {
    Unambiguous(reg) && AllReadable(reg)
  }

  // ----- tables described by the columns of their properties

  /** The table holds the built-in columns, those of `specs` with their constraints, and nothing else. */
  ghost predicate Describes(specs: map<string, ColumnSpec>, columns: map<string, Column>,
                            constraints: map<string, Constraint>) {
    && "id" in columns && columns["id"] == ID_COLUMN
    && "version" in columns && columns["version"] == VERSION_COLUMN
    && (forall p :: p in specs ==> specs[p].name in columns && columns[specs[p].name] == specs[p].column)
    && (forall p :: p in specs && specs[p].constraint.Some? ==>
          specs[p].constraint.value.0 in constraints
          && constraints[specs[p].constraint.value.0] == specs[p].constraint.value.1)
    && (forall c :: c in columns ==> c == "id" || c == "version" || NamesColumn(specs, c))
    && (forall k :: k in constraints ==> NamesConstraint(specs, k))
  }

  ghost predicate NamesColumn(specs: map<string, ColumnSpec>, c: string) {
    exists p :: p in specs && specs[p].name == c
  }

  ghost predicate NamesConstraint(specs: map<string, ColumnSpec>, k: string) {
    exists p :: p in specs && specs[p].constraint.Some? && specs[p].constraint.value.0 == k
  }

  lemma DescriptionIsUnique(specs: map<string, ColumnSpec>, t: Table, u: Table)
    requires Describes(specs, t.columns, t.constraints) && Describes(specs, u.columns, u.constraints)
    ensures t.columns == u.columns && t.constraints == u.constraints
  {
  }

  lemma ExtendNames(specs: map<string, ColumnSpec>, p: string, spec: ColumnSpec)
    requires p !in specs
    ensures forall c :: NamesColumn(specs[p := spec], c) <==> NamesColumn(specs, c) || c == spec.name
    ensures forall k :: NamesConstraint(specs[p := spec], k) <==>
      NamesConstraint(specs, k) || (spec.constraint.Some? && spec.constraint.value.0 == k)
  {
    var more := specs[p := spec];
    assert more[p] == spec;
    forall c | NamesColumn(specs, c) ensures NamesColumn(more, c) {
      var q :| q in specs && specs[q].name == c;
      assert more[q] == specs[q];
    }
    forall k | NamesConstraint(specs, k) ensures NamesConstraint(more, k) {
      var q :| q in specs && specs[q].constraint.Some? && specs[q].constraint.value.0 == k;
      assert more[q] == specs[q];
    }
  }

  lemma ExtendDescription(specs: map<string, ColumnSpec>, columns: map<string, Column>,
                          constraints: map<string, Constraint>,
                          p: string, spec: ColumnSpec)
    requires Describes(specs, columns, constraints)
    requires p !in specs && spec.name !in columns
    requires spec.constraint.Some? ==> spec.constraint.value.0 !in constraints
    ensures Describes(specs[p := spec], columns[spec.name := spec.column],
      if spec.constraint.Some? then constraints[spec.constraint.value.0 := spec.constraint.value.1] else constraints)
  {
    ExtendNames(specs, p, spec);
    var more := specs[p := spec];
    forall k | NamesConstraint(specs, k) ensures NamesConstraint(more, k) { }
    forall c | NamesColumn(specs, c) ensures NamesColumn(more, c) { }
    assert NamesColumn(more, spec.name);
  }
}
