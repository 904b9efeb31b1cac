/** The schema a registry compiles to, and exactly when its CREATE TABLE script is accepted. */
module Schema {
  import opened Ordering
  import opened Values
  import opened Registry
  import opened Database
  import opened SchemaCompiler

  // ----- facts about lists of column specifications

  lemma {:induction false} ConstraintPairsMembers(specs: seq<ColumnSpec>)
    ensures forall k :: k in ConstraintPairs(specs) <==> exists i :: 0 <= i < |specs| && specs[i].constraint == Some(k)
  {
    if specs != [] {
      var n := |specs| - 1;
      var init := specs[..n];
      ConstraintPairsMembers(init);
      forall k ensures k in ConstraintPairs(specs) <==> exists i :: 0 <= i < |specs| && specs[i].constraint == Some(k) {
        if i :| 0 <= i < |specs| && specs[i].constraint == Some(k) {
          if i < n {
            assert init[i].constraint == Some(k);
          }
        }
        if k in ConstraintPairs(init) {
          var i :| 0 <= i < n && init[i].constraint == Some(k);
          assert specs[i].constraint == Some(k);
        } else if k in ConstraintPairs(specs) {
          assert specs[n].constraint == Some(k);
        }
      }
    }
  }

  predicate DistinctAs<T>(read: string -> string, pairs: seq<(string, T)>) {
    forall i, j | 0 <= i < j < |pairs| :: read(pairs[i].0) != read(pairs[j].0)
  }

  lemma {:induction false} ConstraintPairsDistinct(read: string -> string, specs: seq<ColumnSpec>)
    requires forall i, j :: 0 <= i < j < |specs| && specs[i].constraint.Some? && specs[j].constraint.Some? ==>
      read(specs[i].constraint.value.0) != read(specs[j].constraint.value.0)
    ensures DistinctAs(read, ConstraintPairs(specs))
  {
    if specs != [] {
      var n := |specs| - 1;
      var init := specs[..n];
      forall i, j | 0 <= i < j < |init| && init[i].constraint.Some? && init[j].constraint.Some?
        ensures read(init[i].constraint.value.0) != read(init[j].constraint.value.0)
      {
        assert init[i] == specs[i] && init[j] == specs[j];
      }
      ConstraintPairsDistinct(read, init);
      ConstraintPairsMembers(init);
      if specs[n].constraint.Some? {
        var shorter := ConstraintPairs(init);
        forall m | 0 <= m < |shorter| ensures read(shorter[m].0) != read(specs[n].constraint.value.0) {
          assert shorter[m] in shorter;
          var i :| 0 <= i < n && init[i].constraint == Some(shorter[m]);
          assert specs[i] == init[i];
        }
      }
    }
  }

  lemma PositionsCover(specs: map<string, ColumnSpec>, names: seq<string>)
    requires Enumerates(names, specs)
    ensures forall p :: p in specs ==> exists i :: 0 <= i < |names| && names[i] == p
  {
    forall p | p in specs ensures exists i :: 0 <= i < |names| && names[i] == p {
      assert p in names;
    }
  }

  /** Different names at different positions, and none that of a built-in column. */
  ghost predicate ListedApart(read: string -> string, specs: map<string, ColumnSpec>, names: seq<string>)
    requires Enumerates(names, specs)
  {
    && DistinctAs(read, PropertyColumns(Listed(specs, names)))
    && forall i :: 0 <= i < |names| ==>
         read(Listed(specs, names)[i].name) != read("id") && read(Listed(specs, names)[i].name) != read("version")
  }

  lemma ApartIsListedApart(read: string -> string, specs: map<string, ColumnSpec>, names: seq<string>)
    requires Enumerates(names, specs) && ColumnsApartAs(read, specs)
    ensures ListedApart(read, specs, names)
  {
    var pairs := PropertyColumns(Listed(specs, names));
    forall i, j | 0 <= i < j < |pairs| ensures read(pairs[i].0) != read(pairs[j].0) {
      assert names[i] in names && names[j] in names && names[i] != names[j];
    }
    forall i | 0 <= i < |names|
      ensures read(Listed(specs, names)[i].name) != read("id")
      ensures read(Listed(specs, names)[i].name) != read("version")
    {
      assert names[i] in names;
    }
  }

  lemma ListedApartIsApart(read: string -> string, specs: map<string, ColumnSpec>, names: seq<string>)
    requires Enumerates(names, specs) && ListedApart(read, specs, names) && read("id") != read("version")
    ensures ColumnsApartAs(read, specs)
  {
    var pairs := PropertyColumns(Listed(specs, names));
    PositionsCover(specs, names);
    forall p, q | p in specs && q in specs && p != q ensures read(specs[p].name) != read(specs[q].name) {
      var i :| 0 <= i < |names| && names[i] == p;
      var j :| 0 <= j < |names| && names[j] == q;
      assert pairs[i].0 == specs[p].name && pairs[j].0 == specs[q].name;
    }
    forall p | p in specs ensures read(specs[p].name) != read("id") && read(specs[p].name) != read("version") {
      var i :| 0 <= i < |names| && names[i] == p;
      assert Listed(specs, names)[i] == specs[p];
    }
  }

  lemma PropertyColumnsApartIff(read: string -> string, specs: map<string, ColumnSpec>, names: seq<string>)
    requires Enumerates(names, specs)
    ensures ColumnsApartAs(read, specs) <==> read("id") != read("version") && ListedApart(read, specs, names)
  {
    if ColumnsApartAs(read, specs) {
      ApartIsListedApart(read, specs, names);
    }
    if read("id") != read("version") && ListedApart(read, specs, names) {
      ListedApartIsApart(read, specs, names);
    }
  }

  lemma DistinctBetween(read: string -> string, front: (string, Column), middle: seq<(string, Column)>,
                        back: (string, Column))
    ensures DistinctAs(read, [front] + middle + [back]) <==>
      && read(front.0) != read(back.0) && DistinctAs(read, middle)
      && forall i :: 0 <= i < |middle| ==> read(middle[i].0) != read(front.0) && read(middle[i].0) != read(back.0)
  {
    var all := [front] + middle + [back];
    assert forall i :: 0 <= i < |middle| ==> all[i + 1] == middle[i];
    if DistinctAs(read, all) {
      forall i, j | 0 <= i < j < |middle| ensures read(middle[i].0) != read(middle[j].0) {
        assert read(all[i + 1].0) != read(all[j + 1].0);
      }
      forall i | 0 <= i < |middle| ensures read(middle[i].0) != read(front.0) && read(middle[i].0) != read(back.0) {
        assert read(all[0].0) != read(all[i + 1].0) && read(all[i + 1].0) != read(all[|all| - 1].0);
      }
      assert read(all[0].0) != read(all[|all| - 1].0);
    }
  }

  lemma ColumnPairsApartIff(read: string -> string, specs: map<string, ColumnSpec>, names: seq<string>)
    requires Enumerates(names, specs)
    ensures DistinctAs(read, ColumnPairs(Listed(specs, names))) <==> ColumnsApartAs(read, specs)
  {
    var middle := PropertyColumns(Listed(specs, names));
    PropertyColumnsApartIff(read, specs, names);
    DistinctBetween(read, ("id", ID_COLUMN), middle, ("version", VERSION_COLUMN));
    assert forall i :: 0 <= i < |names| ==> middle[i].0 == Listed(specs, names)[i].name;
  }

  function AsWritten(): string -> string {
    (s: string) => s
  }

  lemma ColumnPairsDistinctIff(specs: map<string, ColumnSpec>, names: seq<string>)
    requires Enumerates(names, specs)
    ensures DistinctNames(ColumnPairs(Listed(specs, names))) <==> NamesApart(specs)
  {
    ColumnPairsApartIff(AsWritten(), specs, names);
    assert "id" != "version";
    assert DistinctAs(AsWritten(), ColumnPairs(Listed(specs, names))) <==>
      DistinctNames(ColumnPairs(Listed(specs, names)));
  }

  lemma PropertyNamesApart(specs: map<string, ColumnSpec>, names: seq<string>)
    requires Enumerates(names, specs) && NamesApart(specs)
    ensures DistinctNames(PropertyColumns(Listed(specs, names)))
    ensures forall i :: 0 <= i < |names| ==>
      Listed(specs, names)[i].name != "id" && Listed(specs, names)[i].name != "version"
  {
    PropertyColumnsApartIff(AsWritten(), specs, names);
    assert "id" != "version";
    assert ColumnsApartAs(AsWritten(), specs);
  }

  lemma ColumnsOfTable(specs: map<string, ColumnSpec>, names: seq<string>)
    requires Enumerates(names, specs) && NamesApart(specs)
    ensures TableFrom(Listed(specs, names)).columns ==
      ToMap(PropertyColumns(Listed(specs, names)))["id" := ID_COLUMN]["version" := VERSION_COLUMN]
    ensures DistinctNames(PropertyColumns(Listed(specs, names)))
  {
    var middle := PropertyColumns(Listed(specs, names));
    PropertyNamesApart(specs, names);
    ToMapPrepend(("id", ID_COLUMN), middle);
    ToMapAppend([("id", ID_COLUMN)] + middle, ("version", VERSION_COLUMN));
  }

  lemma ConstraintsListed(specs: map<string, ColumnSpec>, names: seq<string>)
    requires Enumerates(names, specs) && ConstraintNamesApart(specs)
    ensures DistinctNames(ConstraintPairs(Listed(specs, names)))
    ensures forall k :: k in ConstraintPairs(Listed(specs, names)) <==>
      exists p :: p in specs && specs[p].constraint == Some(k)
  {
    var listed := Listed(specs, names);
    ConstraintPairsMembers(listed);
    PositionsCover(specs, names);
    forall i, j | 0 <= i < j < |listed| && listed[i].constraint.Some? && listed[j].constraint.Some?
      ensures listed[i].constraint.value.0 != listed[j].constraint.value.0
    {
      assert names[i] in specs && names[j] in specs && names[i] != names[j];
    }
    ConstraintPairsDistinct(AsWritten(), listed);
    assert DistinctAs(AsWritten(), ConstraintPairs(listed));
    forall k ensures k in ConstraintPairs(listed) <==> exists p :: p in specs && specs[p].constraint == Some(k) {
      if k in ConstraintPairs(listed) {
        var i :| 0 <= i < |listed| && listed[i].constraint == Some(k);
        assert names[i] in specs && specs[names[i]].constraint == Some(k);
      }
      if p :| p in specs && specs[p].constraint == Some(k) {
        var i :| 0 <= i < |names| && names[i] == p;
        assert listed[i].constraint == Some(k);
      }
    }
  }

  lemma PropertyColumnsDescribed(specs: map<string, ColumnSpec>, names: seq<string>)
    requires Enumerates(names, specs) && DistinctNames(PropertyColumns(Listed(specs, names)))
    ensures var columns := ToMap(PropertyColumns(Listed(specs, names)));
      && (forall p :: p in specs ==> specs[p].name in columns && columns[specs[p].name] == specs[p].column)
      && forall c :: c in columns ==> NamesColumn(specs, c)
  {
    var middle := PropertyColumns(Listed(specs, names));
    ToMapEntries(middle);
    PositionsCover(specs, names);
    forall p | p in specs ensures specs[p].name in ToMap(middle) && ToMap(middle)[specs[p].name] == specs[p].column {
      var i :| 0 <= i < |names| && names[i] == p;
      assert middle[i] == (specs[p].name, specs[p].column);
    }
    forall c | c in ToMap(middle) ensures NamesColumn(specs, c) {
      var i :| 0 <= i < |middle| && middle[i].0 == c;
      assert names[i] in names && specs[names[i]].name == c;
    }
  }

  lemma ColumnsAreDescribed(specs: map<string, ColumnSpec>, names: seq<string>)
    requires Enumerates(names, specs) && NamesApart(specs)
    ensures var columns := TableFrom(Listed(specs, names)).columns;
      && "id" in columns && columns["id"] == ID_COLUMN && "version" in columns && columns["version"] == VERSION_COLUMN
      && (forall p :: p in specs ==> specs[p].name in columns && columns[specs[p].name] == specs[p].column)
      && forall c :: c in columns ==> c == "id" || c == "version" || NamesColumn(specs, c)
  {
    ColumnsOfTable(specs, names);
    PropertyColumnsDescribed(specs, names);
    assert "id" != "version";
  }

  /** The table holds the columns and constraints of the properties and nothing else. */
  lemma TableIsDescribed(specs: map<string, ColumnSpec>, names: seq<string>)
    requires Enumerates(names, specs) && NamesApart(specs) && ConstraintNamesApart(specs)
    ensures Describes(specs, TableFrom(Listed(specs, names)).columns, TableFrom(Listed(specs, names)).constraints)
  {
    var table := TableFrom(Listed(specs, names));
    var checks := ConstraintPairs(Listed(specs, names));
    ColumnsAreDescribed(specs, names);
    ConstraintsListed(specs, names);
    ToMapEntries(checks);
    forall p | p in specs && specs[p].constraint.Some?
      ensures specs[p].constraint.value.0 in table.constraints
      ensures table.constraints[specs[p].constraint.value.0] == specs[p].constraint.value.1
    {
      assert specs[p].constraint == Some(specs[p].constraint.value);
      assert specs[p].constraint.value in checks;
      var i :| 0 <= i < |checks| && checks[i] == specs[p].constraint.value;
    }
    forall k | k in table.constraints ensures NamesConstraint(specs, k) {
      var i :| 0 <= i < |checks| && checks[i].0 == k;
      assert checks[i] in checks;
      var p :| p in specs && specs[p].constraint == Some(checks[i]);
    }
  }

  lemma ConstraintColumnsExist(specs: map<string, ColumnSpec>, names: seq<string>)
    requires Enumerates(names, specs) && NamesApart(specs) && ConstraintNamesApart(specs) && ConstraintsOwnColumn(specs)
    ensures forall k | k in ConstraintPairs(Listed(specs, names)) ::
      k.1.column in ToMap(ColumnPairs(Listed(specs, names)))
  {
    ColumnsAreDescribed(specs, names);
    ConstraintsListed(specs, names);
    forall k | k in ConstraintPairs(Listed(specs, names))
      ensures k.1.column in ToMap(ColumnPairs(Listed(specs, names)))
    {
      var p :| p in specs && specs[p].constraint == Some(k);
      assert specs[p].name in TableFrom(Listed(specs, names)).columns;
    }
  }

  lemma ConstraintsHoldIff(specs: map<string, ColumnSpec>, names: seq<string>, db: Database)
    requires Enumerates(names, specs) && ConstraintNamesApart(specs)
    ensures (forall k | k in ConstraintPairs(Listed(specs, names)) :: ConstraintHolds(db, k.1, [])) <==>
      ChecksReadable(specs)
  {
    ConstraintsListed(specs, names);
    forall k | k in ConstraintPairs(Listed(specs, names))
      ensures ConstraintHolds(db, k.1, []) <==> ReadableCheck(Some(k))
    {
    }
    if ChecksReadable(specs) {
      forall k | k in ConstraintPairs(Listed(specs, names)) ensures ReadableCheck(Some(k)) {
        var p :| p in specs && specs[p].constraint == Some(k);
      }
    } else {
      var p :| p in specs && !ReadableCheck(specs[p].constraint);
      assert specs[p].constraint == Some(specs[p].constraint.value);
      assert specs[p].constraint.value in ConstraintPairs(Listed(specs, names));
    }
  }

  /** Acceptance of one CREATE TABLE. */
  lemma CreateAcceptedIff(pg: Server, table: string, specs: map<string, ColumnSpec>, names: seq<string>, db: Database)
    requires Enumerates(names, specs) && ConstraintNamesApart(specs) && ConstraintsOwnColumn(specs)
    ensures Exec(pg, false, db, CreateFrom(table, Listed(specs, names))).Some? <==>
      table !in db && NamesApart(specs) && ChecksReadable(specs)
    ensures Exec(pg, false, db, CreateFrom(table, Listed(specs, names))).Some? ==>
      Exec(pg, false, db, CreateFrom(table, Listed(specs, names))).value == db[table := TableFrom(Listed(specs, names))]
  {
    ColumnPairsDistinctIff(specs, names);
    ConstraintsHoldIff(specs, names, db);
    ConstraintsListed(specs, names);
    if NamesApart(specs) {
      ConstraintColumnsExist(specs, names);
    }
    CreateExecIff(pg, table, ColumnPairs(Listed(specs, names)), ConstraintPairs(Listed(specs, names)), db);
  }

  lemma CreateExecIff(pg: Server, table: string, columns: seq<(string, Column)>, constraints: seq<(string, Constraint)>,
                      db: Database)
    requires DistinctNames(constraints)
    requires DistinctNames(columns) ==> forall k | k in constraints :: k.1.column in ToMap(columns)
    ensures var next := Exec(pg, false, db, CreateTable(table, columns, constraints));
      && (next.Some? <==>
            table !in db && DistinctNames(columns) && forall k | k in constraints :: ConstraintHolds(db, k.1, []))
      && (next.Some? ==> next.value == db[table := Table(ToMap(columns), ToMap(constraints), [])])
  {
  }

  // ----- registries

  lemma SamePrefixSameRest(prefix: string, a: string, b: string)
    requires prefix + a == prefix + b
    ensures a == b
  {
    assert (prefix + a)[|prefix|..] == a;
    assert (prefix + b)[|prefix|..] == b;
  }

  /** Within a table, generated constraint names tell properties apart. */
  lemma ConstraintNameNamesProperty(reg: Registry, o: string, p: string, q: string)
    requires ValidRegistry(reg) && HasProperty(reg, o, p) && HasProperty(reg, o, q)
    requires Spec(reg, o, p).constraint.Some? && Spec(reg, o, q).constraint.Some?
    requires Spec(reg, o, p).constraint.value.0 == Spec(reg, o, q).constraint.value.0
    ensures p == q
  {
    var name := Spec(reg, o, p).constraint.value.0;
    assert ForeignKeyName(o, p)[0] == 'f' && CheckName(o, p)[0] == 'c';
    assert ForeignKeyName(o, q)[0] == 'f' && CheckName(o, q)[0] == 'c';
    if name[0] == 'f' {
      SamePrefixSameRest("fk_" + SqlName(o) + "_", p, q);
    } else {
      SamePrefixSameRest("chk_" + SqlName(o) + "_", p, q);
    }
  }

  lemma EnumerationReadable(reg: Registry, o: string, p: string)
    requires ValidRegistry(reg) && HasProperty(reg, o, p)
    ensures ReadableCheck(Spec(reg, o, p).constraint) <==> ReadableType(reg, reg.objects[o][p].typ)
  {
    assert KnownType(reg, reg.objects[o][p].typ);
  }

  ghost predicate TypesReadable(reg: Registry, o: string)
    requires o in reg.objects
  {
    forall p :: p in reg.objects[o] ==> ReadableType(reg, reg.objects[o][p].typ)
  }

  lemma ChecksReadableIff(reg: Registry, o: string)
    requires ValidRegistry(reg) && o in reg.objects
    ensures ChecksReadable(SpecsOf(reg, o)) <==> TypesReadable(reg, o)
  {
    forall p | p in reg.objects[o]
      ensures ReadableCheck(SpecsOf(reg, o)[p].constraint) <==> ReadableType(reg, reg.objects[o][p].typ)
    {
      EnumerationReadable(reg, o, p);
    }
  }

  /** What the columns of a validated registry satisfy without further conditions. */
  lemma SpecsAreLawful(reg: Registry, o: string)
    requires ValidRegistry(reg) && o in reg.objects
    ensures ConstraintNamesApart(SpecsOf(reg, o)) && ConstraintsOwnColumn(SpecsOf(reg, o))
    ensures ChecksReadable(SpecsOf(reg, o)) <==> TypesReadable(reg, o)
  {
    var specs := SpecsOf(reg, o);
    ChecksReadableIff(reg, o);
    forall p, q | p in specs && q in specs && p != q && specs[p].constraint.Some? && specs[q].constraint.Some?
      ensures specs[p].constraint.value.0 != specs[q].constraint.value.0
    {
      if specs[p].constraint.value.0 == specs[q].constraint.value.0 {
        ConstraintNameNamesProperty(reg, o, p, q);
      }
    }
  }

  function TableOf(reg: Registry, o: string): Table
    requires ValidRegistry(reg) && o in reg.objects
  {
    TableFrom(Sorted(SpecsOf(reg, o)))
  }

  lemma TableOfIsDescribed(reg: Registry, o: string)
    requires ValidRegistry(reg) && o in reg.objects && NamesApart(SpecsOf(reg, o))
    ensures Describes(SpecsOf(reg, o), TableOf(reg, o).columns, TableOf(reg, o).constraints)
  {
    var specs := SpecsOf(reg, o);
    SpecsAreLawful(reg, o);
    TableIsDescribed(specs, SortSet(specs.Keys));
  }

  // ----- scripts of CREATE TABLE

  datatype NewTable = NewTable(name: string, specs: map<string, ColumnSpec>)

  function CreateOf(item: NewTable): Statement {
    CreateFrom(item.name, Sorted(item.specs))
  }

  function TableMade(item: NewTable): Table {
    TableFrom(Sorted(item.specs))
  }

  function Creates(items: seq<NewTable>): seq<Statement> {
    if items == [] then [] else [CreateOf(items[0])] + Creates(items[1..])
  }

  ghost predicate Lawful(item: NewTable) {
    ConstraintNamesApart(item.specs) && ConstraintsOwnColumn(item.specs)
  }

  ghost predicate WellFormed(item: NewTable) {
    NamesApart(item.specs) && ChecksReadable(item.specs)
  }

  lemma CreateOfAcceptedIff(pg: Server, item: NewTable, db: Database)
    requires Lawful(item)
    ensures Exec(pg, false, db, CreateOf(item)).Some? <==> item.name !in db && WellFormed(item)
    ensures Exec(pg, false, db, CreateOf(item)).Some? ==>
      Exec(pg, false, db, CreateOf(item)).value == db[item.name := TableMade(item)]
  {
    CreateAcceptedIff(pg, item.name, item.specs, SortSet(item.specs.Keys), db);
  }

  /** The tables are new, distinct and well formed. */
  ghost predicate Acceptable(items: seq<NewTable>, db: Database) {
    && (forall i :: 0 <= i < |items| ==> items[i].name !in db && WellFormed(items[i]))
    && (forall i, j :: 0 <= i < j < |items| ==> items[i].name != items[j].name)
  }

  /** `after` is `before` with exactly the tables of `items` added, each as `made` says. */
  ghost predicate WithTables(made: NewTable -> Table, items: seq<NewTable>, before: Database, after: Database) {
    && (forall t :: t in before ==> t in after && after[t] == before[t])
    && (forall i :: 0 <= i < |items| ==> items[i].name in after && after[items[i].name] == made(items[i]))
    && (forall t :: t in after ==> t in before || NamedIn(items, t))
  }

  ghost predicate NamedIn(items: seq<NewTable>, t: string) {
    exists i :: 0 <= i < |items| && items[i].name == t
  }

  lemma AcceptableTail(items: seq<NewTable>, db: Database, next: Database)
    requires items != [] && items[0].name !in db && next == db[items[0].name := TableMade(items[0])]
    requires Acceptable(items, db)
    ensures Acceptable(items[1..], next)
  {
    var rest := items[1..];
    assert forall i :: 0 <= i < |rest| ==> rest[i] == items[i + 1];
  }

  lemma AcceptableFront(items: seq<NewTable>, db: Database, next: Database)
    requires items != [] && items[0].name !in db && next == db[items[0].name := TableMade(items[0])]
    requires WellFormed(items[0]) && Acceptable(items[1..], next)
    ensures Acceptable(items, db)
  {
    var rest := items[1..];
    forall i | 0 < i < |items| ensures items[i].name !in next && WellFormed(items[i]) {
      assert rest[i - 1] == items[i];
    }
    forall i, j | 0 <= i < j < |items| ensures items[i].name != items[j].name {
      assert rest[j - 1] == items[j];
      if i > 0 {
        assert rest[i - 1] == items[i];
      }
    }
  }

  lemma AcceptableStep(items: seq<NewTable>, db: Database, next: Database)
    requires items != [] && items[0].name !in db && WellFormed(items[0])
    requires next == db[items[0].name := TableMade(items[0])]
    ensures Acceptable(items, db) <==> Acceptable(items[1..], next)
  {
    if Acceptable(items, db) {
      AcceptableTail(items, db, next);
    }
    if Acceptable(items[1..], next) {
      AcceptableFront(items, db, next);
    }
  }

  lemma WithTablesStep(made: NewTable -> Table, items: seq<NewTable>, db: Database, next: Database, after: Database)
    requires items != [] && items[0].name !in db
    requires next == db[items[0].name := made(items[0])]
    requires WithTables(made, items[1..], next, after)
    ensures WithTables(made, items, db, after)
  {
    var rest := items[1..];
    forall t | t in db ensures t in after && after[t] == db[t] {
      assert t in next && next[t] == db[t];
    }
    forall i | 0 <= i < |items| ensures items[i].name in after && after[items[i].name] == made(items[i]) {
      if i == 0 {
        assert items[0].name in next && next[items[0].name] == made(items[0]);
      } else {
        assert rest[i - 1] == items[i];
      }
    }
    forall t | t in after ensures t in db || NamedIn(items, t) {
      if t in next {
        assert t == items[0].name || t in db;
      } else {
        var i :| 0 <= i < |rest| && rest[i].name == t;
        assert items[i + 1].name == t;
      }
    }
  }

  lemma RunCreatesStep(pg: Server, items: seq<NewTable>, db: Database)
    requires items != [] && Lawful(items[0])
    ensures Run(pg, false, db, Creates(items)) ==
      if items[0].name !in db && WellFormed(items[0])
      then Run(pg, false, db[items[0].name := TableMade(items[0])], Creates(items[1..]))
      else None
  {
    CreateOfAcceptedIff(pg, items[0], db);
    var stmts := Creates(items);
    assert stmts[0] == CreateOf(items[0]) && stmts[1..] == Creates(items[1..]);
  }

  lemma {:induction false} RunCreates(pg: Server, items: seq<NewTable>, db: Database)
    requires forall i :: 0 <= i < |items| ==> Lawful(items[i])
    ensures Run(pg, false, db, Creates(items)).Some? <==> Acceptable(items, db)
    ensures Run(pg, false, db, Creates(items)).Some? ==>
      WithTables(TableMade, items, db, Run(pg, false, db, Creates(items)).value)
    decreases |items|
  {
    if items != [] {
      var rest := items[1..];
      assert forall i :: 0 <= i < |rest| ==> rest[i] == items[i + 1];
      RunCreatesStep(pg, items, db);
      if items[0].name !in db && WellFormed(items[0]) {
        var next := db[items[0].name := TableMade(items[0])];
        RunCreates(pg, rest, next);
        AcceptableStep(items, db, next);
        if Run(pg, false, next, Creates(rest)).Some? {
          WithTablesStep(TableMade, items, db, next, Run(pg, false, next, Creates(rest)).value);
        }
      }
    }
  }

  // ----- the baseline script

  function NewTables(reg: Registry, ids: seq<string>): (r: seq<NewTable>)
    requires ValidRegistry(reg) && forall o | o in ids :: o in reg.objects
    ensures |r| == |ids|
    ensures forall i :: 0 <= i < |ids| ==> r[i] == NewTable(SqlName(ids[i]), SpecsOf(reg, ids[i]))
  {
    seq(|ids|, i requires 0 <= i < |ids| => NewTable(SqlName(ids[i]), SpecsOf(reg, ids[i])))
  }

  /** One CREATE TABLE for each object, in sorted order: `schema.sql`. */
  function BaselineSql(reg: Registry): seq<Statement>
    requires ValidRegistry(reg)
  {
    Creates(NewTables(reg, SortSet(reg.objects.Keys)))
  }

  /** Every enumeration in use lists values. */
  predicate AllListed(reg: Registry) {
    forall o | o in reg.objects :: ObjectLists(reg, o)
  }

  /** `None` when `_postgresql_artifacts` raises. */
  function BaselineScript(reg: Registry): Option<seq<Statement>>
    requires ValidRegistry(reg)
  {
    if AllListed(reg) then Some(BaselineSql(reg)) else None
  }

  lemma {:induction false} CreatesAppend(items: seq<NewTable>, item: NewTable)
    ensures Creates(items + [item]) == Creates(items) + [CreateOf(item)]
  {
    if items == [] {
      assert items + [item] == [item];
      assert Creates([item]) == [CreateOf(item)] + Creates([]);
    } else {
      assert (items + [item])[0] == items[0] && (items + [item])[1..] == items[1..] + [item];
      CreatesAppend(items[1..], item);
    }
  }

  lemma CreatesGrow(reg: Registry, ids: seq<string>, i: nat)
    requires ValidRegistry(reg) && (forall o | o in ids :: o in reg.objects) && i < |ids|
    ensures Creates(NewTables(reg, ids[..i + 1])) ==
      Creates(NewTables(reg, ids[..i])) + [CreateFrom(SqlName(ids[i]), Sorted(SpecsOf(reg, ids[i])))]
  {
    var item := NewTable(SqlName(ids[i]), SpecsOf(reg, ids[i]));
    assert NewTables(reg, ids[..i + 1]) == NewTables(reg, ids[..i]) + [item];
    CreatesAppend(NewTables(reg, ids[..i]), item);
  }

  predicate IdsListed(reg: Registry, ids: seq<string>)
    requires forall o | o in ids :: o in reg.objects
  {
    forall o | o in ids :: ObjectLists(reg, o)
  }

  lemma IdsListedStep(reg: Registry, ids: seq<string>, i: nat)
    requires (forall o | o in ids :: o in reg.objects) && i < |ids|
    ensures IdsListed(reg, ids[..i + 1]) <==> IdsListed(reg, ids[..i]) && ObjectLists(reg, ids[i])
    ensures IdsListed(reg, ids) ==> ObjectLists(reg, ids[i])
  {
    assert ids[..i + 1] == ids[..i] + [ids[i]];
  }

  /** The statements of `_postgresql_artifacts`, for the objects in the given order. */
  method CreateTablesSql(reg: Registry, ids: seq<string>) returns (script: Option<seq<Statement>>)
    requires ValidRegistry(reg) && forall o | o in ids :: o in reg.objects
    ensures script == if IdsListed(reg, ids) then Some(Creates(NewTables(reg, ids))) else None
  {
    var sql: seq<Statement> := [];
    for i := 0 to |ids|
      invariant sql == Creates(NewTables(reg, ids[..i]))
      invariant IdsListed(reg, ids[..i])
    {
      IdsListedStep(reg, ids, i);
      var stmt := CreateTableSql(reg, ids[i]);
      if stmt == None {
        return None;
      }
      CreatesGrow(reg, ids, i);
      sql := sql + [stmt.value];
    }
    assert ids[..|ids|] == ids;
    return Some(sql);
  }

  method PostgresqlSql(reg: Registry) returns (script: Option<seq<Statement>>)
    requires ValidRegistry(reg)
    ensures script == BaselineScript(reg)
  {
    var ids := SortSet(reg.objects.Keys);
    AllIdsListed(reg, ids);
    script := CreateTablesSql(reg, ids);
  }

  lemma AllIdsListed(reg: Registry, ids: seq<string>)
    requires forall o :: o in ids <==> o in reg.objects
    ensures IdsListed(reg, ids) <==> AllListed(reg)
  {
  }

  predicate SameShape(t: Table, u: Table) {
    t.columns == u.columns && t.constraints == u.constraints
  }

  /** Exactly the tables of the registry, with any rows. A registry whose enumerations cannot be read has no schema. */
  ghost predicate HasSchema(db: Database, reg: Registry)
    requires ValidRegistry(reg)
  {
    && AllReadable(reg)
    && (forall o :: o in reg.objects ==> SqlName(o) in db && SameShape(db[SqlName(o)], TableOf(reg, o)))
    && (forall t :: t in db ==> TableNamed(reg, t))
  }

  ghost predicate TableNamed(reg: Registry, t: string) {
    exists o :: o in reg.objects && SqlName(o) == t
  }

  ghost predicate ObjectsWellFormed(reg: Registry)
    requires ValidRegistry(reg)
  {
    forall o :: o in reg.objects ==> NamesApart(SpecsOf(reg, o)) && ChecksReadable(SpecsOf(reg, o))
  }

  lemma EmittableMeans(reg: Registry)
    requires ValidRegistry(reg)
    ensures Emittable(reg) <==>
      && ObjectsWellFormed(reg)
      && (forall a, b :: a in reg.objects && b in reg.objects && a != b ==> SqlName(a) != SqlName(b))
  {
    forall o | o in reg.objects ensures ChecksReadable(SpecsOf(reg, o)) <==> TypesReadable(reg, o) {
      SpecsAreLawful(reg, o);
    }
    if ObjectsWellFormed(reg) {
      forall o, p | HasProperty(reg, o, p) ensures ReadableType(reg, reg.objects[o][p].typ) {
        assert TypesReadable(reg, o);
      }
    }
    if Emittable(reg) {
      forall o | o in reg.objects ensures TypesReadable(reg, o) {
        forall p | p in reg.objects[o] ensures ReadableType(reg, reg.objects[o][p].typ) {
          assert HasProperty(reg, o, p);
        }
      }
    }
  }

  /** Static checks aside, the script runs exactly when names do not collide and every enumeration in use can be read;
      and then it builds the schema. */
  lemma BaselineAcceptedIff(pg: Server, reg: Registry)
    requires ValidRegistry(reg)
    ensures Run(pg, false, map[], BaselineSql(reg)).Some? <==> Emittable(reg)
    ensures Run(pg, false, map[], BaselineSql(reg)).Some? ==>
      HasSchema(Run(pg, false, map[], BaselineSql(reg)).value, reg)
  {
    var ids := SortSet(reg.objects.Keys);
    var items := NewTables(reg, ids);
    forall i | 0 <= i < |items| ensures Lawful(items[i]) {
      assert ids[i] in ids;
      SpecsAreLawful(reg, ids[i]);
    }
    RunCreates(pg, items, map[]);
    EmittableMeans(reg);
    AcceptableIsEmittable(reg, ids);
    if Run(pg, false, map[], BaselineSql(reg)).Some? {
      TablesMakeSchema(reg, ids, Run(pg, false, map[], BaselineSql(reg)).value);
    }
  }

  lemma TablesMakeSchema(reg: Registry, ids: seq<string>, db: Database)
    requires ValidRegistry(reg) && AllReadable(reg) && (forall o :: o in ids <==> o in reg.objects)
    requires WithTables(TableMade, NewTables(reg, ids), map[], db)
    ensures HasSchema(db, reg)
  {
    var items := NewTables(reg, ids);
    forall o | o in reg.objects ensures SqlName(o) in db && SameShape(db[SqlName(o)], TableOf(reg, o)) {
      assert o in ids;
      var i :| 0 <= i < |ids| && ids[i] == o;
      assert items[i] == NewTable(SqlName(o), SpecsOf(reg, o));
      assert db[items[i].name] == TableMade(items[i]);
    }
    forall t | t in db ensures TableNamed(reg, t) {
      assert NamedIn(items, t);
      var i :| 0 <= i < |items| && items[i].name == t;
      assert ids[i] in ids;
    }
  }

  lemma AcceptableByObject(items: seq<NewTable>, ids: seq<string>, name: string -> string,
                           specs: map<string, map<string, ColumnSpec>>)
    requires |items| == |ids| && Distinct(ids) && forall o :: o in ids <==> o in specs
    requires forall i :: 0 <= i < |ids| ==> ids[i] in specs && items[i] == NewTable(name(ids[i]), specs[ids[i]])
    ensures Acceptable(items, map[]) <==>
      && (forall o :: o in specs ==> NamesApart(specs[o]) && ChecksReadable(specs[o]))
      && (forall a, b :: a in specs && b in specs && a != b ==> name(a) != name(b))
  {
    if Acceptable(items, map[]) {
      forall o | o in specs ensures NamesApart(specs[o]) && ChecksReadable(specs[o]) {
        assert o in ids;
        var i :| 0 <= i < |ids| && ids[i] == o;
        assert WellFormed(items[i]);
      }
      forall a, b | a in specs && b in specs && a != b ensures name(a) != name(b) {
        assert a in ids && b in ids;
        var i :| 0 <= i < |ids| && ids[i] == a;
        var j :| 0 <= j < |ids| && ids[j] == b;
        assert items[i].name == name(a) && items[j].name == name(b);
      }
    }
  }

  lemma AcceptableIsEmittable(reg: Registry, ids: seq<string>)
    requires ValidRegistry(reg) && Distinct(ids) && forall o :: o in ids <==> o in reg.objects
    ensures Acceptable(NewTables(reg, ids), map[]) <==>
      && ObjectsWellFormed(reg)
      && (forall a, b :: a in reg.objects && b in reg.objects && a != b ==> SqlName(a) != SqlName(b))
  {
    AcceptableByObject(NewTables(reg, ids), ids, SqlName, map o | o in reg.objects :: SpecsOf(reg, o));
  }

  // ----- schemas up to the names of UNIQUE constraints

  /** UNIQUE without its constraint name, as CREATE TABLE writes it. */
  function EraseColumn(column: Column): Column {
    if column.unique.NamedUnique? then column.(unique := InlineUnique) else column
  }

  function EraseColumns(columns: map<string, Column>): (r: map<string, Column>)
    ensures r.Keys == columns.Keys
    ensures forall c :: c in columns ==> r[c] == EraseColumn(columns[c])
  {
    map c | c in columns :: EraseColumn(columns[c])
  }

  predicate SameUpToNames(t: Table, u: Table) {
    EraseColumns(t.columns) == u.columns && t.constraints == u.constraints
  }

  /** The compiled schema, except that a UNIQUE may carry a name. */
  ghost predicate HasSchemaUpToNames(db: Database, reg: Registry)
    requires ValidRegistry(reg)
  {
    && AllReadable(reg)
    && (forall o :: o in reg.objects ==> SqlName(o) in db && SameUpToNames(db[SqlName(o)], TableOf(reg, o)))
    && (forall t :: t in db ==> TableNamed(reg, t))
  }
}
