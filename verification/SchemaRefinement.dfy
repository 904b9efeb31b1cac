/** The migrated schema against the schema compiled from the current registry: when they agree, and in what they
    agree always. */
module SchemaRefinement {
  import opened Ordering
  import opened Values
  import opened Registry
  import opened Database
  import opened SqlLiteral
  import opened SchemaCompiler
  import opened Schema
  import opened MigrationPlan
  import opened MigrationSql
  import opened BackfillSafety
  import opened Refinement
  import opened MigrationRun
  import opened MigrationTheorems

  // ----- the migrated schema against the compiled one

  /** The property's column and constraint compile alike in both registries, as far as the registries show:
      same flags where they matter, and the same enumeration, if it is one. */
  predicate Keeps(prev: Registry, cur: Registry, o: string, p: string)
    requires HasProperty(prev, o, p) && HasProperty(cur, o, p)
  {
    var before, after := prev.objects[o][p], cur.objects[o][p];
    && before.required == after.required
    && (!IsReference(before.typ) ==>
          before.unique == after.unique && EnumValues(prev, before.typ) == EnumValues(cur, before.typ))
  }

  /** The values that a CHECK on the enumeration lists: `None` if it is none, `Some(None)` if they cannot be read. */
  function EnumValues(reg: Registry, typ: string): Option<Option<set<string>>> {
    if typ in reg.types then Some(if reg.types[typ].Some? then ListedValues(reg.types[typ].value) else None) else None
  }

  ghost predicate AllKept(prev: Registry, cur: Registry) {
    forall o, p :: HasProperty(prev, o, p) && HasProperty(cur, o, p) ==> Keeps(prev, cur, o, p)
  }

  lemma SpecsEqualIff(prev: Registry, cur: Registry, o: string, p: string)
    requires ValidRegistry(prev) && ValidRegistry(cur) && HasProperty(prev, o, p) && HasProperty(cur, o, p)
    requires prev.objects[o][p].typ == cur.objects[o][p].typ
    ensures Spec(prev, o, p) == Spec(cur, o, p) <==> Keeps(prev, cur, o, p)
  {
    var typ := prev.objects[o][p].typ;
    if !IsReference(typ) {
      assert KnownType(prev, typ) && KnownType(cur, typ);
      SpecOfEnum(prev, o, p);
      SpecOfEnum(cur, o, p);
    }
  }

  lemma SpecOfEnum(reg: Registry, o: string, p: string)
    requires ValidRegistry(reg) && HasProperty(reg, o, p) && !IsReference(reg.objects[o][p].typ)
    ensures Spec(reg, o, p).name == p
    ensures Spec(reg, o, p).column.notNull == reg.objects[o][p].required
    ensures Spec(reg, o, p).column.unique == if reg.objects[o][p].unique then InlineUnique else NotUnique
    ensures Spec(reg, o, p).constraint == match EnumValues(reg, reg.objects[o][p].typ)
      case None => None
      case Some(values) => Some((CheckName(o, p), CheckIn(p, values)))
    ensures Spec(reg, o, p).column.typ ==
      if reg.objects[o][p].typ == "Boolean" && reg.objects[o][p].typ !in reg.types then BooleanType
      else if reg.objects[o][p].typ == "Timestamp" && reg.objects[o][p].typ !in reg.types then TimestampTz
      else Text
    ensures Spec(reg, o, p).column.default == None
  {
    assert KnownType(reg, reg.objects[o][p].typ);
  }

  function EraseSpec(spec: ColumnSpec): ColumnSpec {
    spec.(column := EraseColumn(spec.column))
  }

  function EraseSpecs(specs: map<string, ColumnSpec>): (r: map<string, ColumnSpec>)
    ensures r.Keys == specs.Keys
    ensures forall p :: p in specs ==> r[p] == EraseSpec(specs[p])
  {
    map p | p in specs :: EraseSpec(specs[p])
  }

  lemma EraseDescription(specs: map<string, ColumnSpec>, columns: map<string, Column>,
                         constraints: map<string, Constraint>)
    requires Describes(specs, columns, constraints)
    ensures Describes(EraseSpecs(specs), EraseColumns(columns), constraints)
  {
    var erased := EraseSpecs(specs);
    forall c | c in columns && NamesColumn(specs, c) ensures NamesColumn(erased, c) {
      var p :| p in specs && specs[p].name == c;
      assert erased[p].name == c;
    }
    forall k | k in constraints ensures NamesConstraint(erased, k) {
      var p :| p in specs && specs[p].constraint.Some? && specs[p].constraint.value.0 == k;
      assert erased[p].constraint.value.0 == k;
    }
  }

  /** Two descriptions of one table agree property by property, when the names match. */
  lemma DescriptionDetermines(a: map<string, ColumnSpec>, b: map<string, ColumnSpec>, columns: map<string, Column>,
                              constraints: map<string, Constraint>, p: string)
    requires Describes(a, columns, constraints) && Describes(b, columns, constraints)
    requires p in a && p in b && a[p].name == b[p].name
    requires forall q :: q in b && q != p && b[q].constraint.Some? && a[p].constraint.Some? ==>
      b[q].constraint.value.0 != a[p].constraint.value.0
    requires forall q :: q in a && q != p && a[q].constraint.Some? && b[p].constraint.Some? ==>
      a[q].constraint.value.0 != b[p].constraint.value.0
    ensures a[p] == b[p]
  {
    if a[p].constraint.Some? {
      var k := a[p].constraint.value.0;
      assert NamesConstraint(b, k);
      assert b[p].constraint.Some? && b[p].constraint.value.0 == k;
    } else {
      forall k | k in constraints ensures b[p].constraint.Some? ==> k != b[p].constraint.value.0 {
        assert NamesConstraint(a, k);
      }
    }
  }

  // ----- one kept table

  function ErasedTarget(prev: Registry, cur: Registry, o: string, p: string): ColumnSpec
    requires ValidRegistry(prev) && ValidRegistry(cur) && o in prev.objects && HasProperty(cur, o, p)
  {
    if p in prev.objects[o] then Spec(prev, o, p) else Spec(cur, o, p)
  }

  /** The previous table's column for a property is its compiled column, up to a UNIQUE name. */
  lemma ActualErases(prev: Registry, o: string, p: string, before: Table)
    requires ValidRegistry(prev) && HasProperty(prev, o, p) && NamesApart(SpecsOf(prev, o))
    requires SameUpToNames(before, TableOf(prev, o))
    ensures EraseSpec(ActualSpec(prev, o, p, before)) == Spec(prev, o, p)
  {
    TableOfIsDescribed(prev, o);
    assert SpecsOf(prev, o)[p] == Spec(prev, o, p);
    assert EraseColumns(before.columns)[Spec(prev, o, p).name] == Spec(prev, o, p).column;
  }

  lemma NewTargetErases(prev: Registry, cur: Registry, o: string, p: string, before: Table)
    requires ValidRegistry(prev) && ValidRegistry(cur) && o in prev.objects && HasProperty(cur, o, p)
    requires p !in prev.objects[o]
    ensures EraseSpec(TargetSpec(prev, cur, o, p, before)) == ErasedTarget(prev, cur, o, p)
  {
    SpecFlags(cur, o, p);
  }

  lemma TargetErases(prev: Registry, cur: Registry, o: string, before: Table)
    requires Upgrade(prev, cur) && o in prev.objects && o in cur.objects && SameUpToNames(before, TableOf(prev, o))
    ensures forall p :: p in cur.objects[o] ==>
      EraseSpecs(Target(prev, cur, o, before))[p] == ErasedTarget(prev, cur, o, p)
  {
    PreviousNamesApart(prev, cur, o);
    forall p | p in cur.objects[o]
      ensures EraseSpecs(Target(prev, cur, o, before))[p] == ErasedTarget(prev, cur, o, p)
    {
      if p in prev.objects[o] {
        ActualErases(prev, o, p, before);
      } else {
        NewTargetErases(prev, cur, o, p, before);
      }
    }
  }

  ghost predicate ObjectKept(prev: Registry, cur: Registry, o: string)
    requires o in prev.objects && o in cur.objects
  {
    forall p :: p in prev.objects[o] && p in cur.objects[o] ==> Keeps(prev, cur, o, p)
  }

  lemma ErasedTargetIsCompiled(prev: Registry, cur: Registry, o: string, before: Table)
    requires Upgrade(prev, cur) && o in prev.objects && o in cur.objects
    requires SameUpToNames(before, TableOf(prev, o)) && ObjectKept(prev, cur, o)
    ensures EraseSpecs(Target(prev, cur, o, before)) == SpecsOf(cur, o)
  {
    assert ObjectReady(cur, prev, o);
    TargetErases(prev, cur, o, before);
    forall p | p in cur.objects[o] ensures ErasedTarget(prev, cur, o, p) == Spec(cur, o, p) {
      if p in prev.objects[o] {
        SpecsEqualIff(prev, cur, o, p);
      }
    }
  }

  lemma KeptObjectMatches(pg: Server, prev: Registry, cur: Registry, o: string, before: Table, t: Table)
    requires Upgrade(prev, cur) && o in prev.objects && o in cur.objects
    requires SameUpToNames(before, TableOf(prev, o))
    requires KeptTable(pg, prev, cur, o, before, t) && ObjectKept(prev, cur, o)
    ensures SameUpToNames(t, TableOf(cur, o))
  {
    ErasedTargetIsCompiled(prev, cur, o, before);
    EraseDescription(Target(prev, cur, o, before), t.columns, t.constraints);
    TableOfIsDescribed(cur, o);
    DescriptionIsUnique(SpecsOf(cur, o), Table(EraseColumns(t.columns), t.constraints, []), TableOf(cur, o));
  }

  lemma MatchingSpecs(pg: Server, prev: Registry, cur: Registry, o: string, before: Table, t: Table)
    requires Upgrade(prev, cur) && o in prev.objects && o in cur.objects
    requires KeptTable(pg, prev, cur, o, before, t) && SameUpToNames(t, TableOf(cur, o))
    ensures Describes(EraseSpecs(Target(prev, cur, o, before)), TableOf(cur, o).columns, TableOf(cur, o).constraints)
    ensures Describes(SpecsOf(cur, o), TableOf(cur, o).columns, TableOf(cur, o).constraints)
  {
    EraseDescription(Target(prev, cur, o, before), t.columns, t.constraints);
    TableOfIsDescribed(cur, o);
  }

  lemma MatchingSpec(prev: Registry, cur: Registry, o: string, before: Table, p: string,
                     columns: map<string, Column>, constraints: map<string, Constraint>)
    requires Upgrade(prev, cur) && o in prev.objects && HasProperty(cur, o, p)
    requires Describes(EraseSpecs(Target(prev, cur, o, before)), columns, constraints)
    requires Describes(SpecsOf(cur, o), columns, constraints)
    ensures EraseSpecs(Target(prev, cur, o, before))[p] == Spec(cur, o, p)
  {
    var a, b := EraseSpecs(Target(prev, cur, o, before)), SpecsOf(cur, o);
    TargetNames(prev, cur, o, p, before);
    forall q | q in b && q != p
      ensures b[q].constraint.Some? && a[p].constraint.Some? ==> b[q].constraint.value.0 != a[p].constraint.value.0
      ensures a[q].constraint.Some? && b[p].constraint.Some? ==> a[q].constraint.value.0 != b[p].constraint.value.0
    {
      NamesOfOthersDiffer(prev, cur, o, p, q, before);
    }
    DescriptionDetermines(a, b, columns, constraints, p);
  }

  lemma MatchMeansKept(pg: Server, prev: Registry, cur: Registry, o: string, before: Table, t: Table, p: string)
    requires Upgrade(prev, cur) && o in prev.objects && o in cur.objects
    requires SameUpToNames(before, TableOf(prev, o))
    requires KeptTable(pg, prev, cur, o, before, t) && SameUpToNames(t, TableOf(cur, o))
    requires p in prev.objects[o] && p in cur.objects[o]
    ensures Keeps(prev, cur, o, p)
  {
    assert ObjectReady(cur, prev, o);
    TargetErases(prev, cur, o, before);
    MatchingSpecs(pg, prev, cur, o, before, t);
    MatchingSpec(prev, cur, o, before, p, TableOf(cur, o).columns, TableOf(cur, o).constraints);
    SpecsEqualIff(prev, cur, o, p);
  }

  lemma NamesOfOthersDiffer(prev: Registry, cur: Registry, o: string, p: string, q: string, before: Table)
    requires Upgrade(prev, cur) && o in prev.objects && HasProperty(cur, o, p) && HasProperty(cur, o, q) && p != q
    ensures var t, s := TargetSpec(prev, cur, o, p, before).constraint, Spec(cur, o, q).constraint;
      t.Some? && s.Some? ==> s.value.0 != t.value.0
    ensures var t, s := TargetSpec(prev, cur, o, q, before).constraint, Spec(cur, o, p).constraint;
      t.Some? && s.Some? ==> t.value.0 != s.value.0
  {
    TargetNames(prev, cur, o, p, before);
    TargetNames(prev, cur, o, q, before);
    ConstraintNames(cur, o, p);
    ConstraintNames(cur, o, q);
    var tp, tq := TargetSpec(prev, cur, o, p, before).constraint, TargetSpec(prev, cur, o, q, before).constraint;
    var sp, sq := Spec(cur, o, p).constraint, Spec(cur, o, q).constraint;
    if tp.Some? && sq.Some? {
      ConstraintNamesDiffer(o, p, q, tp.value.0, sq.value.0);
    }
    if tq.Some? && sp.Some? {
      ConstraintNamesDiffer(o, q, p, tq.value.0, sp.value.0);
    }
  }

  // ----- the schema as a whole

  lemma CompiledTableHasNoNames(reg: Registry, o: string)
    requires ValidRegistry(reg) && Unambiguous(reg) && o in reg.objects
    ensures EraseColumns(TableOf(reg, o).columns) == TableOf(reg, o).columns
  {
    var columns, specs := TableOf(reg, o).columns, SpecsOf(reg, o);
    TableOfIsDescribed(reg, o);
    forall c | c in columns ensures EraseColumn(columns[c]) == columns[c] {
      if c != "id" && c != "version" {
        assert NamesColumn(specs, c);
        var p :| p in specs && specs[p].name == c;
        SpecFlags(reg, o, p);
      }
    }
  }

  lemma ObjectOfAllKept(prev: Registry, cur: Registry, o: string)
    requires AllKept(prev, cur) && o in prev.objects && o in cur.objects
    ensures ObjectKept(prev, cur, o)
  {
    forall p | p in prev.objects[o] && p in cur.objects[o] ensures Keeps(prev, cur, o, p) {
      assert HasProperty(prev, o, p) && HasProperty(cur, o, p);
    }
  }

  lemma KeptMeansMatch(pg: Server, prev: Registry, cur: Registry, db0: Database, db: Database, o: string)
    requires Start(prev, cur, db0) && Migrated(pg, prev, cur, db0, db) && AllKept(prev, cur) && o in cur.objects
    ensures SqlName(o) in db && SameUpToNames(db[SqlName(o)], TableOf(cur, o))
  {
    if o in prev.objects {
      ObjectOfAllKept(prev, cur, o);
      KeptObjectMatches(pg, prev, cur, o, db0[SqlName(o)], db[SqlName(o)]);
    } else {
      CompiledTableHasNoNames(cur, o);
    }
  }

  lemma KeptMeansSchema(pg: Server, prev: Registry, cur: Registry, db0: Database, db: Database)
    requires Start(prev, cur, db0) && Migrated(pg, prev, cur, db0, db) && AllKept(prev, cur)
    ensures HasSchemaUpToNames(db, cur)
  {
    forall o | o in cur.objects ensures SqlName(o) in db && SameUpToNames(db[SqlName(o)], TableOf(cur, o)) {
      KeptMeansMatch(pg, prev, cur, db0, db, o);
    }
    KeptMeansReadable(prev, cur);
  }

  lemma KeepsReadable(mid: Registry, cur: Registry, o: string, p: string)
    requires HasProperty(mid, o, p) && HasProperty(cur, o, p) && Keeps(mid, cur, o, p)
    requires mid.objects[o][p].typ == cur.objects[o][p].typ && ReadableType(mid, mid.objects[o][p].typ)
    ensures ReadableType(cur, cur.objects[o][p].typ)
  {
  }

  lemma KeptMeansReadable(prev: Registry, cur: Registry)
    requires Upgrade(prev, cur) && AllReadable(prev) && AllKept(prev, cur)
    ensures AllReadable(cur)
  {
    forall o, p | HasProperty(cur, o, p) ensures ReadableType(cur, cur.objects[o][p].typ) {
      if HasProperty(prev, o, p) {
        assert ObjectReady(cur, prev, o);
        KeepsReadable(prev, cur, o, p);
      }
    }
  }

  lemma SchemaMeansKept(pg: Server, prev: Registry, cur: Registry, db0: Database, db: Database, o: string, p: string)
    requires Start(prev, cur, db0) && Migrated(pg, prev, cur, db0, db) && HasSchemaUpToNames(db, cur)
    requires HasProperty(prev, o, p) && HasProperty(cur, o, p)
    ensures Keeps(prev, cur, o, p)
  {
    MatchMeansKept(pg, prev, cur, o, db0[SqlName(o)], db[SqlName(o)], p);
  }

  /** The migrated schema is the compiled one, UNIQUE names aside, exactly when every surviving property keeps its
      flags and its enumeration: the planner compares none of these. */
  lemma SchemaMatchesIff(pg: Server, prev: Registry, cur: Registry, db0: Database, db: Database)
    requires Start(prev, cur, db0) && Migrated(pg, prev, cur, db0, db)
    ensures HasSchemaUpToNames(db, cur) <==> AllKept(prev, cur)
  {
    if AllKept(prev, cur) {
      KeptMeansSchema(pg, prev, cur, db0, db);
    }
    if HasSchemaUpToNames(db, cur) {
      forall o, p | HasProperty(prev, o, p) && HasProperty(cur, o, p) ensures Keeps(prev, cur, o, p) {
        SchemaMeansKept(pg, prev, cur, db0, db, o, p);
      }
    }
  }

  // ----- names of UNIQUE constraints

  /** A required unique scalar added to a kept object gets its UNIQUE by a named constraint, not in the column. */
  predicate NamesUnique(prev: Registry, cur: Registry, o: string, p: string) {
    RequiredAddition(cur, prev, o, p) && cur.objects[o][p].unique && !IsReference(cur.objects[o][p].typ)
  }

  lemma AddedColumn(prev: Registry, cur: Registry, o: string, p: string, before: Table)
    requires Upgrade(prev, cur) && o in prev.objects && HasProperty(cur, o, p) && p !in prev.objects[o]
    ensures NamesUnique(prev, cur, o, p) ==> TargetSpec(prev, cur, o, p, before).column.unique.NamedUnique?
    ensures !NamesUnique(prev, cur, o, p) ==> TargetSpec(prev, cur, o, p, before) == Spec(cur, o, p)
  {
    SpecFlags(cur, o, p);
    if !IsReference(cur.objects[o][p].typ) {
      SpecOfEnum(cur, o, p);
    }
  }

  lemma ActualIsCompiled(prev: Registry, o: string, p: string, before: Table)
    requires ValidRegistry(prev) && HasProperty(prev, o, p) && NamesApart(SpecsOf(prev, o))
    requires SameShape(before, TableOf(prev, o))
    ensures ActualSpec(prev, o, p, before) == Spec(prev, o, p)
  {
    TableOfIsDescribed(prev, o);
    assert SpecsOf(prev, o)[p] == Spec(prev, o, p);
  }

  lemma TargetSpecIsCompiled(prev: Registry, cur: Registry, o: string, p: string, before: Table)
    requires Upgrade(prev, cur) && o in prev.objects && SameShape(before, TableOf(prev, o)) && HasProperty(cur, o, p)
    requires ObjectKept(prev, cur, o) && !NamesUnique(prev, cur, o, p)
    ensures TargetSpec(prev, cur, o, p, before) == Spec(cur, o, p)
  {
    if p in prev.objects[o] {
      assert ObjectReady(cur, prev, o);
      PreviousNamesApart(prev, cur, o);
      ActualIsCompiled(prev, o, p, before);
      SpecsEqualIff(prev, cur, o, p);
    } else {
      AddedColumn(prev, cur, o, p, before);
    }
  }

  lemma TargetIsCompiled(prev: Registry, cur: Registry, o: string, before: Table)
    requires Upgrade(prev, cur) && o in prev.objects && SameShape(before, TableOf(prev, o)) && o in cur.objects
    requires ObjectKept(prev, cur, o) && forall p :: p in cur.objects[o] ==> !NamesUnique(prev, cur, o, p)
    ensures Target(prev, cur, o, before) == SpecsOf(cur, o)
  {
    forall p | p in cur.objects[o] ensures TargetSpec(prev, cur, o, p, before) == Spec(cur, o, p) {
      TargetSpecIsCompiled(prev, cur, o, p, before);
    }
  }

  lemma ExactObject(pg: Server, prev: Registry, cur: Registry, o: string, before: Table, t: Table)
    requires Upgrade(prev, cur) && o in prev.objects && SameShape(before, TableOf(prev, o)) && o in cur.objects
    requires KeptTable(pg, prev, cur, o, before, t) && ObjectKept(prev, cur, o)
    requires forall p :: p in cur.objects[o] ==> !NamesUnique(prev, cur, o, p)
    ensures SameShape(t, TableOf(cur, o))
  {
    TargetIsCompiled(prev, cur, o, before);
    TableOfIsDescribed(cur, o);
    DescriptionIsUnique(SpecsOf(cur, o), t, TableOf(cur, o));
  }

  lemma NamedColumnDiffers(pg: Server, prev: Registry, cur: Registry, o: string, p: string, before: Table, t: Table)
    requires Upgrade(prev, cur) && NamesUnique(prev, cur, o, p) && KeptTable(pg, prev, cur, o, before, t)
    ensures t.columns != TableOf(cur, o).columns
  {
    AddedColumn(prev, cur, o, p, before);
    TargetNames(prev, cur, o, p, before);
    TableOfIsDescribed(cur, o);
    SpecFlags(cur, o, p);
    assert t.columns[Target(prev, cur, o, before)[p].name].unique.NamedUnique?;
    assert TableOf(cur, o).columns[SpecsOf(cur, o)[p].name].unique == Spec(cur, o, p).column.unique;
  }

  lemma MatchIsExact(pg: Server, prev: Registry, cur: Registry, db0: Database, db: Database, o: string)
    requires ValidRegistry(prev) && HasSchema(db0, prev)
    requires Start(prev, cur, db0) && Migrated(pg, prev, cur, db0, db) && AllKept(prev, cur) && o in cur.objects
    requires forall o, p :: !NamesUnique(prev, cur, o, p)
    ensures SqlName(o) in db && SameShape(db[SqlName(o)], TableOf(cur, o))
  {
    if o in prev.objects {
      ObjectOfAllKept(prev, cur, o);
      ExactObject(pg, prev, cur, o, db0[SqlName(o)], db[SqlName(o)]);
    }
  }

  lemma ExactMeansMatch(db: Database, reg: Registry)
    requires ValidRegistry(reg) && Unambiguous(reg) && HasSchema(db, reg)
    ensures HasSchemaUpToNames(db, reg)
  {
    forall o | o in reg.objects ensures SqlName(o) in db && SameUpToNames(db[SqlName(o)], TableOf(reg, o)) {
      CompiledTableHasNoNames(reg, o);
    }
  }

  lemma NoNamesMeansExact(pg: Server, prev: Registry, cur: Registry, db0: Database, db: Database)
    requires ValidRegistry(prev) && HasSchema(db0, prev)
    requires Start(prev, cur, db0) && Migrated(pg, prev, cur, db0, db) && AllKept(prev, cur)
    requires forall o, p :: !NamesUnique(prev, cur, o, p)
    ensures HasSchema(db, cur)
  {
    forall o | o in cur.objects ensures SqlName(o) in db && SameShape(db[SqlName(o)], TableOf(cur, o)) {
      MatchIsExact(pg, prev, cur, db0, db, o);
    }
    KeptMeansReadable(prev, cur);
  }

  lemma ExactMeansNoNames(pg: Server, prev: Registry, cur: Registry, db0: Database, db: Database, o: string, p: string)
    requires Start(prev, cur, db0) && Migrated(pg, prev, cur, db0, db) && HasSchema(db, cur)
    ensures !NamesUnique(prev, cur, o, p)
  {
    if NamesUnique(prev, cur, o, p) {
      NamedColumnDiffers(pg, prev, cur, o, p, db0[SqlName(o)], db[SqlName(o)]);
    }
  }

  /** From exactly the previous schema, it is the current one to the letter exactly when, besides, no required unique
      scalar was added to a kept object: its UNIQUE then bears a name that CREATE TABLE does not give. */
  lemma SchemaExactIff(pg: Server, prev: Registry, cur: Registry, db0: Database, db: Database)
    requires ValidRegistry(prev) && HasSchema(db0, prev)
    requires Start(prev, cur, db0) && Migrated(pg, prev, cur, db0, db)
    ensures HasSchema(db, cur) <==> AllKept(prev, cur) && forall o, p :: !NamesUnique(prev, cur, o, p)
  {
    SchemaMatchesIff(pg, prev, cur, db0, db);
    if HasSchema(db, cur) {
      ExactMeansMatch(db, cur);
      forall o, p ensures !NamesUnique(prev, cur, o, p) {
        ExactMeansNoNames(pg, prev, cur, db0, db, o, p);
      }
    }
    if AllKept(prev, cur) && forall o, p :: !NamesUnique(prev, cur, o, p) {
      NoNamesMeansExact(pg, prev, cur, db0, db);
    }
  }

  // ----- what agrees without any proviso

  /** Tables and column names always agree. */
  lemma NamesAlwaysAgree(pg: Server, prev: Registry, cur: Registry, db0: Database, db: Database)
    requires Start(prev, cur, db0) && Migrated(pg, prev, cur, db0, db)
    ensures forall t :: t in db <==> TableNamed(cur, t)
    ensures forall o :: o in cur.objects ==> db[SqlName(o)].columns.Keys == TableOf(cur, o).columns.Keys
  {
    forall o | o in cur.objects
      ensures SqlName(o) in db && db[SqlName(o)].columns.Keys == TableOf(cur, o).columns.Keys
    {
      if o in prev.objects {
        KeptColumnNames(pg, prev, cur, o, db0[SqlName(o)], db[SqlName(o)]);
      }
    }
  }

  lemma KeptColumnNames(pg: Server, prev: Registry, cur: Registry, o: string, before: Table, t: Table)
    requires Upgrade(prev, cur) && o in prev.objects && o in cur.objects && KeptTable(pg, prev, cur, o, before, t)
    ensures t.columns.Keys == TableOf(cur, o).columns.Keys
  {
    var target, specs, compiled := Target(prev, cur, o, before), SpecsOf(cur, o), TableOf(cur, o).columns;
    TableOfIsDescribed(cur, o);
    forall p | p in specs ensures target[p].name == specs[p].name {
      TargetNames(prev, cur, o, p, before);
    }
    forall c | c in t.columns ensures c in compiled {
      if c != "id" && c != "version" {
        assert NamesColumn(target, c);
        var p :| p in target && target[p].name == c;
        assert specs[p].name in compiled;
      }
    }
    forall c | c in compiled ensures c in t.columns {
      if c != "id" && c != "version" {
        assert NamesColumn(specs, c);
        var p :| p in specs && specs[p].name == c;
        assert target[p].name in t.columns;
      }
    }
  }

  /** An entry of `types` hides the built-in type of the same name from the column compiler. */
  predicate TypeShifts(prev: Registry, cur: Registry, typ: string) {
    typ in {"Boolean", "Timestamp"} && (typ in prev.types) != (typ in cur.types)
  }

  lemma SpecTypesAgreeIff(prev: Registry, cur: Registry, o: string, p: string)
    requires ValidRegistry(prev) && ValidRegistry(cur) && HasProperty(prev, o, p) && HasProperty(cur, o, p)
    requires prev.objects[o][p].typ == cur.objects[o][p].typ
    ensures Spec(prev, o, p).column.typ == Spec(cur, o, p).column.typ <==> !TypeShifts(prev, cur, cur.objects[o][p].typ)
  {
    var typ := cur.objects[o][p].typ;
    if IsReference(typ) {
      assert typ[0] == 'R' && "Boolean"[0] == 'B' && "Timestamp"[0] == 'T';
    } else {
      SpecOfEnum(prev, o, p);
      SpecOfEnum(cur, o, p);
    }
  }

  /** The column of a surviving property before and after, looked up by its name. */
  lemma SurvivorColumns(pg: Server, prev: Registry, cur: Registry, o: string, p: string, before: Table, t: Table)
    requires ValidRegistry(prev) && o in prev.objects && SameUpToNames(before, TableOf(prev, o))
    requires Upgrade(prev, cur) && o in prev.objects && o in cur.objects && KeptTable(pg, prev, cur, o, before, t)
    requires p in prev.objects[o] && p in cur.objects[o]
    ensures var c := Spec(cur, o, p).name;
      && c in t.columns && t.columns[c].typ == Spec(prev, o, p).column.typ
      && c in TableOf(cur, o).columns && TableOf(cur, o).columns[c] == Spec(cur, o, p).column
  {
    TargetNames(prev, cur, o, p, before);
    TableOfIsDescribed(cur, o);
    PreviousNamesApart(prev, cur, o);
    ActualErases(prev, o, p, before);
    assert Target(prev, cur, o, before)[p] == ActualSpec(prev, o, p, before) && SpecsOf(cur, o)[p] == Spec(cur, o, p);
  }

  lemma SurvivorTypeAgreesIff(pg: Server, prev: Registry, cur: Registry, o: string, p: string, before: Table, t: Table)
    requires ValidRegistry(prev) && o in prev.objects && SameUpToNames(before, TableOf(prev, o))
    requires Upgrade(prev, cur) && o in prev.objects && o in cur.objects && KeptTable(pg, prev, cur, o, before, t)
    requires p in prev.objects[o] && p in cur.objects[o]
    ensures Spec(cur, o, p).name in t.columns && Spec(cur, o, p).name in TableOf(cur, o).columns
    ensures t.columns[Spec(cur, o, p).name].typ == TableOf(cur, o).columns[Spec(cur, o, p).name].typ <==>
      !TypeShifts(prev, cur, cur.objects[o][p].typ)
  {
    assert ObjectReady(cur, prev, o);
    SurvivorColumns(pg, prev, cur, o, p, before, t);
    SpecTypesAgreeIff(prev, cur, o, p);
  }

  ghost predicate TypesAgree(prev: Registry, cur: Registry, db: Database)
    requires ValidRegistry(cur)
  {
    forall o :: o in cur.objects ==> SqlName(o) in db && SameTypes(db[SqlName(o)].columns, TableOf(cur, o).columns)
  }

  predicate SameTypes(a: map<string, Column>, b: map<string, Column>) {
    forall c | c in a && c in b :: a[c].typ == b[c].typ
  }

  lemma AddedColumnType(pg: Server, prev: Registry, cur: Registry, o: string, p: string, before: Table, t: Table)
    requires Upgrade(prev, cur) && o in prev.objects && o in cur.objects && KeptTable(pg, prev, cur, o, before, t)
    requires p !in prev.objects[o] && p in cur.objects[o]
    ensures var c := Spec(cur, o, p).name;
      c in t.columns && c in TableOf(cur, o).columns && t.columns[c].typ == TableOf(cur, o).columns[c].typ
  {
    TargetNames(prev, cur, o, p, before);
    TableOfIsDescribed(cur, o);
    assert Target(prev, cur, o, before)[p] == TargetSpec(prev, cur, o, p, before) && SpecsOf(cur, o)[p] ==
      Spec(cur, o, p);
  }

  lemma ColumnHasProperty(pg: Server, prev: Registry, cur: Registry, o: string, before: Table, t: Table, c: string)
    returns (p: string)
    requires Upgrade(prev, cur) && o in prev.objects && o in cur.objects && KeptTable(pg, prev, cur, o, before, t)
    requires c in t.columns && c != "id" && c != "version"
    ensures p in cur.objects[o] && Spec(cur, o, p).name == c
  {
    var target := Target(prev, cur, o, before);
    assert NamesColumn(target, c);
    p :| p in target && target[p].name == c;
    TargetNames(prev, cur, o, p, before);
  }

  lemma KeptTypesAgree(pg: Server, prev: Registry, cur: Registry, o: string, before: Table, t: Table)
    requires ValidRegistry(prev) && o in prev.objects && SameUpToNames(before, TableOf(prev, o))
    requires Upgrade(prev, cur) && o in prev.objects && o in cur.objects && KeptTable(pg, prev, cur, o, before, t)
    requires forall p :: p in prev.objects[o] && p in cur.objects[o] ==> !TypeShifts(prev, cur, cur.objects[o][p].typ)
    ensures SameTypes(t.columns, TableOf(cur, o).columns)
  {
    TableOfIsDescribed(cur, o);
    forall c | c in t.columns && c in TableOf(cur, o).columns
      ensures t.columns[c].typ == TableOf(cur, o).columns[c].typ
    {
      if c != "id" && c != "version" {
        var p := ColumnHasProperty(pg, prev, cur, o, before, t, c);
        if p in prev.objects[o] {
          SurvivorTypeAgreesIff(pg, prev, cur, o, p, before, t);
        } else {
          AddedColumnType(pg, prev, cur, o, p, before, t);
        }
      }
    }
  }

  /** Column types agree exactly when no surviving property's Boolean or Timestamp is hidden by an enumeration in one
      registry only. */
  lemma TypesAgreeIff(pg: Server, prev: Registry, cur: Registry, db0: Database, db: Database)
    requires Start(prev, cur, db0) && Migrated(pg, prev, cur, db0, db)
    ensures TypesAgree(prev, cur, db) <==>
      forall o, p :: HasProperty(prev, o, p) && HasProperty(cur, o, p) ==> !TypeShifts(prev, cur, cur.objects[o][p].typ)
  {
    if o, p :| HasProperty(prev, o, p) && HasProperty(cur, o, p) && TypeShifts(prev, cur, cur.objects[o][p].typ) {
      SurvivorTypeAgreesIff(pg, prev, cur, o, p, db0[SqlName(o)], db[SqlName(o)]);
    } else {
      forall o | o in cur.objects
        ensures SqlName(o) in db && SameTypes(db[SqlName(o)].columns, TableOf(cur, o).columns)
      {
        if o in prev.objects {
          forall p | p in prev.objects[o] && p in cur.objects[o] ensures !TypeShifts(prev, cur, cur.objects[o][p].typ) {
            assert HasProperty(prev, o, p) && HasProperty(cur, o, p);
          }
          KeptTypesAgree(pg, prev, cur, o, db0[SqlName(o)], db[SqlName(o)]);
        }
      }
    }
  }

  // ----- foreign keys at the end of the script

  lemma ConstraintHasProperty(specs: map<string, ColumnSpec>, columns: map<string, Column>,
                              constraints: map<string, Constraint>, k: string)
    returns (p: string)
    requires Describes(specs, columns, constraints) && k in constraints
    ensures p in specs && specs[p].constraint == Some((k, constraints[k]))
  {
    assert NamesConstraint(specs, k);
    p :| p in specs && specs[p].constraint.Some? && specs[p].constraint.value.0 == k;
  }

  lemma SpecTargets(reg: Registry, o: string, p: string)
    requires ValidRegistry(reg) && HasProperty(reg, o, p)
    requires Spec(reg, o, p).constraint.Some? && Spec(reg, o, p).constraint.value.1.ForeignKey?
    ensures TableNamed(reg, Spec(reg, o, p).constraint.value.1.target)
  {
    ValidatedColumnsResolve(reg, o, p);
  }

  lemma KeptForeignKey(pg: Server, prev: Registry, cur: Registry, o: string, before: Table, t: Table, k: string)
    requires Upgrade(prev, cur) && o in prev.objects && o in cur.objects && KeptTable(pg, prev, cur, o, before, t)
    requires k in t.constraints && t.constraints[k].ForeignKey?
    ensures TableNamed(cur, t.constraints[k].target)
  {
    var p := ConstraintHasProperty(Target(prev, cur, o, before), t.columns, t.constraints, k);
    if p in prev.objects[o] {
      SpecTargets(prev, o, p);
      var a :| a in prev.objects && SqlName(a) == t.constraints[k].target;
      assert a in cur.objects;
    } else {
      SpecTargets(cur, o, p);
    }
  }

  lemma CompiledForeignKey(reg: Registry, o: string, k: string)
    requires ValidRegistry(reg) && o in reg.objects && NamesApart(SpecsOf(reg, o))
    requires k in TableOf(reg, o).constraints && TableOf(reg, o).constraints[k].ForeignKey?
    ensures TableNamed(reg, TableOf(reg, o).constraints[k].target)
  {
    TableOfIsDescribed(reg, o);
    var p := ConstraintHasProperty(SpecsOf(reg, o), TableOf(reg, o).columns, TableOf(reg, o).constraints, k);
    SpecTargets(reg, o, p);
  }

  /** Every foreign key of the migrated schema finds its target table. */
  lemma ForeignKeysFindTables(pg: Server, prev: Registry, cur: Registry, db0: Database, db: Database, o: string,
                              k: string)
    requires Start(prev, cur, db0) && Migrated(pg, prev, cur, db0, db)
    requires o in cur.objects && k in db[SqlName(o)].constraints && db[SqlName(o)].constraints[k].ForeignKey?
    ensures db[SqlName(o)].constraints[k].target in db
  {
    if o in prev.objects {
      KeptForeignKey(pg, prev, cur, o, db0[SqlName(o)], db[SqlName(o)], k);
    } else {
      CompiledForeignKey(cur, o, k);
    }
    TablesOfCurrentExist(pg, prev, cur, db0, db);
  }

  lemma TablesOfCurrentExist(pg: Server, prev: Registry, cur: Registry, db0: Database, db: Database)
    requires Start(prev, cur, db0) && Migrated(pg, prev, cur, db0, db)
    ensures forall t :: TableNamed(cur, t) ==> t in db
  {
    forall t | TableNamed(cur, t) ensures t in db {
      var o :| o in cur.objects && SqlName(o) == t;
      if o in prev.objects {
        assert SqlName(o) in db;
      }
    }
  }

  // ----- migrated rows

  /** A column of the table before the migration is one after it. */
  lemma CarriedColumn(pg: Server, prev: Registry, cur: Registry, o: string, before: Table, t: Table, c: string)
    requires Upgrade(prev, cur) && o in prev.objects && o in cur.objects && SameUpToNames(before, TableOf(prev, o))
    requires KeptTable(pg, prev, cur, o, before, t) && c in before.columns
    ensures c in t.columns
  {
    PreviousNamesApart(prev, cur, o);
    TableOfIsDescribed(prev, o);
    assert c in TableOf(prev, o).columns;
    if c != "id" && c != "version" {
      assert NamesColumn(SpecsOf(prev, o), c);
      var p :| p in SpecsOf(prev, o) && SpecsOf(prev, o)[p].name == c;
      assert ObjectReady(cur, prev, o);
      TargetNames(prev, cur, o, p, before);
      SameTypeSameNames(prev, cur, o, p);
      assert Target(prev, cur, o, before)[p].name in t.columns;
    }
  }

  /** Any other column is an added property's. */
  lemma NewColumn(pg: Server, prev: Registry, cur: Registry, o: string, before: Table, t: Table, c: string)
    returns (p: string)
    requires Upgrade(prev, cur) && o in prev.objects && o in cur.objects && SameUpToNames(before, TableOf(prev, o))
    requires KeptTable(pg, prev, cur, o, before, t) && c in t.columns && c !in before.columns
    ensures p in AddedNames(prev, cur, o) && Target(prev, cur, o, before)[p].name == c
  {
    var target := Target(prev, cur, o, before);
    PreviousNamesApart(prev, cur, o);
    TableOfIsDescribed(prev, o);
    assert before.columns.Keys == TableOf(prev, o).columns.Keys;
    forall q | q in prev.objects[o] && q in cur.objects[o] ensures target[q].name in before.columns {
      assert target[q].name == SpecsOf(prev, o)[q].name;
    }
    assert NamesColumn(target, c);
    p :| p in target && target[p].name == c;
  }

  lemma RowMatches(specs: map<string, ColumnSpec>, added: set<string>, values: map<string, SqlValue>, before: Row,
                   after: Row,
                   columns: set<string>)
    requires RowKept(specs, added, values, before, after)
    requires forall c :: c in before ==> c in columns
    requires forall p :: p in added ==> p in specs && p in values && specs[p].name in columns
    requires forall c :: c in columns && c !in before ==> exists p :: p in added && specs[p].name == c
    ensures after.Keys == columns
  {
    forall c | c in after ensures c in columns {
      if c !in before {
        assert NamesColumn(Sub(specs, added), c);
      }
    }
    forall c | c in columns ensures c in after {
      if c !in before {
        var p :| p in added && specs[p].name == c;
      }
    }
  }

  lemma MigratedRowMatches(pg: Server, prev: Registry, cur: Registry, o: string, before: Table, t: Table, i: nat)
    requires Upgrade(prev, cur) && o in prev.objects && o in cur.objects && SameUpToNames(before, TableOf(prev, o))
    requires KeptTable(pg, prev, cur, o, before, t) && i < |t.rows| && before.rows[i].Keys == before.columns.Keys
    ensures t.rows[i].Keys == t.columns.Keys
  {
    var target, added := Target(prev, cur, o, before), AddedNames(prev, cur, o);
    forall c | c in before.rows[i] ensures c in t.columns {
      CarriedColumn(pg, prev, cur, o, before, t, c);
    }
    forall c | c in t.columns && c !in before.rows[i] ensures exists p :: p in added && target[p].name == c {
      var p := NewColumn(pg, prev, cur, o, before, t, c);
    }
    RowMatches(target, added, NewValues(pg, prev, cur, o), before.rows[i], t.rows[i], t.columns.Keys);
  }

  lemma MigratedRowsMatch(pg: Server, prev: Registry, cur: Registry, db0: Database, db: Database)
    requires Start(prev, cur, db0) && Migrated(pg, prev, cur, db0, db)
    ensures RowsMatchColumns(db)
  {
    forall o | o in prev.objects
      ensures forall row | row in db[SqlName(o)].rows :: row.Keys == db[SqlName(o)].columns.Keys
    {
      KeptRowsMatch(pg, prev, cur, o, db0, db[SqlName(o)]);
    }
    forall t | t in db ensures forall row | row in db[t].rows :: row.Keys == db[t].columns.Keys {
      assert TableNamed(cur, t);
      var o :| o in cur.objects && SqlName(o) == t;
      if o !in prev.objects {
        assert db[t] == TableOf(cur, o);
      }
    }
  }

  lemma KeptRowsMatch(pg: Server, prev: Registry, cur: Registry, o: string, db0: Database, t: Table)
    requires Start(prev, cur, db0) && o in prev.objects && KeptTable(pg, prev, cur, o, db0[SqlName(o)], t)
    ensures forall row | row in t.rows :: row.Keys == t.columns.Keys
  {
    var before := db0[SqlName(o)];
    forall i | 0 <= i < |t.rows| ensures t.rows[i].Keys == t.columns.Keys {
      assert before.rows[i] in before.rows;
      MigratedRowMatches(pg, prev, cur, o, before, t, i);
    }
  }
}
