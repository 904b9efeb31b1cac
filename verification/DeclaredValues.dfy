/** What a migration writes into the rows: the value that the registry declares. */
module DeclaredValues {
  import opened Values
  import opened Registry
  import opened Database
  import opened SqlLiteral
  import opened SchemaCompiler
  import opened MigrationPlan
  import opened MigrationSql
  import opened BackfillSafety
  import opened Refinement
  import opened MigrationRun
  import opened MigrationTheorems
  import opened SchemaRefinement
  import opened NameChecks
  import opened ScriptTheorems
  import opened TwoHops

  /** The first migration that lists the property has `value` in its first literal backfill for it. */
  ghost predicate DeclaresValue(reg: Registry, o: string, p: string, value: Json) {
    exists i, k :: FirstListing(reg.migrations, i, o, p)
      && FirstLiteral(reg.migrations[i].operations.value, k, o, p, Backfill("literal", Some(value)))
  }

  lemma DeclaredLiteral(reg: Registry, o: string, p: string, value: Json)
    requires DeclaresValue(reg, o, p, value)
    ensures BackfillLiteral(reg, o, p) == LiteralOf(value)
  {
    var i, k :| FirstListing(reg.migrations, i, o, p)
      && FirstLiteral(reg.migrations[i].operations.value, k, o, p, Backfill("literal", Some(value)));
    DeclaredIff(reg.migrations, o, p);
    BackfillIsFirstLiteral(reg.migrations[i].operations.value, o, p);
  }

  /** The cell holds the JSON value in the form of the column's type. */
  predicate Denotes(pg: Server, value: Json, typ: SqlType, cell: SqlValue) {
    match value
    case JNull => cell == SqlNull
    case JBool(b) =>
      || (typ == BooleanType && cell == SqlBool(b))
      || (typ == Text && cell == SqlText(if b then "true" else "false"))
    case JNumber(_, text) => typ == Text && cell == SqlText(pg.numberText(text))
    case JString(s) =>
      (match typ
       case Text => cell == SqlText(s)
       case BooleanType => ReadBool(s).Some? && cell == SqlBool(ReadBool(s).value)
       case TimestampTz => pg.instant(s).Some? && cell == SqlInstant(pg.instant(s).value)
       case Uuid => ReadUuid(s).Some? && cell == SqlUuid(ReadUuid(s).value)
       case BigInt => false)
    case JArray(_) => false
    case JObject(_) => false
  }

  lemma AssignedDenotes(pg: Server, value: Json, typ: SqlType, literal: Literal)
    requires value.JNumber? ==> IsNumberText(value.text)
    requires LiteralOf(value) == Some(literal) && typ != BigInt && Assign(pg, typ, literal).Some?
    ensures Denotes(pg, value, typ, Assign(pg, typ, literal).value)
  {
    LiteralIsRead(value);
  }

  lemma PropertyTypes(reg: Registry, o: string, p: string)
    requires ValidRegistry(reg) && HasProperty(reg, o, p)
    ensures Spec(reg, o, p).column.typ != BigInt
    ensures !IsReference(reg.objects[o][p].typ) ==> Spec(reg, o, p).name == p
  {
    if !IsReference(reg.objects[o][p].typ) {
      SpecOfEnum(reg, o, p);
    }
  }

  /** After a migration that runs, the column of a required property that was added holds the declared value in every
      row there was. */
  lemma FilledAsDeclared(pg: Server, prev: Registry, cur: Registry, db0: Database, db: Database,
                         o: string, p: string, value: Json, i: nat)
    requires Based(prev, db0) && Hop(pg, prev, cur, db0, db)
    requires RequiredAddition(cur, prev, o, p) && DeclaresValue(cur, o, p, value)
    requires value.JNumber? ==> IsNumberText(value.text)
    requires SqlName(o) in db0 && i < |db0[SqlName(o)].rows|
    ensures SqlName(o) in db && i < |db[SqlName(o)].rows|
    ensures Spec(cur, o, p).name in db[SqlName(o)].rows[i]
    ensures Denotes(pg, value, Spec(cur, o, p).column.typ, db[SqlName(o)].rows[i][Spec(cur, o, p).name])
  {
    MigrationRunsIff(pg, prev, cur, db0);
    KeptRowCount(pg, prev, cur, db0, db, o);
    AddedCell(pg, prev, cur, db0, db, o, i, p);
    DeclaredLiteral(cur, o, p, value);
    PropertyTypes(cur, o, p);
    FittingLiteral(pg, prev, cur, db0, o, p);
    AssignedDenotes(pg, value, Spec(cur, o, p).column.typ, BackfillLiteral(cur, o, p).value);
  }

  lemma FittingLiteral(pg: Server, prev: Registry, cur: Registry, db0: Database, o: string, p: string)
    requires Start(prev, cur, db0) && DataFits(pg, prev, cur, db0) && MigrationScript(prev, cur).Some?
    requires RequiredAddition(cur, prev, o, p)
    ensures BackfillLiteral(cur, o, p).Some?
    ensures Assign(pg, Spec(cur, o, p).column.typ, BackfillLiteral(cur, o, p).value) == Some(Fill(pg, cur, o, p))
  {
    BlockedIffNotReady(cur, prev);
    EmissionRaisesIff(cur, prev);
    assert !PropertyRaises(cur, prev, o, p);
    assert Fits(pg, db0, SqlName(o), Spec(cur, o, p), BackfillFor(cur, o, p));
  }

  /** The row holds a truth value as itself in a Boolean column, and a text as itself in a text column. */
  predicate HoldsScalar(typ: string, p: string, value: Json, row: Row) {
    && (typ == "Boolean" && value.JBool? ==> p in row && row[p] == SqlBool(value.b))
    && (typ in {"String", "Text"} && value.JString? ==> p in row && row[p] == SqlText(value.s))
  }

  lemma ScalarHeld(pg: Server, reg: Registry, o: string, p: string, value: Json, row: Row)
    requires ValidRegistry(reg) && HasProperty(reg, o, p) && reg.objects[o][p].typ !in reg.types
    requires Spec(reg, o, p).name in row
    requires Denotes(pg, value, Spec(reg, o, p).column.typ, row[Spec(reg, o, p).name])
    ensures HoldsScalar(reg.objects[o][p].typ, p, value, row)
  {
    BuiltinSpec(reg, o, p);
  }

  /** So a declared truth value ends up as itself in a Boolean column, and a declared text as itself in
      a text column. */
  lemma DeclaredScalars(pg: Server, prev: Registry, cur: Registry, db0: Database, db: Database,
                        o: string, p: string, value: Json, i: nat)
    requires Based(prev, db0) && Hop(pg, prev, cur, db0, db)
    requires RequiredAddition(cur, prev, o, p) && DeclaresValue(cur, o, p, value) && !value.JNumber?
    requires SqlName(o) in db0 && i < |db0[SqlName(o)].rows|
    requires cur.objects[o][p].typ !in cur.types
    ensures SqlName(o) in db && i < |db[SqlName(o)].rows|
    ensures HoldsScalar(cur.objects[o][p].typ, p, value, db[SqlName(o)].rows[i])
  {
    FilledAsDeclared(pg, prev, cur, db0, db, o, p, value, i);
    ScalarHeld(pg, cur, o, p, value, db[SqlName(o)].rows[i]);
  }

  lemma BuiltinSpec(reg: Registry, o: string, p: string)
    requires ValidRegistry(reg) && HasProperty(reg, o, p) && reg.objects[o][p].typ !in reg.types
    ensures reg.objects[o][p].typ in {"Boolean", "String", "Text"} ==> Spec(reg, o, p).name == p
    ensures reg.objects[o][p].typ == "Boolean" ==> Spec(reg, o, p).column.typ == BooleanType
    ensures reg.objects[o][p].typ in {"String", "Text"} ==> Spec(reg, o, p).column.typ == Text
  {
    if reg.objects[o][p].typ in {"Boolean", "String", "Text"} {
      BuiltinsAreNoReferences(reg.objects[o][p].typ);
      SpecOfEnum(reg, o, p);
    }
  }

  lemma BuiltinsAreNoReferences(typ: string)
    requires typ in {"Boolean", "String", "Text"}
    ensures !IsReference(typ)
  {
    assert typ[0] != "Reference<"[0];
  }

  /** An optional property that was added is NULL in every row there was. */
  lemma OptionalIsNull(pg: Server, prev: Registry, cur: Registry, db0: Database, db: Database, o: string, p: string,
                       i: nat)
    requires Based(prev, db0) && Hop(pg, prev, cur, db0, db)
    requires o in prev.objects && NewProperty(cur, prev, o, p) && !cur.objects[o][p].required
    requires SqlName(o) in db0 && i < |db0[SqlName(o)].rows|
    ensures SqlName(o) in db && i < |db[SqlName(o)].rows|
    ensures Spec(cur, o, p).name in db[SqlName(o)].rows[i] && db[SqlName(o)].rows[i][Spec(cur, o, p).name] == SqlNull
  {
    MigrationRunsIff(pg, prev, cur, db0);
    KeptRowCount(pg, prev, cur, db0, db, o);
    AddedCell(pg, prev, cur, db0, db, o, i, p);
  }
}
