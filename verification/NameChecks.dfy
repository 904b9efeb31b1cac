/** The static checks of PostgreSQL, brought back to the registries the scripts come from. */
module NameChecks {
  import opened Ordering
  import opened Values
  import opened Registry
  import opened Database
  import opened StaticChecks
  import opened SchemaCompiler
  import opened Schema
  import opened MigrationPlan
  import opened MigrationSql
  import opened Refinement
  import opened MigrationRun
  import opened SchemaRefinement

  // ----- lists of names that are free

  ghost predicate Apart(pg: Server, a: seq<Name>, b: seq<Name>) {
    forall m, n :: m in a && n in b ==> !SameName(pg, m, n)
  }

  ghost predicate Untaken(pg: Server, taken: set<Name>, names: seq<Name>) {
    forall m, n :: m in taken && n in names ==> !SameName(pg, m, n)
  }

  lemma FreeIsUntaken(pg: Server, taken: set<Name>, names: seq<Name>)
    requires NamesFree(pg, taken, names)
    ensures Untaken(pg, taken, names)
  {
  }

  /** The parts of a free list are free, and apart from each other. */
  lemma {:induction false} FreeParts<A>(pg: Server, taken: set<Name>, f: A -> seq<Name>, s: seq<A>)
    requires NamesFree(pg, taken, FlatMap(f, s))
    ensures forall x :: x in s ==> NamesFree(pg, taken, f(x))
    ensures forall i, j :: 0 <= i < j < |s| ==> Apart(pg, f(s[i]), f(s[j]))
  {
    if s != [] {
      var init, last := s[..|s| - 1], s[|s| - 1];
      NamesFreeConcat(pg, taken, FlatMap(f, init), f(last));
      FreeParts(pg, taken, f, init);
      FewerTaken(pg, taken, SetOf(FlatMap(f, init)), f(last));
      forall i | 0 <= i < |init| ensures Apart(pg, f(s[i]), f(last)) {
        PartUntaken(pg, f, init, init[i], f(last));
      }
    }
  }

  lemma PartsApart<A>(pg: Server, taken: set<Name>, f: A -> seq<Name>, s: seq<A>)
    requires NamesFree(pg, taken, FlatMap(f, s))
    ensures forall x :: x in s ==> NamesFree(pg, taken, f(x))
    ensures forall x, y :: x in s && y in s && x != y ==> Apart(pg, f(x), f(y))
  {
    FreeParts(pg, taken, f, s);
    forall x, y | x in s && y in s && x != y ensures Apart(pg, f(x), f(y)) {
      var i :| 0 <= i < |s| && s[i] == x;
      var j :| 0 <= j < |s| && s[j] == y;
      assert Apart(pg, f(s[if i < j then i else j]), f(s[if i < j then j else i]));
    }
  }

  lemma FewerTaken(pg: Server, taken: set<Name>, more: set<Name>, names: seq<Name>)
    requires NamesFree(pg, taken + more, names)
    ensures NamesFree(pg, taken, names) && Untaken(pg, more, names)
  {
  }

  lemma PartUntaken<A>(pg: Server, f: A -> seq<Name>, s: seq<A>, x: A, names: seq<Name>)
    requires Untaken(pg, SetOf(FlatMap(f, s)), names) && x in s
    ensures Apart(pg, f(x), names)
  {
    forall m | m in f(x) ensures m in SetOf(FlatMap(f, s)) {
      FlatMapMembers(f, s, m);
    }
  }

  // ----- CREATE TABLE

  lemma FreeColumnsApart(pg: Server, taken: set<Name>, t: string, columns: seq<(string, Column)>)
    requires NamesFree(pg, taken, FlatMap(NamesOfColumn(t), columns))
    ensures DistinctNames(columns)
  {
    FreeParts(pg, taken, NamesOfColumn(t), columns);
    forall i, j | 0 <= i < j < |columns| ensures columns[i].0 != columns[j].0 {
      var m, n := Name(ColumnsOf(t), columns[i].0), Name(ColumnsOf(t), columns[j].0);
      assert m in NamesOfColumn(t)(columns[i]) && n in NamesOfColumn(t)(columns[j]);
      assert !SameName(pg, m, n);
    }
  }

  lemma FreeTableApart(pg: Server, taken: set<Name>, item: NewTable)
    requires NamesFree(pg, taken, NewNames(CreateOf(item)))
    ensures Name(Relations, item.name) in NewNames(CreateOf(item)) && NamesApart(item.specs)
  {
    var names := SortSet(item.specs.Keys);
    var columns := ColumnPairs(Listed(item.specs, names));
    var constraints := ConstraintPairs(Listed(item.specs, names));
    var a, b, c := [Name(Relations, item.name)], FlatMap(NamesOfColumn(item.name), columns),
      FlatMap(NamesOfConstraint(item.name), constraints);
    NamesFreeConcat(pg, taken, a + b, c);
    NamesFreeConcat(pg, taken, a, b);
    FreeColumnsApart(pg, taken + SetOf(a), item.name, columns);
    ColumnPairsDistinctIff(item.specs, names);
  }

  // ----- the names of a migration script, by change

  ghost predicate Emits(cur: Registry, change: Change) {
    ValidRegistry(cur) && RefersTo(cur, change) && ChangeStatements(cur, change).Some?
  }

  ghost function NamesOfChange(cur: Registry): Change -> seq<Name> {
    change => if Emits(cur, change) then ScriptNames(ChangeStatements(cur, change).value) else []
  }

  lemma {:induction false} ScriptNamesByChange(cur: Registry, changes: seq<Change>)
    requires ValidRegistry(cur) && (forall c | c in changes :: RefersTo(cur, c)) && AllStatements(cur, changes).Some?
    ensures ScriptNames(AllStatements(cur, changes).value) == FlatMap(NamesOfChange(cur), changes)
    ensures forall c :: c in changes ==> Emits(cur, c)
  {
    if changes != [] {
      var init, last := changes[..|changes| - 1], changes[|changes| - 1];
      assert changes == init + [last];
      ScriptNamesByChange(cur, init);
      FlatMapAppend(NewNames, AllStatements(cur, init).value, ChangeStatements(cur, last).value);
    }
  }

  lemma ObjectNames(cur: Registry, o: string)
    requires o in cur.objects && Emits(cur, ObjectAdded(o))
    ensures NamesOfChange(cur)(ObjectAdded(o)) == NewNames(CreateOf(NewTable(SqlName(o), SpecsOf(cur, o))))
  {
    var stmt := CreateOf(NewTable(SqlName(o), SpecsOf(cur, o)));
    ScriptNamesFront(stmt, []);
    assert [stmt] + [] == [stmt];
  }

  /** The first name of a block is its column's. */
  lemma BlockNamesColumn(table: string, spec: ColumnSpec, backfill: Option<Literal>)
    ensures Name(ColumnsOf(table), spec.name) in ScriptNames(Block(table, spec, backfill))
  {
    var stmt, n := Block(table, spec, backfill)[0], Name(ColumnsOf(table), spec.name);
    assert n in NewNames(stmt) && stmt in Block(table, spec, backfill);
    FlatMapMembers(NewNames, Block(table, spec, backfill), n);
  }

  lemma PropertyNamesColumn(prev: Registry, cur: Registry, o: string, p: string)
    requires ValidRegistry(cur) && Adds(prev, cur, o, p)
    ensures Name(ColumnsOf(SqlName(o)), Spec(cur, o, p).name) in NamesOfChange(cur)(AddedProperty(cur, o, p))
  {
    StatementsAreBlock(prev, cur, o, p);
    BlockNamesColumn(SqlName(o), Spec(cur, o, p), BackfillFor(cur, o, p));
  }

  // ----- free names are unambiguous

  /** A database with the schema of a registry whose names do not collide, and with any rows. UNIQUE constraints may
      bear names, so that the database may itself be the result of a migration. */
  ghost predicate Based(prev: Registry, db0: Database) {
    && ValidRegistry(prev) && Unambiguous(prev)
    && HasSchemaUpToNames(db0, prev) && RowsMatchColumns(db0)
  }

  lemma BasedTable(prev: Registry, db0: Database, o: string)
    requires Based(prev, db0) && o in prev.objects
    ensures Name(Relations, SqlName(o)) in Names(db0)
    ensures Name(ColumnsOf(SqlName(o)), "id") in Names(db0) && Name(ColumnsOf(SqlName(o)), "version") in Names(db0)
    ensures forall p :: p in prev.objects[o] ==> Name(ColumnsOf(SqlName(o)), Spec(prev, o, p).name) in Names(db0)
  {
    TableOfIsDescribed(prev, o);
    assert db0[SqlName(o)].columns.Keys == TableOf(prev, o).columns.Keys;
    forall p | p in prev.objects[o] ensures Spec(prev, o, p).name in db0[SqlName(o)].columns {
      assert SpecsOf(prev, o)[p] == Spec(prev, o, p);
    }
  }

  /** What the names of a ready script keep apart, over the changes it was emitted for. */
  ghost predicate ChangesApart(pg: Server, cur: Registry, taken: set<Name>, changes: seq<Change>) {
    && (forall c :: c in changes ==> Emits(cur, c) && NamesFree(pg, taken, NamesOfChange(cur)(c)))
    && (forall c, d :: c in changes && d in changes && c != d ==>
          Apart(pg, NamesOfChange(cur)(c), NamesOfChange(cur)(d)))
  }

  lemma FreeScriptIsApart(pg: Server, cur: Registry, taken: set<Name>, changes: seq<Change>)
    requires ValidRegistry(cur) && (forall c | c in changes :: RefersTo(cur, c)) && AllStatements(cur, changes).Some?
    requires NamesFree(pg, taken, ScriptNames(AllStatements(cur, changes).value))
    ensures ChangesApart(pg, cur, taken, changes)
  {
    ScriptNamesByChange(cur, changes);
    PartsApart(pg, taken, NamesOfChange(cur), changes);
  }

  lemma NewObjectApart(pg: Server, cur: Registry, taken: set<Name>, changes: seq<Change>, o: string)
    requires ValidRegistry(cur) && ChangesApart(pg, cur, taken, changes)
    requires o in cur.objects && ObjectAdded(o) in changes
    ensures NamesApart(SpecsOf(cur, o))
    ensures Name(Relations, SqlName(o)) in NamesOfChange(cur)(ObjectAdded(o))
  {
    ObjectNames(cur, o);
    FreeTableApart(pg, taken, NewTable(SqlName(o), SpecsOf(cur, o)));
  }

  lemma TablesApart(pg: Server, prev: Registry, cur: Registry, db0: Database, changes: seq<Change>, a: string,
                    b: string)
    requires ValidRegistry(cur) && Based(prev, db0) && ChangesApart(pg, cur, Names(db0), changes)
    requires forall c :: c in changes <==> IsDifference(cur, prev, c)
    requires a in cur.objects && b in cur.objects && a != b && a !in prev.objects
    ensures SqlName(a) != SqlName(b)
  {
    assert ObjectAdded(a) in changes;
    NewObjectApart(pg, cur, Names(db0), changes, a);
    if b in prev.objects {
      BasedTable(prev, db0, b);
      NewNameDiffers(pg, Names(db0), NamesOfChange(cur)(ObjectAdded(a)), Relations, SqlName(b), SqlName(a));
    } else {
      assert ObjectAdded(b) in changes;
      NewObjectApart(pg, cur, Names(db0), changes, b);
      NamesDiffer(pg, NamesOfChange(cur)(ObjectAdded(a)), NamesOfChange(cur)(ObjectAdded(b)), Relations, SqlName(a),
                  SqlName(b));
    }
  }

  lemma NewNameDiffers(pg: Server, taken: set<Name>, names: seq<Name>, space: Space, a: string, b: string)
    requires NamesFree(pg, taken, names) && Name(space, a) in taken && Name(space, b) in names
    ensures a != b
  {
    FreeIsUntaken(pg, taken, names);
    assert !SameName(pg, Name(space, a), Name(space, b));
  }

  lemma NamesDiffer(pg: Server, some: seq<Name>, others: seq<Name>, space: Space, a: string, b: string)
    requires Apart(pg, some, others) && Name(space, a) in some && Name(space, b) in others
    ensures a != b
  {
    assert !SameName(pg, Name(space, a), Name(space, b));
  }

  lemma OldColumns(prev: Registry, cur: Registry, db0: Database, o: string, p: string)
    requires ValidRegistry(cur) && Based(prev, db0) && Ready(cur, prev)
    requires o in prev.objects && HasProperty(cur, o, p) && p in prev.objects[o]
    ensures Spec(cur, o, p).name == SpecsOf(prev, o)[p].name
    ensures Name(ColumnsOf(SqlName(o)), Spec(cur, o, p).name) in Names(db0)
  {
    assert ObjectReady(cur, prev, o);
    SameTypeSameNames(prev, cur, o, p);
    BasedTable(prev, db0, o);
  }

  /** The name an added property claims. */
  lemma AddedColumnName(pg: Server, prev: Registry, cur: Registry, taken: set<Name>, changes: seq<Change>, o: string,
                        p: string)
    requires ValidRegistry(cur) && Ready(cur, prev) && ChangesApart(pg, cur, taken, changes)
    requires forall c :: c in changes <==> IsDifference(cur, prev, c)
    requires o in prev.objects && HasProperty(cur, o, p) && p !in prev.objects[o]
    ensures AddedProperty(cur, o, p) in changes
    ensures NamesFree(pg, taken, NamesOfChange(cur)(AddedProperty(cur, o, p)))
    ensures Name(ColumnsOf(SqlName(o)), Spec(cur, o, p).name) in NamesOfChange(cur)(AddedProperty(cur, o, p))
  {
    var change := AddedProperty(cur, o, p);
    assert IsDifference(cur, prev, change) && Emits(cur, change);
    ReadyMeansUnblocked(cur, prev, change);
    ChangeRaisesIff(cur, prev, change);
    PropertyNamesColumn(prev, cur, o, p);
  }

  lemma AddedColumnApart(pg: Server, prev: Registry, cur: Registry, db0: Database, changes: seq<Change>,
                         o: string, p: string, q: string)
    requires ValidRegistry(cur) && Based(prev, db0) && Ready(cur, prev) && ChangesApart(pg, cur, Names(db0), changes)
    requires forall c :: c in changes <==> IsDifference(cur, prev, c)
    requires o in prev.objects && HasProperty(cur, o, p) && HasProperty(cur, o, q) && p != q && p !in prev.objects[o]
    ensures Spec(cur, o, p).name != Spec(cur, o, q).name
  {
    var c, space := AddedProperty(cur, o, p), ColumnsOf(SqlName(o));
    AddedColumnName(pg, prev, cur, Names(db0), changes, o, p);
    if q in prev.objects[o] {
      OldColumns(prev, cur, db0, o, q);
      NewNameDiffers(pg, Names(db0), NamesOfChange(cur)(c), space, Spec(cur, o, q).name, Spec(cur, o, p).name);
    } else {
      var d := AddedProperty(cur, o, q);
      AddedColumnName(pg, prev, cur, Names(db0), changes, o, q);
      NamesDiffer(pg, NamesOfChange(cur)(c), NamesOfChange(cur)(d), space, Spec(cur, o, p).name, Spec(cur, o, q).name);
    }
  }

  lemma AddedColumnNotBuiltIn(pg: Server, prev: Registry, cur: Registry, db0: Database, changes: seq<Change>, o: string,
                              p: string)
    requires ValidRegistry(cur) && Based(prev, db0) && Ready(cur, prev) && ChangesApart(pg, cur, Names(db0), changes)
    requires forall c :: c in changes <==> IsDifference(cur, prev, c)
    requires o in prev.objects && HasProperty(cur, o, p) && p !in prev.objects[o]
    ensures Spec(cur, o, p).name != "id" && Spec(cur, o, p).name != "version"
  {
    var names, space := NamesOfChange(cur)(AddedProperty(cur, o, p)), ColumnsOf(SqlName(o));
    AddedColumnName(pg, prev, cur, Names(db0), changes, o, p);
    BasedTable(prev, db0, o);
    NewNameDiffers(pg, Names(db0), names, space, "id", Spec(cur, o, p).name);
    NewNameDiffers(pg, Names(db0), names, space, "version", Spec(cur, o, p).name);
  }

  lemma KeptColumnNotBuiltIn(pg: Server, prev: Registry, cur: Registry, db0: Database, changes: seq<Change>, o: string,
                             p: string)
    requires ValidRegistry(cur) && Based(prev, db0) && Ready(cur, prev) && ChangesApart(pg, cur, Names(db0), changes)
    requires forall c :: c in changes <==> IsDifference(cur, prev, c)
    requires o in prev.objects && HasProperty(cur, o, p)
    ensures Spec(cur, o, p).name != "id" && Spec(cur, o, p).name != "version"
  {
    if p in prev.objects[o] {
      OldColumns(prev, cur, db0, o, p);
      assert NamesApart(SpecsOf(prev, o));
    } else {
      AddedColumnNotBuiltIn(pg, prev, cur, db0, changes, o, p);
    }
  }

  lemma KeptColumnsDiffer(pg: Server, prev: Registry, cur: Registry, db0: Database, changes: seq<Change>,
                          o: string, p: string, q: string)
    requires ValidRegistry(cur) && Based(prev, db0) && Ready(cur, prev) && ChangesApart(pg, cur, Names(db0), changes)
    requires forall c :: c in changes <==> IsDifference(cur, prev, c)
    requires o in prev.objects && HasProperty(cur, o, p) && HasProperty(cur, o, q) && p != q
    ensures Spec(cur, o, p).name != Spec(cur, o, q).name
  {
    if p !in prev.objects[o] {
      AddedColumnApart(pg, prev, cur, db0, changes, o, p, q);
    } else if q !in prev.objects[o] {
      AddedColumnApart(pg, prev, cur, db0, changes, o, q, p);
    } else {
      OldColumnsDiffer(prev, cur, db0, o, p, q);
    }
  }

  lemma OldColumnsDiffer(prev: Registry, cur: Registry, db0: Database, o: string, p: string, q: string)
    requires ValidRegistry(cur) && Based(prev, db0) && Ready(cur, prev) && o in prev.objects && p != q
    requires HasProperty(cur, o, p) && HasProperty(cur, o, q) && p in prev.objects[o] && q in prev.objects[o]
    ensures Spec(cur, o, p).name != Spec(cur, o, q).name
  {
    OldColumns(prev, cur, db0, o, p);
    OldColumns(prev, cur, db0, o, q);
    assert NamesApart(SpecsOf(prev, o));
  }

  lemma KeptColumnsApart(pg: Server, prev: Registry, cur: Registry, db0: Database, changes: seq<Change>, o: string)
    requires ValidRegistry(cur) && Based(prev, db0) && Ready(cur, prev) && ChangesApart(pg, cur, Names(db0), changes)
    requires forall c :: c in changes <==> IsDifference(cur, prev, c)
    requires o in prev.objects && o in cur.objects
    ensures NamesApart(SpecsOf(cur, o))
  {
    forall p | p in cur.objects[o] ensures Spec(cur, o, p).name != "id" && Spec(cur, o, p).name != "version" {
      KeptColumnNotBuiltIn(pg, prev, cur, db0, changes, o, p);
    }
    forall p, q | p in cur.objects[o] && q in cur.objects[o] && p != q
      ensures Spec(cur, o, p).name != Spec(cur, o, q).name
    {
      KeptColumnsDiffer(pg, prev, cur, db0, changes, o, p, q);
    }
    ApartByProperty(cur, o);
  }

  lemma ApartByProperty(reg: Registry, o: string)
    requires ValidRegistry(reg) && o in reg.objects
    requires forall p | p in reg.objects[o] :: Spec(reg, o, p).name != "id" && Spec(reg, o, p).name != "version"
    requires forall p, q | p in reg.objects[o] && q in reg.objects[o] && p != q ::
      Spec(reg, o, p).name != Spec(reg, o, q).name
    ensures NamesApart(SpecsOf(reg, o))
  {
  }

  /** If the names a ready migration introduces are free, those of the current registry do not collide. */
  lemma FreeMigrationIsUnambiguous(pg: Server, prev: Registry, cur: Registry, db0: Database, changes: seq<Change>)
    requires ValidRegistry(cur) && Based(prev, db0) && Ready(cur, prev) && ChangesApart(pg, cur, Names(db0), changes)
    requires forall c :: c in changes <==> IsDifference(cur, prev, c)
    ensures Unambiguous(cur)
  {
    forall o | o in cur.objects ensures NamesApart(SpecsOf(cur, o)) {
      if o in prev.objects {
        KeptColumnsApart(pg, prev, cur, db0, changes, o);
      } else {
        assert ObjectAdded(o) in changes;
        NewObjectApart(pg, cur, Names(db0), changes, o);
      }
    }
    forall a, b | a in cur.objects && b in cur.objects && a != b ensures SqlName(a) != SqlName(b) {
      if a !in prev.objects {
        TablesApart(pg, prev, cur, db0, changes, a, b);
      } else if b !in prev.objects {
        TablesApart(pg, prev, cur, db0, changes, b, a);
      }
    }
  }
}
