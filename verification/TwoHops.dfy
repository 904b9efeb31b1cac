/** Two migrations in a row against the direct one. */
module TwoHops {
  import opened Ordering
  import opened Values
  import opened Registry
  import opened Database
  import opened SchemaCompiler
  import opened Schema
  import opened MigrationPlan
  import opened MigrationSql
  import opened BackfillSafety
  import opened Refinement
  import opened MigrationRun
  import opened MigrationTheorems
  import opened SchemaRefinement
  import opened NameChecks
  import opened ScriptTheorems

  /** The plan is ready, its script is emitted, and it takes `before` to `after`. */
  ghost predicate Hop(pg: Server, prev: Registry, cur: Registry, before: Database, after: Database) {
    && ValidRegistry(cur) && !DiffPlan(cur, prev).blocked && MigrationScript(prev, cur).Some?
    && Run(pg, true, before, MigrationScript(prev, cur).value) == Some(after)
  }

  /** The result of a migration is one that the next may start from exactly if every surviving property keeps its flags
      and its enumeration. */
  lemma HopLeadsOnIff(pg: Server, prev: Registry, mid: Registry, db0: Database, db1: Database)
    requires Based(prev, db0) && Hop(pg, prev, mid, db0, db1)
    ensures Start(prev, mid, db0) && Migrated(pg, prev, mid, db0, db1)
    ensures Based(mid, db1) <==> AllKept(prev, mid)
  {
    MigrationRunsIff(pg, prev, mid, db0);
    SchemaMatchesIff(pg, prev, mid, db0, db1);
    MigratedRowsMatch(pg, prev, mid, db0, db1);
  }

  lemma KeepsCompose(prev: Registry, mid: Registry, cur: Registry)
    requires Ready(mid, prev) && AllKept(prev, mid) && AllKept(mid, cur)
    ensures AllKept(prev, cur)
  {
    forall o, p | HasProperty(prev, o, p) && HasProperty(cur, o, p) ensures Keeps(prev, cur, o, p) {
      assert ObjectReady(mid, prev, o);
      assert HasProperty(mid, o, p);
      assert Keeps(prev, mid, o, p) && Keeps(mid, cur, o, p);
    }
  }

  /** The same tables, columns and constraints, UNIQUE names aside. */
  ghost predicate SameSchemaUpToNames(a: Database, b: Database) {
    && a.Keys == b.Keys
    && forall t :: t in a && t in b ==>
         EraseColumns(a[t].columns) == EraseColumns(b[t].columns) && a[t].constraints == b[t].constraints
  }

  lemma MatchingSchemasAgree(reg: Registry, a: Database, b: Database)
    requires ValidRegistry(reg) && HasSchemaUpToNames(a, reg) && HasSchemaUpToNames(b, reg)
    ensures SameSchemaUpToNames(a, b)
  {
    forall t ensures t in a <==> t in b {
      if t in a {
        var o :| o in reg.objects && SqlName(o) == t;
        assert SqlName(o) in b;
      }
      if t in b {
        var o :| o in reg.objects && SqlName(o) == t;
        assert SqlName(o) in a;
      }
    }
    forall t | t in a && t in b
      ensures EraseColumns(a[t].columns) == EraseColumns(b[t].columns) && a[t].constraints == b[t].constraints
    {
      assert TableNamed(reg, t);
      var o :| o in reg.objects && SqlName(o) == t;
      assert SameUpToNames(a[SqlName(o)], TableOf(reg, o)) && SameUpToNames(b[SqlName(o)], TableOf(reg, o));
    }
  }

  /** Both routes, each registry keeping the flags and enumerations of what survives. */
  ghost predicate Routes(pg: Server, prev: Registry, mid: Registry, cur: Registry,
                         db0: Database, db1: Database, db2: Database, direct: Database) {
    && Based(prev, db0) && AllKept(prev, mid) && AllKept(mid, cur)
    && Hop(pg, prev, mid, db0, db1) && Hop(pg, mid, cur, db1, db2) && Hop(pg, prev, cur, db0, direct)
  }

  /** Three migrations, by what they do to the tables. */
  ghost predicate Moves(pg: Server, prev: Registry, mid: Registry, cur: Registry,
                        db0: Database, db1: Database, db2: Database, direct: Database) {
    && Start(prev, mid, db0) && Migrated(pg, prev, mid, db0, db1)
    && Start(mid, cur, db1) && Migrated(pg, mid, cur, db1, db2)
    && Start(prev, cur, db0) && Migrated(pg, prev, cur, db0, direct)
  }

  lemma RoutesMigrate(pg: Server, prev: Registry, mid: Registry, cur: Registry,
                      db0: Database, db1: Database, db2: Database, direct: Database)
    requires Routes(pg, prev, mid, cur, db0, db1, db2, direct)
    ensures Moves(pg, prev, mid, cur, db0, db1, db2, direct) && AllKept(prev, cur)
  {
    HopLeadsOnIff(pg, prev, mid, db0, db1);
    HopLeadsOnIff(pg, mid, cur, db1, db2);
    HopLeadsOnIff(pg, prev, cur, db0, direct);
    KeepsCompose(prev, mid, cur);
  }

  /** They end in the same schema. */
  lemma TwoHopsMatchOne(pg: Server, prev: Registry, mid: Registry, cur: Registry,
                        db0: Database, db1: Database, db2: Database, direct: Database)
    requires Routes(pg, prev, mid, cur, db0, db1, db2, direct)
    ensures SameSchemaUpToNames(db2, direct)
  {
    RoutesMigrate(pg, prev, mid, cur, db0, db1, db2, direct);
    SchemaMatchesIff(pg, mid, cur, db1, db2);
    SchemaMatchesIff(pg, prev, cur, db0, direct);
    MatchingSchemasAgree(cur, db2, direct);
  }

  // ----- rows

  /** What a migration fills into the rows for a property. */
  ghost function Fill(pg: Server, reg: Registry, o: string, p: string): SqlValue
    requires ValidRegistry(reg) && HasProperty(reg, o, p)
  {
    FilledValue(pg, Spec(reg, o, p), BackfillFor(reg, o, p))
  }

  /** A cell of a migrated row: the old one, or what its property is filled with. */
  ghost predicate CellMoved(pg: Server, prev: Registry, cur: Registry, o: string, before: Row, after: Row, c: string)
    requires ValidRegistry(cur)
  {
    || (c in before && c in after && after[c] == before[c])
    || (c !in before && c in after && exists p :: AddsColumn(prev, cur, o, p, c) && after[c] == Fill(pg, cur, o, p))
  }

  ghost predicate AddsColumn(prev: Registry, cur: Registry, o: string, p: string, c: string)
    requires ValidRegistry(cur)
  {
    o in prev.objects && HasProperty(cur, o, p) && p !in prev.objects[o] && Spec(cur, o, p).name == c
  }

  lemma MovedCell(pg: Server, prev: Registry, cur: Registry, db0: Database, db: Database, o: string, i: nat, c: string)
    requires Start(prev, cur, db0) && Migrated(pg, prev, cur, db0, db) && o in prev.objects && o in cur.objects
    requires i < |db0[SqlName(o)].rows| && |db[SqlName(o)].rows| == |db0[SqlName(o)].rows|
    requires c in db[SqlName(o)].rows[i]
    ensures CellMoved(pg, prev, cur, o, db0[SqlName(o)].rows[i], db[SqlName(o)].rows[i], c)
  {
    var target, added := Target(prev, cur, o, db0[SqlName(o)]), AddedNames(prev, cur, o);
    var before, after := db0[SqlName(o)].rows[i], db[SqlName(o)].rows[i];
    assert RowKept(target, added, NewValues(pg, prev, cur, o), before, after);
    if c !in before {
      assert NamesColumn(Sub(target, added), c);
      var p :| p in Sub(target, added) && Sub(target, added)[p].name == c;
      TargetNames(prev, cur, o, p, db0[SqlName(o)]);
      assert AddsColumn(prev, cur, o, p, c) && after[c] == Fill(pg, cur, o, p);
    }
  }

  lemma AddedCell(pg: Server, prev: Registry, cur: Registry, db0: Database, db: Database, o: string, i: nat, p: string)
    requires Start(prev, cur, db0) && Migrated(pg, prev, cur, db0, db)
    requires o in prev.objects && HasProperty(cur, o, p) && p !in prev.objects[o]
    requires i < |db0[SqlName(o)].rows| && |db[SqlName(o)].rows| == |db0[SqlName(o)].rows|
    ensures var c := Spec(cur, o, p).name;
      c in db[SqlName(o)].rows[i] && db[SqlName(o)].rows[i][c] == Fill(pg, cur, o, p)
  {
    var target, added := Target(prev, cur, o, db0[SqlName(o)]), AddedNames(prev, cur, o);
    assert RowKept(target, added, NewValues(pg, prev, cur, o), db0[SqlName(o)].rows[i], db[SqlName(o)].rows[i]);
    TargetNames(prev, cur, o, p, db0[SqlName(o)]);
    assert target[p].name == Spec(cur, o, p).name && NewValues(pg, prev, cur, o)[p] == Fill(pg, cur, o, p);
  }

  lemma OldCell(pg: Server, prev: Registry, cur: Registry, db0: Database, db: Database, o: string, i: nat, c: string)
    requires Start(prev, cur, db0) && Migrated(pg, prev, cur, db0, db) && o in prev.objects && o in cur.objects
    requires i < |db0[SqlName(o)].rows| && |db[SqlName(o)].rows| == |db0[SqlName(o)].rows|
    requires c in db0[SqlName(o)].rows[i]
    ensures c in db[SqlName(o)].rows[i] && db[SqlName(o)].rows[i][c] == db0[SqlName(o)].rows[i][c]
  {
    assert RowKept(Target(prev, cur, o, db0[SqlName(o)]), AddedNames(prev, cur, o), NewValues(pg, prev, cur, o),
                   db0[SqlName(o)].rows[i], db[SqlName(o)].rows[i]);
  }

  lemma KeptRowCount(pg: Server, prev: Registry, cur: Registry, db0: Database, db: Database, o: string)
    requires Start(prev, cur, db0) && Migrated(pg, prev, cur, db0, db) && o in prev.objects
    ensures SqlName(o) in db && |db[SqlName(o)].rows| == |db0[SqlName(o)].rows|
  {
    assert KeptTable(pg, prev, cur, o, db0[SqlName(o)], db[SqlName(o)]);
  }

  ghost predicate SameCounts(db0: Database, db1: Database, db2: Database, direct: Database, t: string) {
    && t in db0 && t in db1 && t in db2 && t in direct
    && |db0[t].rows| == |db1[t].rows| == |db2[t].rows| == |direct[t].rows|
  }

  ghost predicate SameRowAt(a: Database, b: Database, t: string, i: nat) {
    t in a && t in b && i < |a[t].rows| && i < |b[t].rows| && a[t].rows[i] == b[t].rows[i]
  }

  lemma RowByRow(a: Database, b: Database, t: string)
    requires t in a && t in b && |a[t].rows| == |b[t].rows|
    requires forall i :: 0 <= i < |a[t].rows| ==> SameRowAt(a, b, t, i)
    ensures SameRows(a, b, t)
  {
    forall i | 0 <= i < |a[t].rows| ensures a[t].rows[i] == b[t].rows[i] {
      assert SameRowAt(a, b, t, i);
    }
  }

  ghost predicate SameRows(a: Database, b: Database, t: string) {
    t in a && t in b && a[t].rows == b[t].rows
  }

  lemma MidNames(prev: Registry, mid: Registry, cur: Registry, o: string, p: string)
    requires Upgrade(mid, cur) && HasProperty(mid, o, p)
    ensures HasProperty(cur, o, p) && Spec(mid, o, p).name == Spec(cur, o, p).name
  {
    assert ObjectReady(cur, mid, o);
    SameTypeSameNames(mid, cur, o, p);
  }

  /** The cell of a property added on the way agrees exactly if it was added late, or both hops fill the same. */
  lemma AddedCellAgreesIff(pg: Server, prev: Registry, mid: Registry, cur: Registry, db0: Database, db1: Database,
                           db2: Database, direct: Database, o: string, i: nat, p: string)
    requires Moves(pg, prev, mid, cur, db0, db1, db2, direct)
    requires o in prev.objects && o in mid.objects && HasProperty(cur, o, p) && p !in prev.objects[o]
    requires SameCounts(db0, db1, db2, direct, SqlName(o))
    requires i < |db0[SqlName(o)].rows|
    ensures var c := Spec(cur, o, p).name;
      && c in db2[SqlName(o)].rows[i] && c in direct[SqlName(o)].rows[i]
      && (db2[SqlName(o)].rows[i][c] == direct[SqlName(o)].rows[i][c] <==>
            (p in mid.objects[o] ==> Fill(pg, mid, o, p) == Fill(pg, cur, o, p)))
  {
    AddedCell(pg, prev, cur, db0, direct, o, i, p);
    if p in mid.objects[o] {
      MidNames(prev, mid, cur, o, p);
      AddedCell(pg, prev, mid, db0, db1, o, i, p);
      OldCell(pg, mid, cur, db1, db2, o, i, Spec(cur, o, p).name);
    } else {
      AddedCell(pg, mid, cur, db1, db2, o, i, p);
    }
  }

  /** What the hops fill in for a property of the middle registry is what the direct migration does. */
  ghost predicate FillsAgree(pg: Server, prev: Registry, mid: Registry, cur: Registry, o: string)
    requires ValidRegistry(mid) && ValidRegistry(cur) && o in prev.objects
  {
    forall p :: HasProperty(mid, o, p) && HasProperty(cur, o, p) && p !in prev.objects[o] ==>
      Fill(pg, mid, o, p) == Fill(pg, cur, o, p)
  }

  lemma FilledCellAgrees(pg: Server, prev: Registry, mid: Registry, cur: Registry, db0: Database, db1: Database,
                         db2: Database, direct: Database, o: string, i: nat, c: string)
    requires Moves(pg, prev, mid, cur, db0, db1, db2, direct)
    requires o in prev.objects && o in mid.objects && o in cur.objects && FillsAgree(pg, prev, mid, cur, o)
    requires SameCounts(db0, db1, db2, direct, SqlName(o))
    requires i < |db0[SqlName(o)].rows| && c in direct[SqlName(o)].rows[i]
    ensures c in db2[SqlName(o)].rows[i] && db2[SqlName(o)].rows[i][c] == direct[SqlName(o)].rows[i][c]
  {
    MovedCell(pg, prev, cur, db0, direct, o, i, c);
    if c in db0[SqlName(o)].rows[i] {
      OldCell(pg, prev, mid, db0, db1, o, i, c);
      OldCell(pg, mid, cur, db1, db2, o, i, c);
    } else {
      var p :| AddsColumn(prev, cur, o, p, c) && direct[SqlName(o)].rows[i][c] == Fill(pg, cur, o, p);
      AddedCellAgreesIff(pg, prev, mid, cur, db0, db1, db2, direct, o, i, p);
    }
  }

  lemma RowColumns(pg: Server, prev: Registry, cur: Registry, db0: Database, db: Database, o: string, i: nat)
    requires Start(prev, cur, db0) && Migrated(pg, prev, cur, db0, db)
    requires o in cur.objects && SqlName(o) in db && i < |db[SqlName(o)].rows|
    ensures db[SqlName(o)].rows[i].Keys == TableOf(cur, o).columns.Keys
  {
    MigratedRowsMatch(pg, prev, cur, db0, db);
    NamesAlwaysAgree(pg, prev, cur, db0, db);
    assert db[SqlName(o)].rows[i] in db[SqlName(o)].rows;
  }

  lemma RowAgrees(pg: Server, prev: Registry, mid: Registry, cur: Registry, db0: Database, db1: Database,
                  db2: Database, direct: Database, o: string, i: nat)
    requires Moves(pg, prev, mid, cur, db0, db1, db2, direct)
    requires o in prev.objects && o in mid.objects && o in cur.objects && FillsAgree(pg, prev, mid, cur, o)
    requires SameCounts(db0, db1, db2, direct, SqlName(o))
    requires i < |db0[SqlName(o)].rows|
    ensures SameRowAt(db2, direct, SqlName(o), i)
  {
    SameKeys(pg, prev, mid, cur, db0, db1, db2, direct, o, i);
    forall c | c in direct[SqlName(o)].rows[i]
      ensures c in db2[SqlName(o)].rows[i] && db2[SqlName(o)].rows[i][c] == direct[SqlName(o)].rows[i][c]
    {
      FilledCellAgrees(pg, prev, mid, cur, db0, db1, db2, direct, o, i, c);
    }
    SameCellsSameRow(db2[SqlName(o)].rows[i], direct[SqlName(o)].rows[i]);
  }

  lemma SameCellsSameRow(a: Row, b: Row)
    requires a.Keys == b.Keys && forall c :: c in b ==> a[c] == b[c]
    ensures a == b
  {
  }

  lemma SameKeys(pg: Server, prev: Registry, mid: Registry, cur: Registry, db0: Database, db1: Database,
                 db2: Database, direct: Database, o: string, i: nat)
    requires Moves(pg, prev, mid, cur, db0, db1, db2, direct)
    requires o in cur.objects && SqlName(o) in db2 && SqlName(o) in direct
    requires i < |db2[SqlName(o)].rows| && i < |direct[SqlName(o)].rows|
    ensures db2[SqlName(o)].rows[i].Keys == direct[SqlName(o)].rows[i].Keys
  {
    RowColumns(pg, mid, cur, db1, db2, o, i);
    RowColumns(pg, prev, cur, db0, direct, o, i);
  }

  lemma RowCounts(pg: Server, prev: Registry, mid: Registry, cur: Registry, db0: Database, db1: Database,
                  db2: Database, direct: Database, o: string)
    requires Moves(pg, prev, mid, cur, db0, db1, db2, direct)
    requires o in prev.objects && o in mid.objects
    ensures SameCounts(db0, db1, db2, direct, SqlName(o))
  {
    KeptRowCount(pg, prev, mid, db0, db1, o);
    KeptRowCount(pg, mid, cur, db1, db2, o);
    KeptRowCount(pg, prev, cur, db0, direct, o);
  }

  lemma TableRowsAgree(pg: Server, prev: Registry, mid: Registry, cur: Registry, db0: Database, db1: Database,
                       db2: Database, direct: Database, o: string)
    requires Moves(pg, prev, mid, cur, db0, db1, db2, direct)
    requires o in prev.objects && o in mid.objects && o in cur.objects && FillsAgree(pg, prev, mid, cur, o)
    requires SameCounts(db0, db1, db2, direct, SqlName(o))
    ensures SameRows(db2, direct, SqlName(o))
  {
    forall i | 0 <= i < |db2[SqlName(o)].rows| ensures SameRowAt(db2, direct, SqlName(o), i) {
      RowAgrees(pg, prev, mid, cur, db0, db1, db2, direct, o, i);
    }
    RowByRow(db2, direct, SqlName(o));
  }

  lemma CellShowsFill(pg: Server, prev: Registry, mid: Registry, cur: Registry, db0: Database, db1: Database,
                      db2: Database, direct: Database, o: string, p: string)
    requires Moves(pg, prev, mid, cur, db0, db1, db2, direct)
    requires o in prev.objects && HasProperty(mid, o, p) && HasProperty(cur, o, p) && p !in prev.objects[o]
    requires SameCounts(db0, db1, db2, direct, SqlName(o)) && SameRows(db2, direct, SqlName(o))
    requires db0[SqlName(o)].rows != []
    ensures Fill(pg, mid, o, p) == Fill(pg, cur, o, p)
  {
    AddedCellAgreesIff(pg, prev, mid, cur, db0, db1, db2, direct, o, 0, p);
  }

  lemma AgreementShows(pg: Server, prev: Registry, mid: Registry, cur: Registry, db0: Database, db1: Database,
                       db2: Database, direct: Database, o: string)
    requires Moves(pg, prev, mid, cur, db0, db1, db2, direct)
    requires o in prev.objects && o in mid.objects && o in cur.objects
    requires SameCounts(db0, db1, db2, direct, SqlName(o)) && SameRows(db2, direct, SqlName(o))
    requires db0[SqlName(o)].rows != []
    ensures FillsAgree(pg, prev, mid, cur, o)
  {
    forall p | HasProperty(mid, o, p) && HasProperty(cur, o, p) && p !in prev.objects[o]
      ensures Fill(pg, mid, o, p) == Fill(pg, cur, o, p)
    {
      CellShowsFill(pg, prev, mid, cur, db0, db1, db2, direct, o, p);
    }
  }

  /** The rows of the object's table are none, or both routes fill in the same. */
  ghost predicate FillsAlike(pg: Server, prev: Registry, mid: Registry, cur: Registry, db0: Database, o: string) {
    ValidRegistry(mid) && ValidRegistry(cur) && o in prev.objects && SqlName(o) in db0 ==>
      db0[SqlName(o)].rows == [] || FillsAgree(pg, prev, mid, cur, o)
  }

  lemma TableRowsAgreeIff(pg: Server, prev: Registry, mid: Registry, cur: Registry, db0: Database, db1: Database,
                          db2: Database, direct: Database, o: string)
    requires Moves(pg, prev, mid, cur, db0, db1, db2, direct)
    requires o in prev.objects && o in mid.objects && o in cur.objects
    ensures SameRows(db2, direct, SqlName(o)) <==> FillsAlike(pg, prev, mid, cur, db0, o)
  {
    RowCounts(pg, prev, mid, cur, db0, db1, db2, direct, o);
    if FillsAgree(pg, prev, mid, cur, o) {
      TableRowsAgree(pg, prev, mid, cur, db0, db1, db2, direct, o);
    } else if db0[SqlName(o)].rows != [] && SameRows(db2, direct, SqlName(o)) {
      AgreementShows(pg, prev, mid, cur, db0, db1, db2, direct, o);
    }
  }

  /** And in the same rows, exactly if for every property that the middle registry adds to a table with rows both fill
      in the same value. */
  lemma TwoHopsFillAlikeIff(pg: Server, prev: Registry, mid: Registry, cur: Registry,
                            db0: Database, db1: Database, db2: Database, direct: Database)
    requires Routes(pg, prev, mid, cur, db0, db1, db2, direct)
    ensures (forall t :: t in db2 || t in direct ==> SameRows(db2, direct, t)) <==>
      forall o :: o in prev.objects ==> FillsAlike(pg, prev, mid, cur, db0, o)
  {
    RoutesMigrate(pg, prev, mid, cur, db0, db1, db2, direct);
    MovesFillAlikeIff(pg, prev, mid, cur, db0, db1, db2, direct);
  }

  lemma SameTables(pg: Server, prev: Registry, mid: Registry, cur: Registry,
                   db0: Database, db1: Database, db2: Database, direct: Database)
    requires Moves(pg, prev, mid, cur, db0, db1, db2, direct)
    ensures db2.Keys == direct.Keys
  {
    NamesAlwaysAgree(pg, mid, cur, db1, db2);
    NamesAlwaysAgree(pg, prev, cur, db0, direct);
  }

  lemma MovesFillAlikeIff(pg: Server, prev: Registry, mid: Registry, cur: Registry,
                          db0: Database, db1: Database, db2: Database, direct: Database)
    requires Moves(pg, prev, mid, cur, db0, db1, db2, direct)
    ensures (forall t :: t in db2 || t in direct ==> SameRows(db2, direct, t)) <==>
      forall o :: o in prev.objects ==> FillsAlike(pg, prev, mid, cur, db0, o)
  {
    SameTables(pg, prev, mid, cur, db0, db1, db2, direct);
    forall o | o in prev.objects
      ensures SqlName(o) in db2 && (SameRows(db2, direct, SqlName(o)) <==> FillsAlike(pg, prev, mid, cur, db0, o))
    {
      KeptObjectRows(pg, prev, mid, cur, db0, db1, db2, direct, o);
    }
    forall t | t in db2 ensures (exists o :: o in prev.objects && SqlName(o) == t) || SameRows(db2, direct, t) {
      NewTableIsEmpty(pg, prev, mid, cur, db0, db1, db2, direct, t);
    }
  }

  lemma KeptObjectRows(pg: Server, prev: Registry, mid: Registry, cur: Registry, db0: Database, db1: Database,
                       db2: Database, direct: Database, o: string)
    requires Moves(pg, prev, mid, cur, db0, db1, db2, direct)
    requires o in prev.objects
    ensures SqlName(o) in db2
    ensures SameRows(db2, direct, SqlName(o)) <==> FillsAlike(pg, prev, mid, cur, db0, o)
  {
    assert o in mid.objects && o in cur.objects;
    RowCounts(pg, prev, mid, cur, db0, db1, db2, direct, o);
    TableRowsAgreeIff(pg, prev, mid, cur, db0, db1, db2, direct, o);
  }

  lemma NewTableIsEmpty(pg: Server, prev: Registry, mid: Registry, cur: Registry, db0: Database, db1: Database,
                        db2: Database, direct: Database, t: string)
    requires Moves(pg, prev, mid, cur, db0, db1, db2, direct) && t in db2 && t in direct
    ensures (exists o :: o in prev.objects && SqlName(o) == t) || SameRows(db2, direct, t)
  {
    assert TableNamed(cur, t);
    var o :| o in cur.objects && SqlName(o) == t;
    if o !in prev.objects {
      assert direct[t] == TableOf(cur, o);
      if o in mid.objects {
        assert db1[t] == TableOf(mid, o);
        KeptRowCount(pg, mid, cur, db1, db2, o);
      } else {
        assert db2[t] == TableOf(cur, o);
      }
    }
  }
}
