/** What a ready migration does to schema and data. */
module MigrationTheorems {
  import opened Ordering
  import opened Values
  import opened Registry
  import opened Database
  import opened SchemaCompiler
  import opened Schema
  import opened MigrationPlan
  import opened MigrationSql
  import opened BackfillSafety
  import opened Refinement
  import opened MigrationRun

  ghost function AddedNames(prev: Registry, cur: Registry, o: string): set<string>
    requires o in prev.objects && o in cur.objects
  {
    cur.objects[o].Keys - prev.objects[o].Keys
  }

  /** A kept table: the target columns and constraints, every old row with its old cells, and the new values in it. */
  ghost predicate KeptTable(pg: Server, prev: Registry, cur: Registry, o: string, before: Table, after: Table)
    requires ValidRegistry(prev) && ValidRegistry(cur) && o in prev.objects && o in cur.objects
  {
    && Describes(Target(prev, cur, o, before), after.columns, after.constraints)
    && RowsKept(Target(prev, cur, o, before), AddedNames(prev, cur, o), NewValues(pg, prev, cur, o),
                before.rows, after.rows)
  }

  /** The database after the migration: kept tables, new empty tables, and no others. */
  ghost predicate Migrated(pg: Server, prev: Registry, cur: Registry, db0: Database, db: Database)
    requires Start(prev, cur, db0)
  {
    && (forall o :: o in prev.objects ==>
          SqlName(o) in db && KeptTable(pg, prev, cur, o, db0[SqlName(o)], db[SqlName(o)]))
    && (forall o :: o in cur.objects && o !in prev.objects ==> SqlName(o) in db && db[SqlName(o)] == TableOf(cur, o))
    && (forall t :: t in db ==> TableNamed(cur, t))
  }

  /** Each backfill literal fits the data of its table. */
  ghost predicate DataFits(pg: Server, prev: Registry, cur: Registry, db0: Database)
    requires ValidRegistry(cur)
  {
    forall o, p :: RequiredAddition(cur, prev, o, p) && SqlName(o) in db0 ==>
      Fits(pg, db0, SqlName(o), Spec(cur, o, p), BackfillFor(cur, o, p))
  }

  lemma AllDone(prev: Registry, cur: Registry, o: string, changes: seq<Change>)
    requires o in prev.objects && o in cur.objects
    requires forall c :: IsDifference(cur, prev, c) ==> c in changes
    ensures DoneProperties(prev, cur, o, changes) == AddedNames(prev, cur, o)
  {
    forall p | p in AddedNames(prev, cur, o) ensures p in DoneProperties(prev, cur, o, changes) {
      assert IsDifference(cur, prev, AddedProperty(cur, o, p));
    }
  }

  lemma AllAdded(specs: map<string, ColumnSpec>, kept: set<string>, added: set<string>, values: map<string, SqlValue>,
                 before: Table, after: Table)
    requires TableAt(specs, kept, added, values, before, after) && kept + added == specs.Keys
    ensures Describes(specs, after.columns, after.constraints)
  {
    assert Sub(specs, kept + added) == specs;
  }

  lemma FinalTable(pg: Server, prev: Registry, cur: Registry, o: string, before: Table, after: Table)
    requires o in prev.objects && o in cur.objects && prev.objects[o].Keys <= cur.objects[o].Keys
    requires KeptTableAt(pg, prev, cur, o, AddedNames(prev, cur, o), before, after)
    ensures KeptTable(pg, prev, cur, o, before, after)
  {
    var target := Target(prev, cur, o, before);
    assert prev.objects[o].Keys + AddedNames(prev, cur, o) == target.Keys;
    AllAdded(target, prev.objects[o].Keys, AddedNames(prev, cur, o), NewValues(pg, prev, cur, o), before, after);
  }

  lemma FinalState(pg: Server, prev: Registry, cur: Registry, db0: Database, changes: seq<Change>, db: Database)
    requires Start(prev, cur, db0) && StateAt(pg, prev, cur, db0, changes, db)
    requires forall c :: IsDifference(cur, prev, c) <==> c in changes
    ensures Migrated(pg, prev, cur, db0, db)
  {
    forall o | o in prev.objects
      ensures SqlName(o) in db && KeptTable(pg, prev, cur, o, db0[SqlName(o)], db[SqlName(o)])
    {
      AllDone(prev, cur, o, changes);
      assert KeptRelation(pg, prev, cur)(o, DoneProperties(prev, cur, o, changes), db0[SqlName(o)], db[SqlName(o)]);
      assert ObjectReady(cur, prev, o);
      FinalTable(pg, prev, cur, o, db0[SqlName(o)], db[SqlName(o)]);
    }
    forall o | o in cur.objects && o !in prev.objects ensures SqlName(o) in db && db[SqlName(o)] == TableOf(cur, o) {
      assert IsDifference(cur, prev, ObjectAdded(o));
      assert IsTableOf(cur, o, db[SqlName(o)]);
    }
    forall t | t in db ensures TableNamed(cur, t) {
      if TableNamed(prev, t) {
        var o :| o in prev.objects && SqlName(o) == t;
        assert o in cur.objects;
      } else {
        assert CreatedIn(cur, changes, t);
      }
    }
  }

  lemma FittingAdditions(pg: Server, prev: Registry, cur: Registry, db0: Database, o: string, p: string)
    requires Start(prev, cur, db0) && RequiredAddition(cur, prev, o, p)
    ensures ChangeFits(pg, cur, db0, AddedProperty(cur, o, p)) <==>
      Fits(pg, db0, SqlName(o), Spec(cur, o, p), BackfillFor(cur, o, p))
    ensures IsDifference(cur, prev, AddedProperty(cur, o, p))
  {
  }

  lemma OptionalAdditionsFit(pg: Server, prev: Registry, cur: Registry, db0: Database, c: Change)
    requires Start(prev, cur, db0) && IsDifference(cur, prev, c)
    requires c.PropertyAdded? ==> !cur.objects[c.objectId][c.property].required
    ensures ChangeFits(pg, cur, db0, c)
  {
  }

  lemma DataFitsIff(pg: Server, prev: Registry, cur: Registry, db0: Database, changes: seq<Change>)
    requires Start(prev, cur, db0)
    requires forall c :: IsDifference(cur, prev, c) <==> c in changes
    ensures (forall c :: c in changes ==> ChangeFits(pg, cur, db0, c)) <==> DataFits(pg, prev, cur, db0)
  {
    forall o, p | RequiredAddition(cur, prev, o, p)
      ensures ChangeFits(pg, cur, db0, AddedProperty(cur, o, p)) <==>
        Fits(pg, db0, SqlName(o), Spec(cur, o, p), BackfillFor(cur, o, p))
      ensures AddedProperty(cur, o, p) in changes
    {
      FittingAdditions(pg, prev, cur, db0, o, p);
    }
    forall c | c in changes ensures ChangeFits(pg, cur, db0, c)
      || (&& c.PropertyAdded? && RequiredAddition(cur, prev, c.objectId, c.property)
          && c == AddedProperty(cur, c.objectId, c.property))
    {
      if !(c.PropertyAdded? && cur.objects[c.objectId][c.property].required) {
        OptionalAdditionsFit(pg, prev, cur, db0, c);
      }
    }
  }

  /** A ready migration whose emission succeeds, run on any database compiled from the previous registry, static checks
      aside succeeds exactly when every backfill literal fits its table, and then keeps every row and cell and adds what
      is declared. */
  lemma MigrationRefines(pg: Server, prev: Registry, cur: Registry, db0: Database)
    requires Start(prev, cur, db0) && MigrationScript(prev, cur).Some?
    ensures Run(pg, false, db0, MigrationScript(prev, cur).value).Some? <==> DataFits(pg, prev, cur, db0)
    ensures Run(pg, false, db0, MigrationScript(prev, cur).value).Some? ==>
      Migrated(pg, prev, cur, db0, Run(pg, false, db0, MigrationScript(prev, cur).value).value)
  {
    var changes := DiffPlan(cur, prev).changes;
    BlockedIffNotReady(cur, prev);
    ChangesExact(cur, prev);
    DiffRefersToCurrent(cur, prev);
    forall c | c in changes ensures !c.Blocked() {
      ReadyMeansUnblocked(cur, prev, c);
    }
    RunChanges(pg, prev, cur, db0, changes);
    DataFitsIff(pg, prev, cur, db0, changes);
    if Run(pg, false, db0, MigrationScript(prev, cur).value).Some? {
      FinalState(pg, prev, cur, db0, changes, Run(pg, false, db0, MigrationScript(prev, cur).value).value);
    }
  }

  /** Every backfill literal can be assigned to the type of its column. */
  ghost predicate AllAssignable(pg: Server, prev: Registry, cur: Registry)
    requires ValidRegistry(cur)
  {
    forall o, p :: RequiredAddition(cur, prev, o, p) ==> Assignable(pg, Spec(cur, o, p), BackfillFor(cur, o, p))
  }

  lemma EmptyTablesFitIff(pg: Server, prev: Registry, cur: Registry, db0: Database)
    requires Start(prev, cur, db0) && forall t :: t in db0 ==> db0[t].rows == []
    ensures DataFits(pg, prev, cur, db0) <==> AllAssignable(pg, prev, cur)
  {
    forall o, p | RequiredAddition(cur, prev, o, p)
      ensures Fits(pg, db0, SqlName(o), Spec(cur, o, p), BackfillFor(cur, o, p))
        <==> Assignable(pg, Spec(cur, o, p), BackfillFor(cur, o, p))
    {
      assert db0[SqlName(o)].rows == [];
    }
  }
}
