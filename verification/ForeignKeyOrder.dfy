/** Tables are created in alphabetical order. When PostgreSQL checks foreign-key targets at once, that is enough
    exactly when no new table refers forward. */
module ForeignKeyOrder {
  import opened Ordering
  import opened Values
  import opened Registry
  import opened Database
  import opened StaticChecks
  import opened SchemaCompiler
  import opened Schema
  import opened MigrationPlan
  import opened MigrationSql
  import opened Refinement
  import opened MigrationRun
  import opened MigrationTheorems

  /** Each reference of an object not among `present` is to one that is, or to one no later in the order. */
  ghost predicate NoForwardReference(reg: Registry, present: set<string>) {
    forall o, p :: HasProperty(reg, o, p) && o !in present && IsReference(reg.objects[o][p].typ) ==>
      Referenced(reg.objects[o][p].typ) in present || StrLe(Referenced(reg.objects[o][p].typ), o)
  }

  // ----- target checks along a script

  function TablesAfterAll(tables: set<string>, stmts: seq<Statement>): set<string>
    decreases |stmts|
  {
    if stmts == [] then tables else TablesAfterAll(TablesAfter(tables, stmts[0]), stmts[1..])
  }

  lemma {:induction false} TargetsConcat(a: seq<Statement>, b: seq<Statement>, tables: set<string>)
    ensures AllTargetsPresent(a + b, tables) <==>
      AllTargetsPresent(a, tables) && AllTargetsPresent(b, TablesAfterAll(tables, a))
    ensures TablesAfterAll(tables, a + b) == TablesAfterAll(TablesAfterAll(tables, a), b)
    decreases |a|
  {
    if a == [] {
      assert a + b == b;
    } else {
      assert (a + b)[0] == a[0] && (a + b)[1..] == a[1..] + b;
      TargetsConcat(a[1..], b, TablesAfter(tables, a[0]));
    }
  }

  // ----- a list of new tables

  ghost predicate TargetsOf(item: NewTable, tables: set<string>) {
    forall p :: p in item.specs && item.specs[p].constraint.Some? && item.specs[p].constraint.value.1.ForeignKey? ==>
      item.specs[p].constraint.value.1.target in tables + {item.name}
  }

  lemma CreateTargets(item: NewTable, tables: set<string>)
    requires Lawful(item)
    ensures TargetsPresent(CreateOf(item), tables) <==> TargetsOf(item, tables)
  {
    var names := SortSet(item.specs.Keys);
    var pairs := ConstraintPairs(Listed(item.specs, names));
    ConstraintsListed(item.specs, names);
    if TargetsPresent(CreateOf(item), tables) {
      forall p | p in item.specs && item.specs[p].constraint.Some? && item.specs[p].constraint.value.1.ForeignKey?
        ensures item.specs[p].constraint.value.1.target in tables + {item.name}
      {
        assert item.specs[p].constraint == Some(item.specs[p].constraint.value);
        assert item.specs[p].constraint.value in pairs;
      }
    }
    if TargetsOf(item, tables) {
      forall k | k in pairs ensures k.1.ForeignKey? ==> k.1.target in tables + {item.name} {
        var p :| p in item.specs && item.specs[p].constraint == Some(k);
      }
    }
  }

  function NamesUpTo(items: seq<NewTable>, i: nat): set<string>
    requires i <= |items|
  {
    set j | 0 <= j < i :: items[j].name
  }

  ghost predicate AllTargetsOf(items: seq<NewTable>, tables: set<string>) {
    forall i :: 0 <= i < |items| ==> TargetsOf(items[i], tables + NamesUpTo(items, i))
  }

  /** Each CREATE TABLE sees the tables before it. */
  lemma {:induction false} CreatesTargets(items: seq<NewTable>, tables: set<string>)
    requires forall i :: 0 <= i < |items| ==> Lawful(items[i])
    ensures AllTargetsPresent(Creates(items), tables) <==> AllTargetsOf(items, tables)
    decreases |items|
  {
    if items != [] {
      var rest, next := items[1..], tables + {items[0].name};
      assert forall i :: 0 <= i < |rest| ==> rest[i] == items[i + 1];
      CreateTargets(items[0], tables);
      CreatesTargets(rest, next);
      CreatesUnfold(items, tables);
      AllTargetsShift(items, rest, tables, next);
    }
  }

  lemma {:induction false} TablesAfterCreates(items: seq<NewTable>, tables: set<string>)
    ensures TablesAfterAll(tables, Creates(items)) == tables + NamesUpTo(items, |items|)
    decreases |items|
  {
    if items == [] {
      assert NamesUpTo(items, 0) == {};
    } else {
      TablesAfterCreates(items[1..], tables + {items[0].name});
      CreatesUnfold(items, tables);
      NamesShift(items, items[1..], |items| - 1);
    }
  }

  lemma CreatesUnfold(items: seq<NewTable>, tables: set<string>)
    requires items != []
    ensures AllTargetsPresent(Creates(items), tables) <==>
      TargetsPresent(CreateOf(items[0]), tables) && AllTargetsPresent(Creates(items[1..]), tables + {items[0].name})
    ensures TablesAfterAll(tables, Creates(items)) == TablesAfterAll(tables + {items[0].name}, Creates(items[1..]))
  {
    assert Creates(items)[0] == CreateOf(items[0]) && Creates(items)[1..] == Creates(items[1..]);
  }

  lemma AllTargetsShift(items: seq<NewTable>, rest: seq<NewTable>, tables: set<string>, next: set<string>)
    requires items != [] && rest == items[1..] && next == tables + {items[0].name}
    ensures AllTargetsOf(items, tables) <==> TargetsOf(items[0], tables) && AllTargetsOf(rest, next)
  {
    forall i | 0 <= i <= |rest| ensures next + NamesUpTo(rest, i) == tables + NamesUpTo(items, i + 1) {
      NamesShift(items, rest, i);
    }
    assert NamesUpTo(items, 0) == {};
    assert tables + {} == tables;
    ShiftedTargets(items, rest, tables, next);
  }

  lemma NamesShift(items: seq<NewTable>, rest: seq<NewTable>, i: nat)
    requires items != [] && rest == items[1..] && i <= |rest|
    ensures NamesUpTo(items, i + 1) == {items[0].name} + NamesUpTo(rest, i)
  {
    forall x | x in NamesUpTo(items, i + 1) ensures x in {items[0].name} + NamesUpTo(rest, i) {
      var j :| 0 <= j < i + 1 && items[j].name == x;
      if j > 0 {
        assert rest[j - 1].name == x;
      }
    }
    forall x | x in NamesUpTo(rest, i) ensures x in NamesUpTo(items, i + 1) {
      var j :| 0 <= j < i && rest[j].name == x;
      assert items[j + 1].name == x;
    }
  }

  lemma ShiftedTargets(items: seq<NewTable>, rest: seq<NewTable>, tables: set<string>, next: set<string>)
    requires items != [] && rest == items[1..]
    requires forall i :: 0 <= i <= |rest| ==> next + NamesUpTo(rest, i) == tables + NamesUpTo(items, i + 1)
    requires tables + NamesUpTo(items, 0) == tables
    ensures (forall i :: 0 <= i < |items| ==> TargetsOf(items[i], tables + NamesUpTo(items, i))) <==>
      TargetsOf(items[0], tables) && forall i :: 0 <= i < |rest| ==> TargetsOf(rest[i], next + NamesUpTo(rest, i))
  {
    if forall i :: 0 <= i < |items| ==> TargetsOf(items[i], tables + NamesUpTo(items, i)) {
      assert TargetsOf(items[0], tables + NamesUpTo(items, 0));
      forall i | 0 <= i < |rest| ensures TargetsOf(rest[i], next + NamesUpTo(rest, i)) {
        assert TargetsOf(items[i + 1], tables + NamesUpTo(items, i + 1));
      }
    }
    if TargetsOf(items[0], tables) && forall i :: 0 <= i < |rest| ==> TargetsOf(rest[i], next + NamesUpTo(rest, i)) {
      forall i | 0 <= i < |items| ensures TargetsOf(items[i], tables + NamesUpTo(items, i)) {
        if i > 0 {
          assert TargetsOf(rest[i - 1], next + NamesUpTo(rest, i - 1));
        }
      }
    }
  }

  // ----- the objects of a registry

  lemma SpecReferences(reg: Registry, o: string, p: string)
    requires ValidRegistry(reg) && HasProperty(reg, o, p)
    ensures var k := Spec(reg, o, p).constraint;
      k.Some? && k.value.1.ForeignKey? <==> IsReference(reg.objects[o][p].typ)
    ensures IsReference(reg.objects[o][p].typ) ==>
      && Referenced(reg.objects[o][p].typ) in reg.objects
      && Spec(reg, o, p).constraint.value.1.target == SqlName(Referenced(reg.objects[o][p].typ))
  {
    assert KnownType(reg, reg.objects[o][p].typ);
  }

  lemma PositionInSorted(ids: seq<string>, i: nat, r: string)
    requires SortedBy(StrLe, ids) && i < |ids|
    ensures (exists j :: 0 <= j <= i && ids[j] == r) <==> r in ids && StrLe(r, ids[i])
  {
    if j :| 0 <= j <= i && ids[j] == r {
      StrLeTotal(r, r);
    }
    if r in ids && StrLe(r, ids[i]) {
      var j :| 0 <= j < |ids| && ids[j] == r;
      if j > i {
        StrLeAntisymmetric(ids[i], ids[j]);
      }
    }
  }

  /** In sorted order, "before or at o" is `StrLe`. */
  lemma SortedPosition(ids: seq<string>, s: set<string>, i: nat, r: string)
    requires ids == SortSet(s) && i < |ids|
    ensures (exists j :: 0 <= j <= i && ids[j] == r) <==> r in s && StrLe(r, ids[i])
  {
    SortSetSorts(s);
    PositionInSorted(ids, i, r);
  }

  function IdNames(name: string -> string, ids: seq<string>, i: nat): set<string>
    requires i <= |ids|
  {
    set j | 0 <= j < i :: name(ids[j])
  }

  function NamesOf(name: string -> string, ids: set<string>): set<string> {
    set o | o in ids :: name(o)
  }

  lemma NamesAreIdNames(reg: Registry, ids: seq<string>, i: nat)
    requires ValidRegistry(reg) && (forall o | o in ids :: o in reg.objects) && i <= |ids|
    ensures NamesUpTo(NewTables(reg, ids), i) == IdNames(SqlName, ids, i)
  {
    var items := NewTables(reg, ids);
    forall x ensures x in NamesUpTo(items, i) <==> x in IdNames(SqlName, ids, i) {
      if j :| 0 <= j < i && items[j].name == x {
        assert SqlName(ids[j]) == x;
      }
      if j :| 0 <= j < i && SqlName(ids[j]) == x {
        assert items[j].name == x;
      }
    }
  }

  ghost predicate TableNamesApart(name: string -> string, objects: set<string>) {
    forall a, b :: a in objects && b in objects && name(a) == name(b) ==> a == b
  }

  lemma NamedAmong(name: string -> string, objects: set<string>, present: set<string>, r: string)
    requires TableNamesApart(name, objects) && r in objects && present <= objects
    ensures name(r) in NamesOf(name, present) <==> r in present
  {
    if name(r) in NamesOf(name, present) {
      var o :| o in present && name(o) == name(r);
    }
  }

  lemma NamedUpTo(name: string -> string, objects: set<string>, ids: seq<string>, i: nat, r: string)
    requires TableNamesApart(name, objects) && r in objects && i < |ids| && forall x :: x in ids ==> x in objects
    ensures name(r) in IdNames(name, ids, i) + {name(ids[i])} <==> exists j :: 0 <= j <= i && ids[j] == r
  {
    assert forall j :: 0 <= j < |ids| ==> ids[j] in objects;
    if j :| 0 <= j <= i && ids[j] == r {
      assert j < i ==> name(ids[j]) in IdNames(name, ids, i);
    }
    if name(r) in IdNames(name, ids, i) {
      var j :| 0 <= j < i && name(ids[j]) == name(r);
      assert ids[j] == r;
    }
  }

  lemma SeenIff(name: string -> string, objects: set<string>, present: set<string>, ids: seq<string>, i: nat, r: string)
    requires TableNamesApart(name, objects) && r in objects
    requires present <= objects && ids == SortSet(objects - present) && i < |ids|
    ensures name(r) in NamesOf(name, present) + IdNames(name, ids, i) + {name(ids[i])} <==>
      r in present || StrLe(r, ids[i])
  {
    SortedPosition(ids, objects - present, i, r);
    NamedAmong(name, objects, present, r);
    NamedUpTo(name, objects, ids, i, r);
  }

  /** The reference condition for one object. */
  ghost predicate LooksBack(reg: Registry, present: set<string>, o: string)
    requires o in reg.objects
  {
    forall p :: p in reg.objects[o] && IsReference(reg.objects[o][p].typ) ==>
      Referenced(reg.objects[o][p].typ) in present || StrLe(Referenced(reg.objects[o][p].typ), o)
  }

  lemma TargetsOfReferences(reg: Registry, o: string, tables: set<string>)
    requires ValidRegistry(reg) && o in reg.objects
    ensures TargetsOf(NewTable(SqlName(o), SpecsOf(reg, o)), tables) <==>
      forall p :: p in reg.objects[o] && IsReference(reg.objects[o][p].typ) ==>
        SqlName(Referenced(reg.objects[o][p].typ)) in tables + {SqlName(o)}
  {
    var specs := SpecsOf(reg, o);
    forall p | p in reg.objects[o]
      ensures specs[p].constraint.Some? && specs[p].constraint.value.1.ForeignKey? <==>
        IsReference(reg.objects[o][p].typ)
      ensures IsReference(reg.objects[o][p].typ) ==>
        specs[p].constraint.value.1.target == SqlName(Referenced(reg.objects[o][p].typ))
    {
      SpecReferences(reg, o, p);
    }
  }

  /** The condition on one new table, in terms of the registry. */
  lemma ObjectTargetsIff(reg: Registry, present: set<string>, ids: seq<string>, i: nat)
    requires ValidRegistry(reg) && TableNamesApart(SqlName, reg.objects.Keys)
    requires present <= reg.objects.Keys && ids == SortSet(reg.objects.Keys - present) && i < |ids|
    requires ids[i] in reg.objects
    ensures TargetsOf(NewTable(SqlName(ids[i]), SpecsOf(reg, ids[i])),
                      NamesOf(SqlName, present) + IdNames(SqlName, ids, i)) <==>
      LooksBack(reg, present, ids[i])
  {
    var o := ids[i];
    var tables := NamesOf(SqlName, present) + IdNames(SqlName, ids, i);
    TargetsOfReferences(reg, o, tables);
    forall p | p in reg.objects[o] && IsReference(reg.objects[o][p].typ)
      ensures SqlName(Referenced(reg.objects[o][p].typ)) in tables + {SqlName(o)} <==>
        Referenced(reg.objects[o][p].typ) in present || StrLe(Referenced(reg.objects[o][p].typ), o)
    {
      SpecReferences(reg, o, p);
      SeenIff(SqlName, reg.objects.Keys, present, ids, i, Referenced(reg.objects[o][p].typ));
    }
  }

  lemma NewTablesLawful(reg: Registry, ids: seq<string>)
    requires ValidRegistry(reg) && forall o | o in ids :: o in reg.objects
    ensures forall i :: 0 <= i < |ids| ==> Lawful(NewTables(reg, ids)[i])
  {
    forall i | 0 <= i < |ids| ensures Lawful(NewTables(reg, ids)[i]) {
      assert ids[i] in ids;
      SpecsAreLawful(reg, ids[i]);
    }
  }

  lemma NewTablesLookBack(reg: Registry, present: set<string>, ids: seq<string>)
    requires ValidRegistry(reg) && TableNamesApart(SqlName, reg.objects.Keys)
    requires present <= reg.objects.Keys && ids == SortSet(reg.objects.Keys - present)
    ensures AllTargetsOf(NewTables(reg, ids), NamesOf(SqlName, present)) <==>
      forall i :: 0 <= i < |ids| && ids[i] in reg.objects ==> LooksBack(reg, present, ids[i])
  {
    var items, tables := NewTables(reg, ids), NamesOf(SqlName, present);
    forall i | 0 <= i < |items|
      ensures ids[i] in reg.objects
      ensures TargetsOf(items[i], tables + NamesUpTo(items, i)) <==> LooksBack(reg, present, ids[i])
    {
      assert ids[i] in ids;
      NamesAreIdNames(reg, ids, i);
      ObjectTargetsIff(reg, present, ids, i);
    }
  }

  /** All new tables together. */
  lemma NewTablesTargetsIff(reg: Registry, present: set<string>, ids: seq<string>)
    requires ValidRegistry(reg) && TableNamesApart(SqlName, reg.objects.Keys)
    requires present <= reg.objects.Keys && ids == SortSet(reg.objects.Keys - present)
    ensures AllTargetsPresent(Creates(NewTables(reg, ids)), NamesOf(SqlName, present)) <==>
      NoForwardReference(reg, present)
  {
    NewTablesLawful(reg, ids);
    CreatesTargets(NewTables(reg, ids), NamesOf(SqlName, present));
    NewTablesLookBack(reg, present, ids);
    LooksBackEverywhere(reg, present, ids);
  }

  lemma TablesAfterNewTables(reg: Registry, present: set<string>, ids: seq<string>)
    requires ValidRegistry(reg) && present <= reg.objects.Keys && ids == SortSet(reg.objects.Keys - present)
    ensures TablesAfterAll(NamesOf(SqlName, present), Creates(NewTables(reg, ids))) ==
      NamesOf(SqlName, reg.objects.Keys)
  {
    var items := NewTables(reg, ids);
    TablesAfterCreates(items, NamesOf(SqlName, present));
    NamesAreIdNames(reg, ids, |ids|);
    IdNamesCover(SqlName, reg.objects.Keys, present, ids);
  }

  lemma IdNamesCover(name: string -> string, objects: set<string>, present: set<string>, ids: seq<string>)
    requires present <= objects && forall o :: o in ids <==> o in objects - present
    ensures NamesOf(name, present) + IdNames(name, ids, |ids|) == NamesOf(name, objects)
  {
    forall x | x in NamesOf(name, objects) ensures x in NamesOf(name, present) + IdNames(name, ids, |ids|) {
      var o :| o in objects && name(o) == x;
      if o !in present {
        assert o in ids;
        var j :| 0 <= j < |ids| && ids[j] == o;
        assert name(ids[j]) in IdNames(name, ids, |ids|);
      }
    }
    forall x | x in IdNames(name, ids, |ids|) ensures x in NamesOf(name, objects) {
      var j :| 0 <= j < |ids| && name(ids[j]) == x;
      assert ids[j] in ids;
    }
  }

  lemma LooksBackEverywhere(reg: Registry, present: set<string>, ids: seq<string>)
    requires (forall o :: o in ids <==> o in reg.objects && o !in present)
    ensures NoForwardReference(reg, present) <==>
      forall i :: 0 <= i < |ids| && ids[i] in reg.objects ==> LooksBack(reg, present, ids[i])
  {
    if forall i :: 0 <= i < |ids| && ids[i] in reg.objects ==> LooksBack(reg, present, ids[i]) {
      forall o, p | HasProperty(reg, o, p) && o !in present && IsReference(reg.objects[o][p].typ)
        ensures Referenced(reg.objects[o][p].typ) in present || StrLe(Referenced(reg.objects[o][p].typ), o)
      {
        assert o in ids;
        var i :| 0 <= i < |ids| && ids[i] == o;
        assert LooksBack(reg, present, ids[i]);
      }
    }
    if NoForwardReference(reg, present) {
      forall i | 0 <= i < |ids| && ids[i] in reg.objects ensures LooksBack(reg, present, ids[i]) {
        assert ids[i] in ids;
        forall p | p in reg.objects[ids[i]] && IsReference(reg.objects[ids[i]][p].typ)
          ensures var r := Referenced(reg.objects[ids[i]][p].typ); r in present || StrLe(r, ids[i])
        {
          assert HasProperty(reg, ids[i], p);
        }
      }
    }
  }

  // ----- schema.sql

  lemma UnambiguousNamesApart(reg: Registry)
    requires ValidRegistry(reg) && Unambiguous(reg)
    ensures TableNamesApart(SqlName, reg.objects.Keys)
  {
  }

  lemma BaselineTargetsIff(reg: Registry)
    requires ValidRegistry(reg) && Unambiguous(reg)
    ensures AllTargetsPresent(BaselineSql(reg), {}) <==> NoForwardReference(reg, {})
  {
    UnambiguousNamesApart(reg);
    assert reg.objects.Keys - {} == reg.objects.Keys;
    NewTablesTargetsIff(reg, {}, SortSet(reg.objects.Keys));
    assert NamesOf(SqlName, {}) == {};
  }

  // ----- the migration script

  lemma {:induction false} AllStatementsConcat(reg: Registry, a: seq<Change>, b: seq<Change>)
    requires ValidRegistry(reg) && (forall c | c in a + b :: RefersTo(reg, c))
    requires forall c | c in a :: RefersTo(reg, c)
    requires forall c | c in b :: RefersTo(reg, c)
    ensures AllStatements(reg, a + b) == Append(AllStatements(reg, a), AllStatements(reg, b))
  {
    if b == [] {
      assert a + b == a;
      if AllStatements(reg, a).Some? {
        assert AllStatements(reg, a).value + [] == AllStatements(reg, a).value;
      }
    } else {
      var init, last := b[..|b| - 1], b[|b| - 1];
      assert b == init + [last] && a + b == (a + init) + [last];
      assert (a + b)[..|a + b| - 1] == a + init;
      AllStatementsConcat(reg, a, init);
      AppendAssociates(AllStatements(reg, a), AllStatements(reg, init), ChangeStatements(reg, last));
    }
  }

  lemma AppendAssociates(a: Option<seq<Statement>>, b: Option<seq<Statement>>, c: Option<seq<Statement>>)
    ensures Append(Append(a, b), c) == Append(a, Append(b, c))
  {
    if a.Some? && b.Some? && c.Some? {
      assert (a.value + b.value) + c.value == a.value + (b.value + c.value);
    }
  }

  lemma {:induction false} AddedObjectsStatements(cur: Registry, ids: seq<string>)
    requires ValidRegistry(cur) && (forall o | o in ids :: o in cur.objects)
    requires forall c | c in AddedObjects(ids) :: RefersTo(cur, c)
    ensures AllStatements(cur, AddedObjects(ids)).Some? ==>
      AllStatements(cur, AddedObjects(ids)).value == Creates(NewTables(cur, ids))
  {
    if ids != [] {
      var init, last := ids[..|ids| - 1], ids[|ids| - 1];
      assert ids == init + [last];
      assert AddedObjects(ids)[..|AddedObjects(ids)| - 1] == AddedObjects(init);
      forall c | c in AddedObjects(init) ensures RefersTo(cur, c) {
        assert c in AddedObjects(ids);
      }
      AddedObjectsStatements(cur, init);
      assert last in ids;
      var item := NewTable(SqlName(last), SpecsOf(cur, last));
      assert NewTables(cur, ids) == NewTables(cur, init) + [item];
      CreatesAppend(NewTables(cur, init), item);
      assert ObjectLists(cur, last) ==> ChangeStatements(cur, ObjectAdded(last)) == Some([CreateOf(item)]);
    }
  }

  lemma SingleTarget(stmt: Statement, rest: seq<Statement>, tables: set<string>)
    requires !stmt.CreateTable? && TargetsPresent(stmt, tables)
    ensures AllTargetsPresent([stmt] + rest, tables) <==> AllTargetsPresent(rest, tables)
    ensures TablesAfterAll(tables, [stmt] + rest) == TablesAfterAll(tables, rest)
  {
    assert ([stmt] + rest)[1..] == rest;
  }

  lemma {:induction false} NoCreateKeepsTables(stmts: seq<Statement>, tables: set<string>)
    requires forall stmt | stmt in stmts :: !stmt.CreateTable? && TargetsPresent(stmt, tables)
    ensures AllTargetsPresent(stmts, tables) && TablesAfterAll(tables, stmts) == tables
    decreases |stmts|
  {
    if stmts != [] {
      NoCreateKeepsTables(stmts[1..], tables);
      SingleTarget(stmts[0], stmts[1..], tables);
      assert stmts == [stmts[0]] + stmts[1..];
    }
  }

  lemma BlockTargets(table: string, spec: ColumnSpec, backfill: Option<Literal>, tables: set<string>)
    requires spec.constraint.Some? && spec.constraint.value.1.ForeignKey? ==> spec.constraint.value.1.target in tables
    ensures forall stmt | stmt in Block(table, spec, backfill) :: !stmt.CreateTable? && TargetsPresent(stmt, tables)
  {
  }

  lemma ChangeTargets(cur: Registry, change: Change, tables: set<string>)
    requires ValidRegistry(cur) && RefersTo(cur, change) && !change.ObjectAdded? && ChangeStatements(cur, change).Some?
    requires tables == NamesOf(SqlName, cur.objects.Keys)
    ensures forall stmt | stmt in ChangeStatements(cur, change).value ::
      !stmt.CreateTable? && TargetsPresent(stmt, tables)
  {
    if change.PropertyAdded? {
      var o, p := change.objectId, change.property;
      SpecReferences(cur, o, p);
      var spec := Spec(cur, o, p);
      BlockTargets(SqlName(o), spec, None, tables);
      match BackfillLiteral(cur, o, p) {
        case None =>
        case Some(v) => BlockTargets(SqlName(o), spec, Some(v), tables);
      }
    }
  }

  lemma {:induction false} LaterTargets(cur: Registry, changes: seq<Change>, tables: set<string>)
    requires ValidRegistry(cur) && (forall c | c in changes :: RefersTo(cur, c) && !c.ObjectAdded?)
    requires AllStatements(cur, changes).Some? && tables == NamesOf(SqlName, cur.objects.Keys)
    ensures forall stmt | stmt in AllStatements(cur, changes).value ::
      !stmt.CreateTable? && TargetsPresent(stmt, tables)
  {
    if changes != [] {
      var init, last := changes[..|changes| - 1], changes[|changes| - 1];
      assert changes == init + [last];
      LaterTargets(cur, init, tables);
      ChangeTargets(cur, last, tables);
    }
  }

  /** The changes after the new objects. */
  function LaterChanges(cur: Registry, prev: Registry): seq<Change> {
    RemovedObjects(SortSet(prev.objects.Keys - cur.objects.Keys))
    + KeptObjects(cur, prev, SortSet(cur.objects.Keys * prev.objects.Keys))
  }

  lemma ConcatAssociates<T>(a: seq<T>, b: seq<T>, c: seq<T>)
    ensures a + b + c == a + (b + c)
  {
  }

  lemma ChangesSplit(cur: Registry, prev: Registry)
    ensures Changes(cur, prev) == AddedObjects(SortSet(cur.objects.Keys - prev.objects.Keys)) + LaterChanges(cur, prev)
  {
    ConcatAssociates(AddedObjects(SortSet(cur.objects.Keys - prev.objects.Keys)),
                     RemovedObjects(SortSet(prev.objects.Keys - cur.objects.Keys)),
                     KeptObjects(cur, prev, SortSet(cur.objects.Keys * prev.objects.Keys)));
  }

  lemma NoObjectsAmong(cur: Registry, prev: Registry, removed: seq<Change>, kept: seq<Change>)
    requires forall c :: c in removed ==> c.ObjectRemoved?
    requires forall c :: c in kept ==> IsDifference(cur, prev, c) && !c.ObjectAdded?
    ensures forall c | c in removed + kept :: !c.ObjectAdded? && RefersTo(cur, c)
  {
  }

  lemma LaterChangesAddNoObject(cur: Registry, prev: Registry)
    ensures forall c | c in LaterChanges(cur, prev) :: !c.ObjectAdded? && RefersTo(cur, c)
    ensures Changes(cur, prev) == AddedObjects(SortSet(cur.objects.Keys - prev.objects.Keys)) + LaterChanges(cur, prev)
  {
    var removed, kept := SortSet(prev.objects.Keys - cur.objects.Keys), SortSet(cur.objects.Keys * prev.objects.Keys);
    RemovedObjectsMembers(removed);
    KeptObjectsExact(cur, prev, kept);
    NoObjectsAmong(cur, prev, RemovedObjects(removed), KeptObjects(cur, prev, kept));
    ChangesSplit(cur, prev);
  }

  lemma ScriptIsAll(prev: Registry, cur: Registry)
    requires ValidRegistry(cur) && !DiffPlan(cur, prev).blocked
    ensures forall c | c in Changes(cur, prev) :: RefersTo(cur, c)
    ensures MigrationScript(prev, cur) == AllStatements(cur, Changes(cur, prev))
  {
    DiffRefersToCurrent(cur, prev);
  }

  lemma AddedObjectsScript(cur: Registry, ids: seq<string>)
    requires ValidRegistry(cur) && forall o | o in ids :: o in cur.objects
    ensures forall c | c in AddedObjects(ids) :: RefersTo(cur, c)
    ensures AllStatements(cur, AddedObjects(ids)).Some? ==>
      AllStatements(cur, AddedObjects(ids)).value == Creates(NewTables(cur, ids))
  {
    AddedObjectsMembers(ids);
    AddedObjectsStatements(cur, ids);
  }

  lemma ScriptParts(prev: Registry, cur: Registry)
    requires ValidRegistry(cur) && !DiffPlan(cur, prev).blocked && MigrationScript(prev, cur).Some?
    ensures forall c | c in LaterChanges(cur, prev) :: RefersTo(cur, c) && !c.ObjectAdded?
    ensures AllStatements(cur, LaterChanges(cur, prev)).Some?
    ensures MigrationScript(prev, cur).value ==
      Creates(NewTables(cur, SortSet(cur.objects.Keys - prev.objects.Keys)))
      + AllStatements(cur, LaterChanges(cur, prev)).value
  {
    var ids := SortSet(cur.objects.Keys - prev.objects.Keys);
    LaterChangesAddNoObject(cur, prev);
    ScriptIsAll(prev, cur);
    AddedObjectsScript(cur, ids);
    AllStatementsConcat(cur, AddedObjects(ids), LaterChanges(cur, prev));
  }

  lemma ScriptTargetsIff(prev: Registry, cur: Registry)
    requires ValidRegistry(cur) && Unambiguous(cur) && Ready(cur, prev)
    requires !DiffPlan(cur, prev).blocked && MigrationScript(prev, cur).Some?
    ensures AllTargetsPresent(MigrationScript(prev, cur).value, NamesOf(SqlName, prev.objects.Keys)) <==>
      NoForwardReference(cur, prev.objects.Keys)
  {
    var ids := SortSet(cur.objects.Keys - prev.objects.Keys);
    var tables, all := NamesOf(SqlName, prev.objects.Keys), NamesOf(SqlName, cur.objects.Keys);
    ScriptParts(prev, cur);
    var first, rest := Creates(NewTables(cur, ids)), AllStatements(cur, LaterChanges(cur, prev)).value;
    TargetsConcat(first, rest, tables);
    UnambiguousNamesApart(cur);
    NewTablesTargetsIff(cur, prev.objects.Keys, ids);
    TablesAfterNewTables(cur, prev.objects.Keys, ids);
    LaterTargets(cur, LaterChanges(cur, prev), all);
    NoCreateKeepsTables(rest, all);
  }
}
