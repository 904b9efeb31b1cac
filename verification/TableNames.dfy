/** When the names that a list of CREATE TABLE statements introduces are free, in terms of the tables. */
module TableNames {
  import opened Ordering
  import opened Values
  import opened Registry
  import opened Database
  import opened StaticChecks
  import opened SchemaCompiler
  import opened Schema
  import opened MigrationRun
  import opened NameChecks
  import opened Legibility

  /** Free parts that are apart make a free list. */
  lemma {:induction false} FreeFromParts<A>(pg: Server, taken: set<Name>, f: A -> seq<Name>, s: seq<A>)
    requires forall x :: x in s ==> NamesFree(pg, taken, f(x))
    requires forall i, j :: 0 <= i < j < |s| ==> Apart(pg, f(s[i]), f(s[j]))
    ensures NamesFree(pg, taken, FlatMap(f, s))
  {
    if s != [] {
      var init, last := s[..|s| - 1], s[|s| - 1];
      assert s == init + [last];
      FreeFromParts(pg, taken, f, init);
      forall m | m in FlatMap(f, init) ensures forall n :: n in f(last) ==> !SameName(pg, m, n) {
        FlatMapMembers(f, init, m);
        var x :| x in init && m in f(x);
        var i :| 0 <= i < |init| && init[i] == x;
        assert Apart(pg, f(s[i]), f(s[|init|]));
      }
      MoreTaken(pg, taken, FlatMap(f, init), f(last));
      NamesFreeConcat(pg, taken, FlatMap(f, init), f(last));
    }
  }

  lemma MoreTaken(pg: Server, taken: set<Name>, some: seq<Name>, names: seq<Name>)
    requires NamesFree(pg, taken, names) && Apart(pg, some, names)
    ensures NamesFree(pg, taken + SetOf(some), names)
  {
  }

  lemma FreePartsIff<A>(pg: Server, taken: set<Name>, f: A -> seq<Name>, s: seq<A>)
    ensures NamesFree(pg, taken, FlatMap(f, s)) <==>
      && (forall x :: x in s ==> NamesFree(pg, taken, f(x)))
      && (forall i, j :: 0 <= i < j < |s| ==> Apart(pg, f(s[i]), f(s[j])))
  {
    if NamesFree(pg, taken, FlatMap(f, s)) {
      FreeParts(pg, taken, f, s);
    }
    if (forall x :: x in s ==> NamesFree(pg, taken, f(x)))
       && (forall i, j :: 0 <= i < j < |s| ==> Apart(pg, f(s[i]), f(s[j]))) {
      FreeFromParts(pg, taken, f, s);
    }
  }

  // ----- one table

  /** Nothing is taken yet in the spaces of the table. */
  ghost predicate Empty(taken: set<Name>, t: string) {
    forall n :: n in taken ==> n.space != ColumnsOf(t) && n.space != ConstraintsOf(t)
  }

  lemma {:induction false} FreeColumnsIff(pg: Server, taken: set<Name>, t: string, columns: seq<(string, Column)>)
    requires Empty(taken, t) && forall c :: c in columns ==> !c.1.unique.NamedUnique?
    ensures NamesFree(pg, taken, FlatMap(NamesOfColumn(t), columns)) <==> DistinctAs(pg.fold, columns)
  {
    var f := NamesOfColumn(t);
    FreePartsIff(pg, taken, f, columns);
    forall c | c in columns ensures f(c) == [Name(ColumnsOf(t), c.0)] {
    }
    forall i, j | 0 <= i < j < |columns|
      ensures Apart(pg, f(columns[i]), f(columns[j])) <==> pg.fold(columns[i].0) != pg.fold(columns[j].0)
    {
      ApartOne(pg, f(columns[i]), f(columns[j]), ColumnsOf(t), columns[i].0, columns[j].0);
    }
  }

  lemma ApartOne(pg: Server, some: seq<Name>, others: seq<Name>, space: Space, a: string, b: string)
    requires some == [Name(space, a)] && others == [Name(space, b)]
    ensures Apart(pg, some, others) <==> pg.fold(a) != pg.fold(b)
  {
    assert Name(space, a) in some && Name(space, b) in others;
  }

  lemma {:induction false} FreeConstraintsIff(pg: Server, taken: set<Name>, t: string,
                                              constraints: seq<(string, Constraint)>)
    requires Empty(taken, t)
    ensures NamesFree(pg, taken, FlatMap(NamesOfConstraint(t), constraints)) <==> DistinctAs(pg.fold, constraints)
  {
    var f := NamesOfConstraint(t);
    FreePartsIff(pg, taken, f, constraints);
    forall i, j | 0 <= i < j < |constraints|
      ensures Apart(pg, f(constraints[i]), f(constraints[j])) <==>
        pg.fold(constraints[i].0) != pg.fold(constraints[j].0)
    {
      ApartOne(pg, f(constraints[i]), f(constraints[j]), ConstraintsOf(t), constraints[i].0, constraints[j].0);
    }
  }

  /** No relation of that name is taken. */
  ghost predicate TableFree(pg: Server, taken: set<Name>, t: string) {
    forall n :: n in taken ==> !SameName(pg, n, Name(Relations, t))
  }

  lemma InSpaces(t: string, columns: seq<(string, Column)>, constraints: seq<(string, Constraint)>)
    requires forall c :: c in columns ==> !c.1.unique.NamedUnique?
    ensures forall n :: n in FlatMap(NamesOfColumn(t), columns) ==> n.space == ColumnsOf(t)
    ensures forall n :: n in FlatMap(NamesOfConstraint(t), constraints) ==> n.space == ConstraintsOf(t)
  {
    forall n | n in FlatMap(NamesOfColumn(t), columns) ensures n.space == ColumnsOf(t) {
      FlatMapMembers(NamesOfColumn(t), columns, n);
    }
    forall n | n in FlatMap(NamesOfConstraint(t), constraints) ensures n.space == ConstraintsOf(t) {
      FlatMapMembers(NamesOfConstraint(t), constraints, n);
    }
  }

  lemma TakenElsewhere(pg: Server, taken: set<Name>, more: seq<Name>, names: seq<Name>)
    requires forall m, n :: m in more && n in names ==> m.space != n.space
    ensures NamesFree(pg, taken + SetOf(more), names) <==> NamesFree(pg, taken, names)
  {
    if NamesFree(pg, taken, names) {
      assert Apart(pg, more, names);
      MoreTaken(pg, taken, more, names);
    } else if NamesFree(pg, taken + SetOf(more), names) {
      FewerTaken(pg, taken, SetOf(more), names);
    }
  }

  lemma OneNameFreeIff(pg: Server, taken: set<Name>, t: string)
    ensures NamesFree(pg, taken, [Name(Relations, t)]) <==> TableFree(pg, taken, t)
  {
    assert [Name(Relations, t)][0] == Name(Relations, t);
  }

  lemma FreeStatementIff(pg: Server, taken: set<Name>, t: string, columns: seq<(string, Column)>,
                         constraints: seq<(string, Constraint)>)
    requires Empty(taken, t) && forall c :: c in columns ==> !c.1.unique.NamedUnique?
    ensures NamesFree(pg, taken, NewNames(CreateTable(t, columns, constraints))) <==>
      TableFree(pg, taken, t) && DistinctAs(pg.fold, columns) && DistinctAs(pg.fold, constraints)
  {
    var a, b, c := [Name(Relations, t)], FlatMap(NamesOfColumn(t), columns), FlatMap(NamesOfConstraint(t), constraints);
    assert NewNames(CreateTable(t, columns, constraints)) == a + b + c;
    InSpaces(t, columns, constraints);
    NamesFreeConcat(pg, taken, a + b, c);
    NamesFreeConcat(pg, taken, a, b);
    TakenElsewhere(pg, taken, a + b, c);
    TakenElsewhere(pg, taken, a, b);
    OneNameFreeIff(pg, taken, t);
    FreeColumnsIff(pg, taken, t, columns);
    FreeConstraintsIff(pg, taken, t, constraints);
  }

  lemma ColumnsHaveNoNames(specs: map<string, ColumnSpec>, names: seq<string>)
    requires Enumerates(names, specs) && Compiled(specs)
    ensures forall c :: c in ColumnPairs(Listed(specs, names)) ==> !c.1.unique.NamedUnique?
  {
    forall c | c in ColumnPairs(Listed(specs, names)) ensures !c.1.unique.NamedUnique? {
      ListedColumn(specs, names, c);
    }
  }

  lemma ConstraintPairsApartIff(read: string -> string, specs: map<string, ColumnSpec>, names: seq<string>)
    requires Enumerates(names, specs) && ConstraintNamesApart(specs)
    ensures DistinctAs(read, ConstraintPairs(Listed(specs, names))) <==> ConstraintsApartAs(read, specs)
  {
    var listed := Listed(specs, names);
    var pairs := ConstraintPairs(listed);
    ConstraintsListed(specs, names);
    if ConstraintsApartAs(read, specs) {
      forall i, j | 0 <= i < j < |listed| && listed[i].constraint.Some? && listed[j].constraint.Some?
        ensures read(listed[i].constraint.value.0) != read(listed[j].constraint.value.0)
      {
        assert names[i] in specs && names[j] in specs && names[i] != names[j];
      }
      ConstraintPairsDistinct(read, listed);
    }
    if DistinctAs(read, pairs) {
      forall p, q | p in specs && q in specs && p != q && specs[p].constraint.Some? && specs[q].constraint.Some?
        ensures read(specs[p].constraint.value.0) != read(specs[q].constraint.value.0)
      {
        var a, b := specs[p].constraint.value, specs[q].constraint.value;
        assert specs[p].constraint == Some(a) && specs[q].constraint == Some(b);
        assert a in pairs && b in pairs && a.0 != b.0;
        PairsDiffer(read, pairs, a, b);
      }
    }
  }

  lemma PairsDiffer<T>(read: string -> string, pairs: seq<(string, T)>, a: (string, T), b: (string, T))
    requires DistinctAs(read, pairs) && a in pairs && b in pairs && a.0 != b.0
    ensures read(a.0) != read(b.0)
  {
    var i :| 0 <= i < |pairs| && pairs[i] == a;
    var j :| 0 <= j < |pairs| && pairs[j] == b;
  }

  /** The table's name is free, and its columns and constraints have names of their own, as the server reads them. */
  ghost predicate TableNamesFree(pg: Server, taken: set<Name>, item: NewTable) {
    TableFree(pg, taken, item.name) && ColumnsApartAs(pg.fold, item.specs) && ConstraintsApartAs(pg.fold, item.specs)
  }

  lemma FreeCreateIff(pg: Server, taken: set<Name>, item: NewTable)
    requires Compiled(item.specs) && Empty(taken, item.name)
    ensures NamesFree(pg, taken, NewNames(CreateOf(item))) <==> TableNamesFree(pg, taken, item)
  {
    var names := SortSet(item.specs.Keys);
    ColumnsHaveNoNames(item.specs, names);
    FreeStatementIff(pg, taken, item.name, ColumnPairs(Listed(item.specs, names)),
                     ConstraintPairs(Listed(item.specs, names)));
    ColumnPairsApartIff(pg.fold, item.specs, names);
    ConstraintPairsApartIff(pg.fold, item.specs, names);
  }

  // ----- the baseline

  lemma NamesOfCreate(item: NewTable, n: Name)
    requires Compiled(item.specs) && n in NewNames(CreateOf(item))
    ensures n == Name(Relations, item.name) || n.space == ColumnsOf(item.name) || n.space == ConstraintsOf(item.name)
  {
    var names := SortSet(item.specs.Keys);
    ColumnsHaveNoNames(item.specs, names);
    InSpaces(item.name, ColumnPairs(Listed(item.specs, names)), ConstraintPairs(Listed(item.specs, names)));
  }

  lemma CreatesApartIff(pg: Server, a: NewTable, b: NewTable)
    requires Compiled(a.specs) && Compiled(b.specs)
    ensures Apart(pg, NewNames(CreateOf(a)), NewNames(CreateOf(b))) <==> pg.fold(a.name) != pg.fold(b.name)
  {
    assert Name(Relations, a.name) in NewNames(CreateOf(a)) && Name(Relations, b.name) in NewNames(CreateOf(b));
    if pg.fold(a.name) != pg.fold(b.name) {
      forall m, n | m in NewNames(CreateOf(a)) && n in NewNames(CreateOf(b)) ensures !SameName(pg, m, n) {
        NamesOfCreate(a, m);
        NamesOfCreate(b, n);
      }
    }
  }

  /** As the server reads names, those of tables are distinct, and within each table those of
      columns and constraints. */
  ghost predicate NamesReadApart(pg: Server, reg: Registry)
    requires ValidRegistry(reg)
  {
    && (forall a, b :: a in reg.objects && b in reg.objects && a != b ==> pg.fold(SqlName(a)) != pg.fold(SqlName(b)))
    && (forall o :: o in reg.objects ==>
          ColumnsApartAs(pg.fold, SpecsOf(reg, o)) && ConstraintsApartAs(pg.fold, SpecsOf(reg, o)))
  }

  lemma {:induction false} CreatesAt(items: seq<NewTable>, i: nat)
    requires i < |items|
    ensures |Creates(items)| == |items| && Creates(items)[i] == CreateOf(items[i])
    decreases i
  {
    CreatesLength(items);
    assert Creates(items) == [CreateOf(items[0])] + Creates(items[1..]);
    if i > 0 {
      CreatesAt(items[1..], i - 1);
    }
  }

  lemma {:induction false} CreatesLength(items: seq<NewTable>)
    ensures |Creates(items)| == |items|
  {
    if items != [] {
      CreatesLength(items[1..]);
    }
  }

  function NamesOfTable(): NewTable -> seq<Name> {
    (item: NewTable) => NewNames(CreateOf(item))
  }

  lemma {:induction false} CreatesNames(items: seq<NewTable>)
    ensures ScriptNames(Creates(items)) == FlatMap(NamesOfTable(), items)
  {
    CreatesLength(items);
    forall i | 0 <= i < |items| ensures NewNames(Creates(items)[i]) == NamesOfTable()(items[i]) {
      CreatesAt(items, i);
    }
    FlatMapAlong(NewNames, Creates(items), NamesOfTable(), items);
  }

  lemma {:induction false} FreeCreatesIff(pg: Server, items: seq<NewTable>)
    requires forall item :: item in items ==> Compiled(item.specs)
    ensures NamesFree(pg, {}, ScriptNames(Creates(items))) <==>
      && (forall item :: item in items ==> TableNamesFree(pg, {}, item))
      && (forall i, j :: 0 <= i < j < |items| ==> pg.fold(items[i].name) != pg.fold(items[j].name))
  {
    CreatesNames(items);
    FreePartsIff(pg, {}, NamesOfTable(), items);
    forall item | item in items ensures NamesFree(pg, {}, NamesOfTable()(item)) <==> TableNamesFree(pg, {}, item) {
      FreeCreateIff(pg, {}, item);
    }
    forall i, j | 0 <= i < j < |items|
      ensures Apart(pg, NamesOfTable()(items[i]), NamesOfTable()(items[j])) <==>
        pg.fold(items[i].name) != pg.fold(items[j].name)
    {
      CreatesApartIff(pg, items[i], items[j]);
    }
  }

  ghost function FreeAtFirst(pg: Server): NewTable -> bool {
    item => TableNamesFree(pg, {}, item)
  }

  lemma ReadApartByObject(pg: Server, reg: Registry)
    requires ValidRegistry(reg)
    ensures NamesReadApart(pg, reg) <==>
      && (forall o :: o in reg.objects.Keys ==> FreeAtFirst(pg)(MadeFor(reg)(o)))
      && (forall a, b :: a in reg.objects.Keys && b in reg.objects.Keys && a != b ==>
            pg.fold(MadeFor(reg)(a).name) != pg.fold(MadeFor(reg)(b).name))
  {
    forall o | o in reg.objects
      ensures MadeFor(reg)(o).name == SqlName(o)
      ensures FreeAtFirst(pg)(MadeFor(reg)(o)) <==>
        ColumnsApartAs(pg.fold, SpecsOf(reg, o)) && ConstraintsApartAs(pg.fold, SpecsOf(reg, o))
    {
    }
  }

  lemma BaselineNamesFreeIff(pg: Server, reg: Registry)
    requires ValidRegistry(reg)
    ensures NamesFree(pg, {}, ScriptNames(BaselineSql(reg))) <==> NamesReadApart(pg, reg)
  {
    var ids := SortSet(reg.objects.Keys);
    ItemsOf(reg, ids);
    FreeCreatesIff(pg, NewTables(reg, ids));
    EachObject(NewTables(reg, ids), ids, reg.objects.Keys, MadeFor(reg), FreeAtFirst(pg));
    EachPair(NewTables(reg, ids), ids, reg.objects.Keys, MadeFor(reg), pg.fold);
    ReadApartByObject(pg, reg);
  }

  lemma ReadApartIsUnambiguous(pg: Server, reg: Registry)
    requires ValidRegistry(reg) && NamesReadApart(pg, reg)
    ensures Unambiguous(reg)
  {
    forall o | o in reg.objects ensures NamesApart(SpecsOf(reg, o)) {
      ReadApartIsApart(pg.fold, SpecsOf(reg, o));
    }
  }

  lemma ReadApartIsApart(read: string -> string, specs: map<string, ColumnSpec>)
    requires ColumnsApartAs(read, specs)
    ensures NamesApart(specs)
  {
  }
}
