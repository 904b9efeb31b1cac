/** Running a ready migration on the schema compiled from the previous registry. */
module Refinement {
  import opened Ordering
  import opened Values
  import opened Registry
  import opened Database
  import opened SchemaCompiler
  import opened Schema
  import opened MigrationPlan
  import opened MigrationSql
  import opened BackfillSafety

  /** Both registries validate, the plan is ready, the current registry's names do not collide, and the enumerations of
      properties the previous one does not have are not empty. */
  ghost predicate Upgrade(prev: Registry, cur: Registry) {
    && ValidRegistry(prev) && ValidRegistry(cur) && Ready(cur, prev) && Unambiguous(cur)
    && forall o, p :: HasProperty(cur, o, p) && !HasProperty(prev, o, p) ==> ReadableType(cur, cur.objects[o][p].typ)
  }

  /** The literal a property's block fills in, if it has one. */
  function BackfillFor(cur: Registry, o: string, p: string): Option<Literal>
    requires HasProperty(cur, o, p)
  {
    if cur.objects[o][p].required then BackfillLiteral(cur, o, p) else None
  }

  /** The column a kept table has for a property of the previous registry. */
  ghost function ActualSpec(prev: Registry, o: string, p: string, before: Table): ColumnSpec
    requires ValidRegistry(prev) && HasProperty(prev, o, p)
  {
    var spec := Spec(prev, o, p);
    if spec.name in before.columns then spec.(column := before.columns[spec.name]) else spec
  }

  /** What a kept object's property ends up as: its old column, or the column of its block. */
  ghost function TargetSpec(prev: Registry, cur: Registry, o: string, p: string, before: Table): ColumnSpec
    requires ValidRegistry(prev) && ValidRegistry(cur) && o in prev.objects && HasProperty(cur, o, p)
  {
    if p in prev.objects[o] then ActualSpec(prev, o, p, before)
    else FinalSpec(SqlName(o), Spec(cur, o, p), cur.objects[o][p].required)
  }

  ghost function Target(prev: Registry, cur: Registry, o: string, before: Table): map<string, ColumnSpec>
    requires ValidRegistry(prev) && ValidRegistry(cur) && o in prev.objects && o in cur.objects
  {
    map p | p in cur.objects[o] :: TargetSpec(prev, cur, o, p, before)
  }

  // ----- names

  lemma SameTypeSameNames(a: Registry, b: Registry, o: string, p: string)
    requires ValidRegistry(a) && ValidRegistry(b) && HasProperty(a, o, p) && HasProperty(b, o, p)
    requires a.objects[o][p].typ == b.objects[o][p].typ
    ensures Spec(a, o, p).name == Spec(b, o, p).name
  {
  }

  lemma ConstraintNames(reg: Registry, o: string, p: string)
    requires ValidRegistry(reg) && HasProperty(reg, o, p)
    ensures var k := Spec(reg, o, p).constraint; k.Some? ==>
      && k.value.1.column == Spec(reg, o, p).name
      && (k.value.0 == ForeignKeyName(o, p) || k.value.0 == CheckName(o, p))
  {
  }

  lemma ConstraintNamesDiffer(o: string, p: string, q: string, a: string, b: string)
    requires p != q
    requires a == ForeignKeyName(o, p) || a == CheckName(o, p)
    requires b == ForeignKeyName(o, q) || b == CheckName(o, q)
    ensures a != b
  {
    if a == b {
      assert ForeignKeyName(o, p)[0] == 'f' && CheckName(o, p)[0] == 'c';
      assert ForeignKeyName(o, q)[0] == 'f' && CheckName(o, q)[0] == 'c';
      if a[0] == 'f' {
        SamePrefixSameRest("fk_" + SqlName(o) + "_", p, q);
      } else {
        SamePrefixSameRest("chk_" + SqlName(o) + "_", p, q);
      }
    }
  }

  lemma TargetNames(prev: Registry, cur: Registry, o: string, p: string, before: Table)
    requires Upgrade(prev, cur) && o in prev.objects && HasProperty(cur, o, p)
    ensures var t := TargetSpec(prev, cur, o, p, before);
      && t.name == Spec(cur, o, p).name
      && (t.constraint.Some? ==>
            t.constraint.value.1.column == t.name
            && (t.constraint.value.0 == ForeignKeyName(o, p) || t.constraint.value.0 == CheckName(o, p)))
  {
    assert ObjectReady(cur, prev, o);
    ConstraintNames(cur, o, p);
    if p in prev.objects[o] {
      SameTypeSameNames(prev, cur, o, p);
      ConstraintNames(prev, o, p);
    }
  }

  lemma TargetIsLawful(prev: Registry, cur: Registry, o: string, before: Table)
    requires Upgrade(prev, cur) && o in prev.objects && o in cur.objects
    ensures NamesApart(Target(prev, cur, o, before))
    ensures ConstraintNamesApart(Target(prev, cur, o, before)) && ConstraintsOwnColumn(Target(prev, cur, o, before))
  {
    var target, specs := Target(prev, cur, o, before), SpecsOf(cur, o);
    assert NamesApart(specs);
    forall p | p in target ensures target[p].name == specs[p].name {
      TargetNames(prev, cur, o, p, before);
    }
    forall p, q | p in target && q in target && p != q && target[p].constraint.Some? && target[q].constraint.Some?
      ensures target[p].constraint.value.0 != target[q].constraint.value.0
    {
      TargetNames(prev, cur, o, p, before);
      TargetNames(prev, cur, o, q, before);
      ConstraintNamesDiffer(o, p, q, target[p].constraint.value.0, target[q].constraint.value.0);
    }
    forall p | p in target && target[p].constraint.Some?
      ensures target[p].constraint.value.1.column == target[p].name
    {
      TargetNames(prev, cur, o, p, before);
    }
  }

  // ----- one table under migration

  function Sub(specs: map<string, ColumnSpec>, keys: set<string>): (r: map<string, ColumnSpec>)
    ensures forall p :: p in r <==> p in specs && p in keys
    ensures forall p :: p in r ==> r[p] == specs[p]
  {
    map p | p in specs && p in keys :: specs[p]
  }

  /** Old cells are kept, each added property has its value, and there is nothing else. */
  ghost predicate RowKept(specs: map<string, ColumnSpec>, added: set<string>, values: map<string, SqlValue>,
                          before: Row, after: Row) {
    && (forall c :: c in before ==> c in after && after[c] == before[c])
    && (forall p :: p in added && p in specs && p in values ==>
          specs[p].name in after && after[specs[p].name] == values[p])
    && (forall c :: c in after ==> c in before || NamesColumn(Sub(specs, added), c))
  }

  ghost predicate RowsKept(specs: map<string, ColumnSpec>, added: set<string>, values: map<string, SqlValue>,
                           before: seq<Row>, after: seq<Row>) {
    |before| == |after| && forall i :: 0 <= i < |before| ==> RowKept(specs, added, values, before[i], after[i])
  }

  /** The table has the columns of its old properties and of those `added` so far. */
  ghost predicate TableAt(specs: map<string, ColumnSpec>, kept: set<string>, added: set<string>,
                          values: map<string, SqlValue>, before: Table, after: Table) {
    && Describes(Sub(specs, kept + added), after.columns, after.constraints)
    && RowsKept(specs, added, values, before.rows, after.rows)
  }

  lemma SubGrows(specs: map<string, ColumnSpec>, keys: set<string>, p: string)
    requires p in specs
    ensures Sub(specs, keys + {p}) == Sub(specs, keys)[p := specs[p]]
  {
  }

  lemma RowGrows(specs: map<string, ColumnSpec>, added: set<string>, values: map<string, SqlValue>,
                 before: Row, middle: Row, p: string)
    requires RowKept(specs, added, values, before, middle)
    requires p in specs && p in values && specs[p].name !in before
    requires NamesApart(specs) && p !in added
    ensures RowKept(specs, added + {p}, values, before, middle[specs[p].name := values[p]])
  {
    var after := middle[specs[p].name := values[p]];
    forall c | c in after ensures c in before || NamesColumn(Sub(specs, added + {p}), c) {
      if c == specs[p].name {
        assert Sub(specs, added + {p})[p].name == c;
      } else if c !in before {
        var q :| q in Sub(specs, added) && Sub(specs, added)[q].name == c;
        assert Sub(specs, added + {p})[q].name == c;
      }
    }
  }

  /** A property's block takes the table one property further. */
  lemma TableGrows(specs: map<string, ColumnSpec>, kept: set<string>, added: set<string>, values: map<string, SqlValue>,
                   before: Table, middle: Table, p: string)
    requires TableAt(specs, kept, added, values, before, middle)
    requires NamesApart(specs) && p in specs && p in values && p !in kept && p !in added
    requires specs[p].name !in middle.columns
    requires specs[p].constraint.Some? ==> specs[p].constraint.value.0 !in middle.constraints
    requires forall row | row in before.rows :: specs[p].name !in row
    ensures TableAt(specs, kept, added + {p}, values, before, WithSpec(middle, specs[p], values[p]))
  {
    var after := WithSpec(middle, specs[p], values[p]);
    SubGrows(specs, kept + added, p);
    assert (kept + added) + {p} == kept + (added + {p});
    ExtendDescription(Sub(specs, kept + added), middle.columns, middle.constraints, p, specs[p]);
    forall i | 0 <= i < |before.rows| ensures RowKept(specs, added + {p}, values, before.rows[i], after.rows[i]) {
      assert before.rows[i] in before.rows;
      RowGrows(specs, added, values, before.rows[i], middle.rows[i], p);
    }
  }

  /** In such a table a further property's names are new. */
  lemma TableLeavesRoom(specs: map<string, ColumnSpec>, keys: set<string>, t: Table, p: string)
    requires Describes(Sub(specs, keys), t.columns, t.constraints)
    requires NamesApart(specs) && ConstraintNamesApart(specs) && ConstraintsOwnColumn(specs)
    requires p in specs && p !in keys
    ensures specs[p].name !in t.columns
    ensures forall k :: k in t.constraints ==> t.constraints[k].column != specs[p].name
    ensures specs[p].constraint.Some? ==> specs[p].constraint.value.0 !in t.constraints
  {
    var sub := Sub(specs, keys);
    forall c | c in t.columns ensures c != specs[p].name {
      assert c == "id" || c == "version" || NamesColumn(sub, c);
    }
    forall k | k in t.constraints ensures t.constraints[k].column != specs[p].name {
      assert NamesConstraint(sub, k);
      var q :| q in sub && sub[q].constraint.Some? && sub[q].constraint.value.0 == k;
      assert t.constraints[k] == sub[q].constraint.value.1;
    }
    forall k | k in t.constraints ensures specs[p].constraint.Some? ==> k != specs[p].constraint.value.0 {
      assert NamesConstraint(sub, k);
    }
  }

  /** Generated constraint names do not begin like UNIQUE names. */
  lemma UniqueNameIsNew(specs: map<string, ColumnSpec>, keys: set<string>, t: Table, o: string, column: string)
    requires Describes(Sub(specs, keys), t.columns, t.constraints)
    requires forall p :: p in specs && specs[p].constraint.Some? ==>
      specs[p].constraint.value.0 == ForeignKeyName(o, p) || specs[p].constraint.value.0 == CheckName(o, p)
    ensures UniqueName(SqlName(o), column) !in t.constraints
  {
    assert UniqueName(SqlName(o), column)[0] == 'u';
    forall k | k in t.constraints ensures k != "" && k[0] != 'u' {
      assert NamesConstraint(Sub(specs, keys), k);
      var p :| p in Sub(specs, keys) && specs[p].constraint.Some? && specs[p].constraint.value.0 == k;
      assert ForeignKeyName(o, p)[0] == 'f' && CheckName(o, p)[0] == 'c';
    }
  }
}
