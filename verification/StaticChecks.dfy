/** What PostgreSQL demands of a script whatever the rows are: each statement can be read, each name it introduces is
    free, each foreign key finds its table. All of it can be checked before the script runs. */
module StaticChecks {
  import opened Ordering
  import opened Values
  import opened Database

  // ----- tables and names along a script

  function TablesAfter(tables: set<string>, stmt: Statement): set<string> {
    if stmt.CreateTable? then tables + {stmt.table} else tables
  }

  predicate AllTargetsPresent(stmts: seq<Statement>, tables: set<string>) {
    stmts == [] || (TargetsPresent(stmts[0], tables) && AllTargetsPresent(stmts[1..], TablesAfter(tables, stmts[0])))
  }

  predicate AllLegible(pg: Server, stmts: seq<Statement>) {
    forall stmt | stmt in stmts :: Legible(pg, stmt)
  }

  /** The names a script introduces. */
  function ScriptNames(stmts: seq<Statement>): seq<Name> {
    FlatMap(NewNames, stmts)
  }

  predicate Admissible(pg: Server, db: Database, stmts: seq<Statement>) {
    && AllLegible(pg, stmts)
    && NamesFree(pg, Names(db), ScriptNames(stmts))
    && AllTargetsPresent(stmts, db.Keys)
  }

  function SetOf(names: seq<Name>): set<Name> {
    set n | n in names
  }

  lemma NamesFreeConcat(pg: Server, taken: set<Name>, a: seq<Name>, b: seq<Name>)
    ensures NamesFree(pg, taken, a + b) <==> NamesFree(pg, taken, a) && NamesFree(pg, taken + SetOf(a), b)
  {
    var all := a + b;
    if NamesFree(pg, taken, all) {
      forall i, n | 0 <= i < |a| && n in taken ensures !SameName(pg, n, a[i]) {
        assert all[i] == a[i];
      }
      forall i, j | 0 <= i < j < |a| ensures !SameName(pg, a[i], a[j]) {
        assert all[i] == a[i] && all[j] == a[j];
      }
      forall j, n | 0 <= j < |b| && n in taken + SetOf(a) ensures !SameName(pg, n, b[j]) {
        assert all[|a| + j] == b[j];
        if n in a {
          var i :| 0 <= i < |a| && a[i] == n;
          assert all[i] == a[i];
        }
      }
      forall i, j | 0 <= i < j < |b| ensures !SameName(pg, b[i], b[j]) {
        assert all[|a| + i] == b[i] && all[|a| + j] == b[j];
      }
    }
    if NamesFree(pg, taken, a) && NamesFree(pg, taken + SetOf(a), b) {
      forall i, n | 0 <= i < |all| && n in taken ensures !SameName(pg, n, all[i]) {
        if i >= |a| {
          assert all[i] == b[i - |a|];
        }
      }
      forall i, j | 0 <= i < j < |all| ensures !SameName(pg, all[i], all[j]) {
        if j >= |a| {
          assert all[j] == b[j - |a|];
          if i < |a| {
            assert all[i] in SetOf(a);
          } else {
            assert all[i] == b[i - |a|];
          }
        }
      }
    }
  }

  lemma {:induction false} ScriptNamesFront(stmt: Statement, rest: seq<Statement>)
    ensures ScriptNames([stmt] + rest) == NewNames(stmt) + ScriptNames(rest)
  {
    FlatMapAppend(NewNames, [stmt], rest);
    assert FlatMap(NewNames, [stmt]) == FlatMap(NewNames, []) + NewNames(stmt) by {
      assert [stmt][..0] == [];
    }
  }

  // ----- how the names of a database change

  ghost predicate InTable(t: string, table: Table, n: Name) {
    || n == Name(Relations, t)
    || (n.space == ColumnsOf(t) && n.text in table.columns)
    || (n.space == ConstraintsOf(t) && n.text in table.constraints)
    || exists c :: c in table.columns && n in UniqueNames(t, table.columns[c].unique)
  }

  lemma NamesByTable(db: Database, n: Name)
    ensures n in Names(db) <==> exists t :: t in db && InTable(t, db[t], n)
  {
    if n in Names(db) {
      if n.space == Relations && n.text in db {
        assert InTable(n.text, db[n.text], n);
      } else if n.space.ColumnsOf? && n.space.table in db && n.text in db[n.space.table].columns {
        assert InTable(n.space.table, db[n.space.table], n);
      } else if n.space.ConstraintsOf? && n.space.table in db && n.text in db[n.space.table].constraints {
        assert InTable(n.space.table, db[n.space.table], n);
      } else {
        var t, c :| t in db && c in db[t].columns && n in UniqueNames(t, db[t].columns[c].unique);
        assert InTable(t, db[t], n);
      }
    }
    if t :| t in db && InTable(t, db[t], n) {
      if n.space == ColumnsOf(t) {
        assert n == Name(ColumnsOf(t), n.text);
      } else if n.space == ConstraintsOf(t) {
        assert n == Name(ConstraintsOf(t), n.text);
      }
    }
  }

  /** One table is new or changed, and gains the names `more`. */
  lemma TableGainsNames(db: Database, t: string, table: Table, more: seq<Name>)
    requires forall n :: InTable(t, table, n) <==> (t in db && InTable(t, db[t], n)) || n in more
    ensures Names(db[t := table]) == Names(db) + SetOf(more)
  {
    var next := db[t := table];
    forall n ensures n in Names(next) <==> n in Names(db) || n in more {
      NamesByTable(db, n);
      NamesByTable(next, n);
      if u :| u in next && InTable(u, next[u], n) {
        if u != t {
          assert u in db && InTable(u, db[u], n);
        }
      }
      if u :| u in db && InTable(u, db[u], n) {
        assert u in next && InTable(u, next[u], n);
      }
      if n in more {
        assert t in next && InTable(t, next[t], n);
      }
    }
  }

  lemma CreatedNames(t: string, columns: seq<(string, Column)>, constraints: seq<(string, Constraint)>, n: Name)
    requires DistinctNames(columns) && DistinctNames(constraints)
    ensures InTable(t, Table(ToMap(columns), ToMap(constraints), []), n) <==>
      n in NewNames(CreateTable(t, columns, constraints))
  {
    FlatMapMembers(NamesOfColumn(t), columns, n);
    FlatMapMembers(NamesOfConstraint(t), constraints, n);
    ToMapEntries(columns);
    ToMapEntries(constraints);
    var table := Table(ToMap(columns), ToMap(constraints), []);
    if InTable(t, table, n) && n != Name(Relations, t) {
      if n.space == ColumnsOf(t) && n.text in table.columns {
        var i :| 0 <= i < |columns| && columns[i].0 == n.text;
        assert columns[i] in columns && n in NamesOfColumn(t)(columns[i]);
      } else if n.space == ConstraintsOf(t) && n.text in table.constraints {
        var i :| 0 <= i < |constraints| && constraints[i].0 == n.text;
        assert constraints[i] in constraints && n in NamesOfConstraint(t)(constraints[i]);
      } else {
        var c :| c in table.columns && n in UniqueNames(t, table.columns[c].unique);
        var i :| 0 <= i < |columns| && columns[i].0 == c;
        assert columns[i] in columns && n in NamesOfColumn(t)(columns[i]);
      }
    }
    if c :| c in columns && n in NamesOfColumn(t)(c) {
      assert c.0 in table.columns && table.columns[c.0] == c.1;
    }
  }

  lemma AlteredNames(pg: Server, db: Database, stmt: Statement, next: Database, n: Name)
    requires !stmt.CreateTable? && Exec(pg, false, db, stmt) == Some(next)
    ensures InTable(stmt.table, next[stmt.table], n) <==> InTable(stmt.table, db[stmt.table], n) || n in NewNames(stmt)
  {
    var t := stmt.table;
    var before, after := db[t].columns, next[t].columns;
    match stmt {
      case AddColumn(_, c, column) =>
        assert after[c] == column;
        forall d | d in before ensures d in after && after[d] == before[d] {
        }
      case AddUnique(_, name, c) =>
        assert after[c].unique == NamedUnique(name) && UniqueNames(t, before[c].unique) == [];
        forall d | d in before && d != c ensures d in after && after[d] == before[d] {
        }
      case SetNotNull(_, c) =>
        forall d | d in before ensures d in after && after[d].unique == before[d].unique {
        }
      case _ =>
    }
  }

  lemma NamesAfter(pg: Server, db: Database, stmt: Statement)
    requires Exec(pg, false, db, stmt).Some?
    ensures Names(Exec(pg, false, db, stmt).value) == Names(db) + SetOf(NewNames(stmt))
    ensures Exec(pg, false, db, stmt).value.Keys == TablesAfter(db.Keys, stmt)
  {
    var next, t := Exec(pg, false, db, stmt).value, stmt.table;
    forall n ensures InTable(t, next[t], n) <==> (t in db && InTable(t, db[t], n)) || n in NewNames(stmt) {
      if stmt.CreateTable? {
        CreatedNames(t, stmt.columns, stmt.constraints, n);
      } else {
        AlteredNames(pg, db, stmt, next, n);
      }
    }
    assert next == db[t := next[t]];
    TableGainsNames(db, t, next[t], NewNames(stmt));
  }

  // ----- the strict run

  /** A script runs as PostgreSQL has it exactly as it does without the static checks, if it passes them before it
      starts; and otherwise not at all. */
  lemma {:induction false} StrictRun(pg: Server, db: Database, stmts: seq<Statement>)
    ensures Run(pg, true, db, stmts) == if Admissible(pg, db, stmts) then Run(pg, false, db, stmts) else None
    decreases |stmts|
  {
    if stmts == [] {
      assert NamesFree(pg, Names(db), ScriptNames([]));
    } else {
      AdmissibleSplit(pg, db, stmts);
      if Exec(pg, false, db, stmts[0]).Some? {
        var next := Exec(pg, false, db, stmts[0]).value;
        NamesAfter(pg, db, stmts[0]);
        StrictRun(pg, next, stmts[1..]);
      }
    }
  }

  lemma AdmissibleSplit(pg: Server, db: Database, stmts: seq<Statement>)
    requires stmts != []
    ensures Admissible(pg, db, stmts) <==>
      && Admits(pg, db, stmts[0])
      && AllLegible(pg, stmts[1..])
      && NamesFree(pg, Names(db) + SetOf(NewNames(stmts[0])), ScriptNames(stmts[1..]))
      && AllTargetsPresent(stmts[1..], TablesAfter(db.Keys, stmts[0]))
  {
    assert stmts == [stmts[0]] + stmts[1..];
    ScriptNamesFront(stmts[0], stmts[1..]);
    NamesFreeConcat(pg, Names(db), NewNames(stmts[0]), ScriptNames(stmts[1..]));
  }
}
