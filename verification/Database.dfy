/** The part of PostgreSQL that the generated SQL relies on: tables, their declared constraints, rows,
    and the statements the generator emits. */
module Database {
  import opened Ordering
  import opened Values

  datatype SqlType = Uuid | Text | BooleanType | TimestampTz | BigInt

  /** What a column holds. */
  datatype SqlValue =
    | SqlNull
    | SqlBool(b: bool)
    | SqlInteger(n: int)
    | SqlText(s: string)
    | SqlUuid(u: nat)
    | SqlInstant(t: int)

  /** What a statement writes: a constant of its own kind, not yet of any column's type. */
  datatype Literal =
    | NullLiteral
    | BooleanLiteral(b: bool)
    | NumberLiteral(text: string)
    | TextLiteral(s: string)

  /** How a column came by its uniqueness: inside a column definition, or by a named constraint added later. */
  datatype Uniqueness = NotUnique | PrimaryKey | InlineUnique | NamedUnique(name: string)

  datatype Column = Column(typ: SqlType, notNull: bool, unique: Uniqueness, default: Option<int>)

  /** `values` are those the text of a CHECK lists; `None` if that text cannot be read. */
  datatype Constraint =
    | ForeignKey(column: string, target: string)
    | CheckIn(column: string, values: Option<set<string>>)

  type Row = map<string, SqlValue>

  datatype Table = Table(columns: map<string, Column>, constraints: map<string, Constraint>, rows: seq<Row>)

  type Database = map<string, Table>

  datatype Statement =
    | CreateTable(table: string, columns: seq<(string, Column)>, constraints: seq<(string, Constraint)>)
    | AddColumn(table: string, name: string, column: Column)
    | UpdateWhereNull(table: string, name: string, value: Literal)
    | SetNotNull(table: string, name: string)
    | AddUnique(table: string, constraintName: string, name: string)
    | AddConstraint(table: string, constraintName: string, constraint: Constraint)

  datatype Place = TableName | ColumnName | ConstraintName

  /** How the server writes a number constant as text, which constants it reads as integers and as instants, which texts
      it reads as one name in which place, and which name a text denotes, folded and cut to length. */
  datatype Server = Server(
    numberText: string -> string,
    integer: Literal -> Option<int>,
    instant: string -> Option<int>,
    accepts: (Place, string) -> bool,
    fold: string -> string)

  // ----- assignment of a constant to a column of some type

  function LowerAscii(c: char): char {
    if 'A' <= c <= 'Z' then c - 'A' + 'a' else c
  }

  predicate IsAsciiSpace(c: char) {
    c == ' ' || '\t' <= c <= '\r'
  }

  function TrimLeft(s: string): string {
    if s != "" && IsAsciiSpace(s[0]) then TrimLeft(s[1..]) else s
  }

  function TrimRight(s: string): string {
    if s != "" && IsAsciiSpace(s[|s| - 1]) then TrimRight(s[..|s| - 1]) else s
  }

  /** A non-empty beginning of the word, in either case. */
  predicate Abbreviates(s: string, word: string) {
    0 < |s| <= |word| && forall i | 0 <= i < |s| :: LowerAscii(s[i]) == word[i]
  }

  /** The text forms of a BOOLEAN. */
  function ReadBool(s: string): Option<bool> {
    var t := TrimRight(TrimLeft(s));
    if Abbreviates(t, "true") || Abbreviates(t, "yes") || (|t| >= 2 && Abbreviates(t, "on")) || t == "1"
    then Some(true)
    else if Abbreviates(t, "false") || Abbreviates(t, "no") || (|t| >= 2 && Abbreviates(t, "off")) || t == "0"
    then Some(false)
    else None
  }

  function HexDigit(c: char): Option<nat> {
    if '0' <= c <= '9' then Some((c - '0') as nat)
    else if 'a' <= LowerAscii(c) <= 'f' then Some((LowerAscii(c) - 'a') as nat + 10)
    else None
  }

  /** From byte `i` of sixteen: two digits each, and a hyphen may follow every second one but the last. */
  function ReadUuidBytes(s: string, i: nat, read: nat): Option<(nat, string)>
    decreases 16 - i
  {
    if i >= 16 then Some((read, s))
    else if |s| < 2 || HexDigit(s[0]) == None || HexDigit(s[1]) == None then None
    else
      var rest := if |s| > 2 && s[2] == '-' && i % 2 == 1 && i < 15 then s[3..] else s[2..];
      ReadUuidBytes(rest, i + 1, read * 256 + HexDigit(s[0]).value * 16 + HexDigit(s[1]).value)
  }

  /** The text forms of a UUID: braces may enclose it. */
  function ReadUuid(s: string): Option<nat> {
    var braced := s != "" && s[0] == '{';
    match ReadUuidBytes(if braced then s[1..] else s, 0, 0)
    case None => None
    case Some((read, rest)) => if rest == (if braced then "}" else "") then Some(read) else None
  }

  predicate HasType(typ: SqlType, v: SqlValue) {
    match v
    case SqlNull => true
    case SqlBool(_) => typ == BooleanType
    case SqlInteger(_) => typ == BigInt
    case SqlText(_) => typ == Text
    case SqlUuid(_) => typ == Uuid
    case SqlInstant(_) => typ == TimestampTz
  }

  /** The value a constant gets in a column: text is read in the form of the column's type, booleans and numbers may
      also become text, and every other pairing is an error of the statement, whatever the rows. */
  function Assign(pg: Server, typ: SqlType, v: Literal): (r: Option<SqlValue>)
    ensures r.Some? ==> HasType(typ, r.value) && (r.value == SqlNull <==> v == NullLiteral)
  {
    match v
    case NullLiteral => Some(SqlNull)
    case BooleanLiteral(b) =>
      if typ == BooleanType then Some(SqlBool(b))
      else if typ == Text then Some(SqlText(if b then "true" else "false"))
      else None
    case NumberLiteral(text) =>
      if typ == Text then Some(SqlText(pg.numberText(text)))
      else if typ == BigInt && pg.integer(v).Some? then Some(SqlInteger(pg.integer(v).value))
      else None
    case TextLiteral(s) =>
      if '\0' in s then None
      else
        match typ
        case Text => Some(SqlText(s))
        case BooleanType => if ReadBool(s).Some? then Some(SqlBool(ReadBool(s).value)) else None
        case Uuid => if ReadUuid(s).Some? then Some(SqlUuid(ReadUuid(s).value)) else None
        case TimestampTz => if pg.instant(s).Some? then Some(SqlInstant(pg.instant(s).value)) else None
        case BigInt => if pg.integer(v).Some? then Some(SqlInteger(pg.integer(v).value)) else None
  }

  // ----- tables

  function Cell(row: Row, c: string): SqlValue {
    if c in row then row[c] else SqlNull
  }

  /** The ids a foreign key may point to. */
  function Ids(db: Database, table: string): set<SqlValue> {
    if table in db then set row | row in db[table].rows :: Cell(row, "id") else {}
  }

  predicate ColumnHolds(column: Column, name: string, rows: seq<Row>) {
    && (column.notNull ==> forall row | row in rows :: Cell(row, name) != SqlNull)
    && (column.unique != NotUnique ==>
          forall i, j | 0 <= i < j < |rows| ::
            Cell(rows[i], name) != SqlNull ==> Cell(rows[i], name) != Cell(rows[j], name))
  }

  /** A CHECK that cannot be read holds of no table. NULL passes every other constraint. */
  predicate ConstraintHolds(db: Database, k: Constraint, rows: seq<Row>) {
    match k
    case ForeignKey(c, target) =>
      forall row | row in rows :: Cell(row, c) == SqlNull || Cell(row, c) in Ids(db, target)
    case CheckIn(c, values) =>
      && values.Some?
      && forall row | row in rows ::
           Cell(row, c) == SqlNull || (Cell(row, c).SqlText? && Cell(row, c).s in values.value)
  }

  predicate DistinctNames<T>(pairs: seq<(string, T)>) {
    forall i, j | 0 <= i < j < |pairs| :: pairs[i].0 != pairs[j].0
  }

  function ToMap<T>(pairs: seq<(string, T)>): map<string, T> {
    if pairs == [] then map[]
    else ToMap(pairs[..|pairs| - 1])[pairs[|pairs| - 1].0 := pairs[|pairs| - 1].1]
  }

  function WithCell(rows: seq<Row>, c: string, v: SqlValue): (r: seq<Row>)
    ensures |r| == |rows|
    ensures forall i :: 0 <= i < |rows| ==> r[i] == rows[i][c := v]
  {
    seq(|rows|, i requires 0 <= i < |rows| => rows[i][c := v])
  }

  function FillNulls(rows: seq<Row>, c: string, v: SqlValue): (r: seq<Row>)
    ensures |r| == |rows|
    ensures forall i :: 0 <= i < |rows| ==> r[i] == if Cell(rows[i], c) == SqlNull then rows[i][c := v] else rows[i]
  {
    seq(|rows|, i requires 0 <= i < |rows| => if Cell(rows[i], c) == SqlNull then rows[i][c := v] else rows[i])
  }

  /** Does the statement's foreign key find its target table? `tables` are those present before it. */
  predicate TargetsPresent(stmt: Statement, tables: set<string>) {
    match stmt
    case CreateTable(t, _, constraints) =>
      forall k | k in constraints :: k.1.ForeignKey? ==> k.1.target in tables + {t}
    case AddConstraint(_, _, k) => k.ForeignKey? ==> k.target in tables
    case _ => true
  }

  // ----- names

  datatype Space = Relations | ColumnsOf(table: string) | ConstraintsOf(table: string)

  /** Tables share a space with the indexes that named UNIQUE constraints bring. */
  datatype Name = Name(space: Space, text: string)

  function UniqueNames(t: string, unique: Uniqueness): seq<Name> {
    if unique.NamedUnique? then [Name(Relations, unique.name), Name(ConstraintsOf(t), unique.name)] else []
  }

  function ColumnNames(t: string, c: string, column: Column): seq<Name> {
    [Name(ColumnsOf(t), c)] + UniqueNames(t, column.unique)
  }

  function NamesOfColumn(t: string): ((string, Column)) -> seq<Name> {
    (c: (string, Column)) => ColumnNames(t, c.0, c.1)
  }

  function NamesOfConstraint(t: string): ((string, Constraint)) -> seq<Name> {
    (k: (string, Constraint)) => [Name(ConstraintsOf(t), k.0)]
  }

  /** The names a statement introduces. */
  function NewNames(stmt: Statement): seq<Name> {
    match stmt
    case CreateTable(t, columns, constraints) =>
      [Name(Relations, t)] + FlatMap(NamesOfColumn(t), columns) + FlatMap(NamesOfConstraint(t), constraints)
    case AddColumn(t, c, column) => ColumnNames(t, c, column)
    case AddUnique(t, name, _) => UniqueNames(t, NamedUnique(name))
    case AddConstraint(t, name, _) => [Name(ConstraintsOf(t), name)]
    case _ => []
  }

  /** The names a database has. */
  function Names(db: Database): set<Name> {
    (set t | t in db :: Name(Relations, t))
    + (set t, c | t in db && c in db[t].columns :: Name(ColumnsOf(t), c))
    + (set t, k | t in db && k in db[t].constraints :: Name(ConstraintsOf(t), k))
    + (set t, c, n | t in db && c in db[t].columns && n in UniqueNames(t, db[t].columns[c].unique) :: n)
  }

  predicate SameName(pg: Server, a: Name, b: Name) {
    a.space == b.space && pg.fold(a.text) == pg.fold(b.text)
  }

  /** None of the names is taken, and no two are the same. */
  predicate NamesFree(pg: Server, taken: set<Name>, names: seq<Name>) {
    && (forall i, n | 0 <= i < |names| && n in taken :: !SameName(pg, n, names[i]))
    && (forall i, j | 0 <= i < j < |names| :: !SameName(pg, names[i], names[j]))
  }

  /** The built-in columns of every table can be read. */
  predicate ReadsColumn(pg: Server, c: string) {
    c == "id" || c == "version" || pg.accepts(ColumnName, c)
  }

  predicate LegibleColumn(pg: Server, c: string, column: Column) {
    ReadsColumn(pg, c) && (column.unique.NamedUnique? ==> pg.accepts(ConstraintName, column.unique.name))
  }

  predicate LegibleConstraint(pg: Server, name: string, k: Constraint) {
    && pg.accepts(ConstraintName, name)
    && ReadsColumn(pg, k.column)
    && match k
       case ForeignKey(_, target) => pg.accepts(TableName, target)
       case CheckIn(_, values) => values.Some?
  }

  /** The statement's text is SQL: its names are names and its CHECK lists are lists. */
  predicate Legible(pg: Server, stmt: Statement) {
    && pg.accepts(TableName, stmt.table)
    && match stmt
       case CreateTable(_, columns, constraints) =>
         && (forall c | c in columns :: LegibleColumn(pg, c.0, c.1))
         && (forall k | k in constraints :: LegibleConstraint(pg, k.0, k.1))
       case AddColumn(_, c, column) => LegibleColumn(pg, c, column)
       case UpdateWhereNull(_, c, _) => ReadsColumn(pg, c)
       case SetNotNull(_, c) => ReadsColumn(pg, c)
       case AddUnique(_, name, c) => pg.accepts(ConstraintName, name) && ReadsColumn(pg, c)
       case AddConstraint(_, name, k) => LegibleConstraint(pg, name, k)
  }

  // ----- statements

  /** What PostgreSQL demands of a statement whatever the rows are: it can be read, the names it introduces are free,
      and its foreign keys find their tables. */
  predicate Admits(pg: Server, db: Database, stmt: Statement) {
    Legible(pg, stmt) && NamesFree(pg, Names(db), NewNames(stmt)) && TargetsPresent(stmt, db.Keys)
  }

  /** One statement; `None` is an error. `strict` is PostgreSQL; without it, `Admits` is taken for granted, and names
      are the same only if their texts are. A column here bears one UNIQUE. */
  function Exec(pg: Server, strict: bool, db: Database, stmt: Statement): Option<Database> {
    if strict && !Admits(pg, db, stmt) then None
    else
      match stmt
      case CreateTable(t, columns, constraints) =>
        if t in db || !DistinctNames(columns) || !DistinctNames(constraints)
           || (exists k | k in constraints :: k.1.column !in ToMap(columns) || !ConstraintHolds(db, k.1, []))
        then None
        else Some(db[t := Table(ToMap(columns), ToMap(constraints), [])])
      case AddColumn(t, c, column) =>
        if t !in db || c in db[t].columns then None
        else
          var rows := WithCell(db[t].rows, c, SqlNull);
          if !ColumnHolds(column, c, rows) then None
          else Some(db[t := db[t].(columns := db[t].columns[c := column], rows := rows)])
      case UpdateWhereNull(t, c, v) =>
        if t !in db || c !in db[t].columns || Assign(pg, db[t].columns[c].typ, v) == None then None
        else
          var value := Assign(pg, db[t].columns[c].typ, v).value;
          var updated := db[t := db[t].(rows := FillNulls(db[t].rows, c, value))];
          if ColumnHolds(db[t].columns[c], c, updated[t].rows)
             && forall k | k in db[t].constraints :: db[t].constraints[k].column == c ==>
                  ConstraintHolds(updated, db[t].constraints[k], updated[t].rows)
          then Some(updated) else None
      case SetNotNull(t, c) =>
        if t !in db || c !in db[t].columns then None
        else
          var column := db[t].columns[c].(notNull := true);
          if !ColumnHolds(column, c, db[t].rows) then None
          else Some(db[t := db[t].(columns := db[t].columns[c := column])])
      case AddUnique(t, name, c) =>
        if t !in db || c !in db[t].columns || db[t].columns[c].unique != NotUnique || name in db[t].constraints
        then None
        else
          var column := db[t].columns[c].(unique := NamedUnique(name));
          if !ColumnHolds(column, c, db[t].rows) then None
          else Some(db[t := db[t].(columns := db[t].columns[c := column])])
      case AddConstraint(t, name, k) =>
        if t !in db || k.column !in db[t].columns || name in db[t].constraints then None
        else if !ConstraintHolds(db, k, db[t].rows) then None
        else Some(db[t := db[t].(constraints := db[t].constraints[name := k])])
  }

  /** A script: the first failing statement ends it. */
  function Run(pg: Server, strict: bool, db: Database, stmts: seq<Statement>): Option<Database>
    decreases |stmts|
  {
    if stmts == [] then Some(db)
    else
      match Exec(pg, strict, db, stmts[0])
      case None => None
      case Some(next) => Run(pg, strict, next, stmts[1..])
  }

  lemma {:induction false} RunConcat(pg: Server, strict: bool, db: Database, a: seq<Statement>, b: seq<Statement>)
    ensures Run(pg, strict, db, a + b) ==
      match Run(pg, strict, db, a) case None => None case Some(next) => Run(pg, strict, next, b)
    decreases |a|
  {
    if a == [] {
      assert a + b == b;
    } else {
      assert (a + b)[0] == a[0] && (a + b)[1..] == a[1..] + b;
      match Exec(pg, strict, db, a[0]) {
        case None =>
        case Some(next) => RunConcat(pg, strict, next, a[1..], b);
      }
    }
  }

  // ----- integrity

  predicate TableHolds(db: Database, t: Table) {
    && (forall row | row in t.rows :: row.Keys == t.columns.Keys)
    && (forall c | c in t.columns :: ColumnHolds(t.columns[c], c, t.rows) && ColumnTyped(t.columns[c].typ, c, t.rows))
    && (forall k | k in t.constraints ::
          t.constraints[k].column in t.columns && ConstraintHolds(db, t.constraints[k], t.rows))
  }

  predicate ColumnTyped(typ: SqlType, c: string, rows: seq<Row>) {
    forall row | row in rows :: HasType(typ, Cell(row, c))
  }

  /** Every table meets every constraint it declares, and every cell is of its column's type. */
  predicate Integrity(db: Database) {
    forall t | t in db :: TableHolds(db, db[t])
  }

  lemma {:induction false} ToMapEntries<T>(pairs: seq<(string, T)>)
    requires DistinctNames(pairs)
    ensures forall i :: 0 <= i < |pairs| ==> pairs[i].0 in ToMap(pairs) && ToMap(pairs)[pairs[i].0] == pairs[i].1
    ensures forall name :: name in ToMap(pairs) ==> exists i :: 0 <= i < |pairs| && pairs[i].0 == name
  {
    if pairs != [] {
      var n := |pairs| - 1;
      var init := pairs[..n];
      ToMapEntries(init);
      forall name | name in ToMap(pairs) ensures exists i :: 0 <= i < |pairs| && pairs[i].0 == name {
        if name == pairs[n].0 {
        } else {
          var i :| 0 <= i < n && init[i].0 == name;
          assert pairs[i].0 == name;
        }
      }
      forall i | 0 <= i < |pairs| ensures pairs[i].0 in ToMap(pairs) && ToMap(pairs)[pairs[i].0] == pairs[i].1 {
        if i < n {
          assert init[i] == pairs[i];
        }
      }
    }
  }

  lemma ToMapAppend<T>(a: seq<(string, T)>, x: (string, T))
    ensures ToMap(a + [x]) == ToMap(a)[x.0 := x.1]
  {
    assert (a + [x])[..|a|] == a;
  }

  lemma {:induction false} ToMapPrepend<T>(x: (string, T), a: seq<(string, T)>)
    requires forall i :: 0 <= i < |a| ==> a[i].0 != x.0
    ensures ToMap([x] + a) == ToMap(a)[x.0 := x.1]
  {
    if a == [] {
      assert [x] + a == [] + [x];
      ToMapAppend([], x);
    } else {
      var init, last := a[..|a| - 1], a[|a| - 1];
      assert a == init + [last];
      assert [x] + a == ([x] + init) + [last];
      ToMapPrepend(x, init);
      ToMapAppend([x] + init, last);
      ToMapAppend(init, last);
    }
  }

  /** Ids that tables keep are enough for the foreign keys that point to them. */
  lemma MoreIdsKeepConstraint(db: Database, next: Database, k: Constraint, rows: seq<Row>)
    requires ConstraintHolds(db, k, rows)
    requires k.ForeignKey? ==> Ids(db, k.target) - {SqlNull} <= Ids(next, k.target)
    ensures ConstraintHolds(next, k, rows)
  {
  }

  lemma OtherTablesHold(db: Database, next: Database, t: string)
    requires Integrity(db)
    requires forall u :: u in next && u != t ==> u in db && next[u] == db[u]
    requires forall u :: Ids(db, u) - {SqlNull} <= Ids(next, u)
    requires t in next ==> TableHolds(next, next[t])
    ensures Integrity(next)
  {
    forall u | u in next && u != t ensures TableHolds(next, next[u]) {
      forall k | k in next[u].constraints ensures ConstraintHolds(next, next[u].constraints[k], next[u].rows) {
        assert TableHolds(db, db[u]);
        MoreIdsKeepConstraint(db, next, db[u].constraints[k], db[u].rows);
      }
    }
  }

  lemma IdsGrow(db: Database, next: Database, t: string)
    requires forall u :: u in db ==> u in next && (u != t ==> next[u] == db[u])
    requires t in db ==> |next[t].rows| == |db[t].rows|
    requires t in db ==>
      (forall i :: 0 <= i < |db[t].rows| && Cell(db[t].rows[i], "id") != SqlNull
         ==> Cell(next[t].rows[i], "id") == Cell(db[t].rows[i], "id"))
    ensures forall u :: Ids(db, u) - {SqlNull} <= Ids(next, u)
  {
    forall u, v | v in Ids(db, u) && v != SqlNull ensures v in Ids(next, u) {
      if u == t {
        var row :| row in db[t].rows && Cell(row, "id") == v;
        var i :| 0 <= i < |db[t].rows| && db[t].rows[i] == row;
        assert next[t].rows[i] in next[t].rows && Cell(next[t].rows[i], "id") == v;
      }
    }
  }

  predicate SameCells(a: seq<Row>, b: seq<Row>, c: string) {
    |a| == |b| && forall i | 0 <= i < |a| :: Cell(a[i], c) == Cell(b[i], c)
  }

  lemma SameCellsKeepColumn(column: Column, c: string, a: seq<Row>, b: seq<Row>)
    requires ColumnHolds(column, c, a) && ColumnTyped(column.typ, c, a) && SameCells(a, b, c)
    ensures ColumnHolds(column, c, b) && ColumnTyped(column.typ, c, b)
  {
    forall row | row in b ensures (column.notNull ==> Cell(row, c) != SqlNull) && HasType(column.typ, Cell(row, c)) {
      var i :| 0 <= i < |b| && b[i] == row;
      assert a[i] in a;
    }
  }

  lemma SameCellsKeepConstraint(db: Database, next: Database, k: Constraint, a: seq<Row>, b: seq<Row>)
    requires ConstraintHolds(db, k, a) && SameCells(a, b, k.column)
    requires k.ForeignKey? ==> Ids(db, k.target) - {SqlNull} <= Ids(next, k.target)
    ensures ConstraintHolds(next, k, b)
  {
    forall row | row in b
      ensures Cell(row, k.column) == SqlNull
        || (if k.ForeignKey? then Cell(row, k.column) in Ids(next, k.target)
            else Cell(row, k.column).SqlText? && Cell(row, k.column).s in k.values.value)
    {
      var i :| 0 <= i < |b| && b[i] == row;
      assert a[i] in a;
    }
  }

  /** The change of rows and columns of one table `t` that leaves all but column `c` alone. */
  lemma ColumnChangeHolds(db: Database, next: Database, t: string, c: string)
    requires Integrity(db) && t in db && t in next && next == db[t := next[t]]
    requires next[t].constraints == db[t].constraints
    requires c in next[t].columns && next[t].columns == db[t].columns[c := next[t].columns[c]]
    requires forall d :: d in db[t].columns && d != c ==> SameCells(db[t].rows, next[t].rows, d)
    requires forall row | row in next[t].rows :: row.Keys == next[t].columns.Keys
    requires ColumnHolds(next[t].columns[c], c, next[t].rows) && ColumnTyped(next[t].columns[c].typ, c, next[t].rows)
    requires forall k | k in next[t].constraints ::
      next[t].constraints[k].column == c ==> ConstraintHolds(next, next[t].constraints[k], next[t].rows)
    requires forall u :: Ids(db, u) - {SqlNull} <= Ids(next, u)
    ensures Integrity(next)
  {
    assert TableHolds(db, db[t]);
    forall d | d in next[t].columns
      ensures ColumnHolds(next[t].columns[d], d, next[t].rows) && ColumnTyped(next[t].columns[d].typ, d, next[t].rows)
    {
      if d != c {
        SameCellsKeepColumn(db[t].columns[d], d, db[t].rows, next[t].rows);
      }
    }
    forall k | k in next[t].constraints
      ensures next[t].constraints[k].column in next[t].columns
      ensures ConstraintHolds(next, next[t].constraints[k], next[t].rows)
    {
      if next[t].constraints[k].column != c {
        SameCellsKeepConstraint(db, next, db[t].constraints[k], db[t].rows, next[t].rows);
      }
    }
    OtherTablesHold(db, next, t);
  }

  lemma CreatedTableHolds(pg: Server, db: Database, stmt: Statement)
    requires stmt.CreateTable? && Exec(pg, false, db, stmt).Some?
    ensures var next, t := Exec(pg, false, db, stmt).value, stmt.table;
      t in next && TableHolds(next, next[t])
  {
    var next := Exec(pg, false, db, stmt).value;
    var t := stmt.table;
    ToMapEntries(stmt.constraints);
    forall name | name in next[t].constraints
      ensures next[t].constraints[name].column in next[t].columns
      ensures ConstraintHolds(next, next[t].constraints[name], [])
    {
      var i :| 0 <= i < |stmt.constraints| && stmt.constraints[i].0 == name;
      assert stmt.constraints[i] in stmt.constraints;
    }
  }

  lemma CreateTableKeepsIntegrity(pg: Server, db: Database, stmt: Statement)
    requires Integrity(db) && stmt.CreateTable? && Exec(pg, false, db, stmt).Some?
    ensures Integrity(Exec(pg, false, db, stmt).value)
  {
    CreatedTableHolds(pg, db, stmt);
    NewTableHolds(db, stmt.table, Exec(pg, false, db, stmt).value[stmt.table]);
  }

  lemma NewTableHolds(db: Database, t: string, made: Table)
    requires Integrity(db) && t !in db && TableHolds(db[t := made], made)
    ensures Integrity(db[t := made])
  {
    IdsGrow(db, db[t := made], t);
    OtherTablesHold(db, db[t := made], t);
  }

  lemma AddColumnKeepsIntegrity(pg: Server, db: Database, stmt: Statement)
    requires Integrity(db) && stmt.AddColumn? && Exec(pg, false, db, stmt).Some?
    ensures Integrity(Exec(pg, false, db, stmt).value)
  {
    var next := Exec(pg, false, db, stmt).value;
    var t, c := stmt.table, stmt.name;
    assert TableHolds(db, db[t]);
    AddedRows(db[t].rows, c, db[t].columns.Keys);
    IdsGrow(db, next, t);
    ColumnChangeHolds(db, next, t, c);
  }

  lemma AddedRows(rows: seq<Row>, c: string, columns: set<string>)
    requires c !in columns && forall row | row in rows :: row.Keys == columns
    ensures forall i :: 0 <= i < |rows| ==> rows[i][c := SqlNull].Keys == columns + {c} && c !in rows[i]
  {
    forall i | 0 <= i < |rows| ensures rows[i].Keys == columns {
      assert rows[i] in rows;
    }
  }

  lemma UpdateKeepsIntegrity(pg: Server, db: Database, stmt: Statement)
    requires Integrity(db) && stmt.UpdateWhereNull? && Exec(pg, false, db, stmt).Some?
    ensures Integrity(Exec(pg, false, db, stmt).value)
  {
    var next := Exec(pg, false, db, stmt).value;
    var t, c := stmt.table, stmt.name;
    assert TableHolds(db, db[t]);
    assert next[t].columns == db[t].columns[c := next[t].columns[c]];
    forall i | 0 <= i < |db[t].rows| ensures next[t].rows[i].Keys == next[t].columns.Keys {
      assert db[t].rows[i] in db[t].rows;
    }
    IdsGrow(db, next, t);
    ColumnChangeHolds(db, next, t, c);
  }

  lemma ConstraintKeepsIntegrity(pg: Server, db: Database, stmt: Statement)
    requires Integrity(db) && (stmt.SetNotNull? || stmt.AddUnique? || stmt.AddConstraint?)
    requires Exec(pg, false, db, stmt).Some?
    ensures Integrity(Exec(pg, false, db, stmt).value)
  {
    var next := Exec(pg, false, db, stmt).value;
    var t := stmt.table;
    assert TableHolds(db, db[t]);
    IdsGrow(db, next, t);
    forall k | k in db[t].constraints ensures ConstraintHolds(next, db[t].constraints[k], db[t].rows) {
      MoreIdsKeepConstraint(db, next, db[t].constraints[k], db[t].rows);
    }
    if stmt.AddConstraint? {
      MoreIdsKeepConstraint(db, next, stmt.constraint, db[t].rows);
    }
    OtherTablesHold(db, next, t);
  }

  /** Every accepted script leaves every table within the constraints it then declares. */
  lemma {:induction false} RunKeepsIntegrity(pg: Server, strict: bool, db: Database, stmts: seq<Statement>)
    requires Integrity(db)
    ensures Run(pg, strict, db, stmts).Some? ==> Integrity(Run(pg, strict, db, stmts).value)
    decreases |stmts|
  {
    if stmts != [] && Exec(pg, strict, db, stmts[0]).Some? {
      var stmt := stmts[0];
      match stmt {
        case CreateTable(_, _, _) => CreateTableKeepsIntegrity(pg, db, stmt);
        case AddColumn(_, _, _) => AddColumnKeepsIntegrity(pg, db, stmt);
        case UpdateWhereNull(_, _, _) => UpdateKeepsIntegrity(pg, db, stmt);
        case _ => ConstraintKeepsIntegrity(pg, db, stmt);
      }
      RunKeepsIntegrity(pg, strict, Exec(pg, strict, db, stmt).value, stmts[1..]);
    }
  }
}
