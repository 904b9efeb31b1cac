/** The Alembic revision graph as the two migration verifiers read it, and what their clean reports mean. */
module MigrationGraph {
  import opened Ordering
  import opened Digraph
  import opened Values

  // ----- the `down_revision` literal of one migration file

  datatype Item = NoneItem | StrItem(s: string) | OtherItem(text: string)

  datatype DownRevision =
    | Absent
    | Name(s: string)
    | NameTuple(items: seq<Item>)
    | NameList(items: seq<Item>)
    | Other(text: string)

  function ItemText(item: Item): string
    requires !item.NoneItem?
  {
    if item.StrItem? then item.s else item.text
  }

  function ItemTexts(items: seq<Item>): seq<string> {
    if items == [] then []
    else if items[0].NoneItem? then ItemTexts(items[1..])
    else [ItemText(items[0])] + ItemTexts(items[1..])
  }

  /** `_normalize_down_revision` of migration_verify. */
  function Normalize(d: DownRevision): seq<string> {
    match d
    case Absent => []
    case Name(s) => [s]
    case NameTuple(items) => ItemTexts(items)
    case NameList(items) => ItemTexts(items)
    case Other(text) => [text]
  }

  /** The stricter reading of etra_conformance; `None` is its "invalid down_revision" issue. */
  function StrictParents(d: DownRevision): Option<seq<string>> {
    match d
    case Absent => Some([])
    case Name(s) => Some([s])
    case NameTuple(items) =>
      if forall item | item in items :: item.StrItem? then Some(ItemTexts(items)) else None
    case NameList(_) => None
    case Other(_) => None
  }

  /** The parents the stricter reading goes on with. */
  function NamedParents(d: DownRevision): seq<string> {
    if StrictParents(d).Some? then StrictParents(d).value else []
  }

  /** Where the stricter reading succeeds, both read the same. */
  lemma StrictReadingIsNormal(d: DownRevision)
    ensures StrictParents(d).Some? ==> Normalize(d) == StrictParents(d).value
  {
  }

  // ----- migration files and rows

  /** One migration file, parsed. */
  datatype Source = Source(path: string, revision: string, down: DownRevision)

  datatype Row = Row(revision: string, parents: seq<string>)

  /** The rows of migration_verify. */
  function RowsByText(sources: seq<Source>): (rows: seq<Row>)
    ensures |rows| == |sources|
    ensures forall i :: 0 <= i < |rows| ==> rows[i] == Row(sources[i].revision, Normalize(sources[i].down))
  {
    seq(|sources|, i requires 0 <= i < |sources| => Row(sources[i].revision, Normalize(sources[i].down)))
  }

  /** The rows of etra_conformance. */
  function RowsByName(sources: seq<Source>): (rows: seq<Row>)
    ensures |rows| == |sources|
    ensures forall i :: 0 <= i < |rows| ==> rows[i] == Row(sources[i].revision, NamedParents(sources[i].down))
  {
    seq(|sources|, i requires 0 <= i < |sources| => Row(sources[i].revision, NamedParents(sources[i].down)))
  }

  predicate AllReadable(sources: seq<Source>) {
    forall source :: source in sources ==> StrictParents(source.down).Some?
  }

  /** The two verifiers work on the same rows exactly when every literal is one that both accept, or names nothing. */
  lemma SameRowsIff(sources: seq<Source>)
    ensures RowsByText(sources) == RowsByName(sources)
      <==> forall source :: source in sources ==> StrictParents(source.down).Some? || Normalize(source.down) == []
  {
    var t, s := RowsByText(sources), RowsByName(sources);
    forall i | 0 <= i < |sources|
      ensures t[i] == s[i] <==> StrictParents(sources[i].down).Some? || Normalize(sources[i].down) == []
    {
      StrictReadingIsNormal(sources[i].down);
    }
    if t == s {
      forall source | source in sources ensures StrictParents(source.down).Some? || Normalize(source.down) == [] {
        var i :| 0 <= i < |sources| && sources[i] == source;
        assert t[i] == s[i];
      }
    }
  }

  function Revisions(rows: seq<Row>): set<string> {
    set row | row in rows :: row.revision
  }

  function Occurrences(rows: seq<Row>, revision: string): nat {
    if rows == [] then 0
    else Occurrences(rows[..|rows| - 1], revision) + if rows[|rows| - 1].revision == revision then 1 else 0
  }

  ghost predicate DistinctRevisions(rows: seq<Row>) {
    forall i, j :: 0 <= i < j < |rows| ==> rows[i].revision != rows[j].revision
  }

  function Restrict(parents: seq<string>, keys: set<string>): seq<string> {
    if parents == [] then []
    else if parents[0] in keys then [parents[0]] + Restrict(parents[1..], keys)
    else Restrict(parents[1..], keys)
  }

  lemma {:induction false} RestrictKeeps(parents: seq<string>, keys: set<string>)
    ensures forall x :: x in Restrict(parents, keys) <==> x in parents && x in keys
  {
    if parents != [] {
      RestrictKeeps(parents[1..], keys);
      assert parents == [parents[0]] + parents[1..];
    }
  }

  /** `parent_map` of migration_verify: known parents only, the last row of a revision winning. */
  function ParentMap(rows: seq<Row>, keys: set<string>): Graph {
    if rows == [] then map[]
    else
      var last := rows[|rows| - 1];
      ParentMap(rows[..|rows| - 1], keys)[last.revision := Restrict(last.parents, keys)]
  }

  /** `graph` of etra_conformance: all parents, the last row of a revision winning. */
  function RevisionGraph(rows: seq<Row>): Graph {
    if rows == [] then map[]
    else
      var last := rows[|rows| - 1];
      RevisionGraph(rows[..|rows| - 1])[last.revision := last.parents]
  }

  /** `children[parent]` of migration_verify: one entry for each listing of the parent. */
  function ChildrenOf(rows: seq<Row>, parent: string): seq<string> {
    if rows == [] then []
    else
      var last := rows[|rows| - 1];
      ChildrenOf(rows[..|rows| - 1], parent) + Repeat(last.revision, Listings(last.parents, parent))
  }

  function Listings(parents: seq<string>, parent: string): nat {
    if parents == [] then 0
    else Listings(parents[..|parents| - 1], parent) + if parents[|parents| - 1] == parent then 1 else 0
  }

  function Repeat(x: string, n: nat): seq<string> {
    if n == 0 then [] else Repeat(x, n - 1) + [x]
  }

  /** A known revision no row lists as a parent. */
  ghost predicate IsHead(rows: seq<Row>, r: string) {
    r in Revisions(rows) && forall row :: row in rows ==> r !in row.parents
  }

  ghost function Heads(rows: seq<Row>): set<string> {
    set r | r in Revisions(rows) && IsHead(rows, r)
  }

  function BaseList(rows: seq<Row>): seq<string> {
    if rows == [] then []
    else
      var last := rows[|rows| - 1];
      BaseList(rows[..|rows| - 1]) + if last.parents == [] then [last.revision] else []
  }

  ghost predicate IsDangling(rows: seq<Row>, row: Row, parent: string) {
    row in rows && parent in row.parents && parent !in Revisions(rows)
  }

  ghost predicate NoDangling(rows: seq<Row>) {
    forall row, parent :: !IsDangling(rows, row, parent)
  }

  /** What a conformant migration_verify report says about the graph. */
  ghost predicate Clean(rows: seq<Row>) {
    && DistinctRevisions(rows)
    && NoDangling(rows)
    && |BaseList(rows)| == 1
    && |Heads(rows)| == 1
    && Acyclic(ParentMap(rows, Revisions(rows)))
  }

  // ----- the second reading

  ghost function Referenced(rows: seq<Row>): set<string> {
    var g := RevisionGraph(rows);
    set r, p | r in g && p in g[r] :: p
  }

  /** `heads = revisions - referenced` of etra_conformance. */
  ghost function StrictHeads(rows: seq<Row>): set<string> {
    Revisions(rows) - Referenced(rows)
  }

  /** What an empty issue list of `_migration_graph` says. */
  ghost predicate StrictClean(rows: seq<Row>) {
    && DistinctRevisions(rows)
    && Referenced(rows) <= Revisions(rows)
    && |StrictHeads(rows)| == 1
    && Acyclic(RevisionGraph(rows))
  }

  // ----- facts about the pieces

  lemma {:induction false} OccurrencesCounts(rows: seq<Row>, revision: string)
    ensures Occurrences(rows, revision) == 0 <==> forall i :: 0 <= i < |rows| ==> rows[i].revision != revision
    ensures Occurrences(rows, revision) > 1 <==>
      exists i, j :: 0 <= i < j < |rows| && rows[i].revision == revision && rows[j].revision == revision
  {
    if rows != [] {
      var n := |rows| - 1;
      var init := rows[..n];
      OccurrencesCounts(init, revision);
      assert forall i :: 0 <= i < n ==> init[i] == rows[i];
      if Occurrences(rows, revision) > 1 {
        if Occurrences(init, revision) > 1 {
          var i, j :| 0 <= i < j < n && init[i].revision == revision && init[j].revision == revision;
          assert rows[i].revision == revision && rows[j].revision == revision;
        } else {
          var i :| 0 <= i < n && init[i].revision == revision;
          assert rows[i].revision == revision && rows[n].revision == revision;
        }
      }
      if i, j :| 0 <= i < j < |rows| && rows[i].revision == revision && rows[j].revision == revision {
        assert init[i].revision == revision;
        if j < n {
          assert init[j].revision == revision;
        }
      }
    }
  }

  lemma FewOccurrencesMeanDistinct(rows: seq<Row>)
    ensures DistinctRevisions(rows) <==> forall r :: Occurrences(rows, r) <= 1
  {
    forall r ensures Occurrences(rows, r) > 1 ==> !DistinctRevisions(rows) {
      OccurrencesCounts(rows, r);
    }
    if !DistinctRevisions(rows) {
      var i, j :| 0 <= i < j < |rows| && rows[i].revision == rows[j].revision;
      OccurrencesCounts(rows, rows[i].revision);
    }
  }

  lemma {:induction false} ListingsCount(parents: seq<string>, parent: string)
    ensures Listings(parents, parent) > 0 <==> parent in parents
  {
    if parents != [] {
      var init := parents[..|parents| - 1];
      ListingsCount(init, parent);
      assert parents == init + [parents[|parents| - 1]];
    }
  }

  lemma {:induction false} ChildrenExist(rows: seq<Row>, parent: string)
    ensures ChildrenOf(rows, parent) == [] <==> forall row :: row in rows ==> parent !in row.parents
  {
    if rows != [] {
      var last := rows[|rows| - 1];
      ChildrenExist(rows[..|rows| - 1], parent);
      ListingsCount(last.parents, parent);
      assert rows == rows[..|rows| - 1] + [last];
    }
  }

  lemma {:induction false} BaseListMembers(rows: seq<Row>)
    ensures forall r :: r in BaseList(rows) <==> exists row :: row in rows && row.revision == r && row.parents == []
  {
    if rows != [] {
      var last := rows[|rows| - 1];
      var init := rows[..|rows| - 1];
      BaseListMembers(init);
      assert rows == init + [last];
      forall r ensures r in BaseList(rows) <==> exists row :: row in rows && row.revision == r && row.parents == [] {
        if r in BaseList(rows) {
          if r in BaseList(init) {
            var row :| row in init && row.revision == r && row.parents == [];
            assert row in rows;
          } else {
            assert last in rows;
          }
        }
      }
    }
  }

  lemma {:induction false} GraphKeys(rows: seq<Row>, keys: set<string>)
    ensures ParentMap(rows, keys).Keys == Revisions(rows)
    ensures RevisionGraph(rows).Keys == Revisions(rows)
  {
    if rows != [] {
      var last := rows[|rows| - 1];
      var init := rows[..|rows| - 1];
      GraphKeys(init, keys);
      assert rows == init + [last];
      assert Revisions(rows) == Revisions(init) + {last.revision};
    }
  }

  /** With distinct revisions a dictionary entry is its row. */
  lemma {:induction false} GraphEntry(rows: seq<Row>, keys: set<string>, i: nat)
    requires DistinctRevisions(rows) && i < |rows|
    ensures rows[i].revision in RevisionGraph(rows) && RevisionGraph(rows)[rows[i].revision] == rows[i].parents
    ensures rows[i].revision in ParentMap(rows, keys)
    ensures ParentMap(rows, keys)[rows[i].revision] == Restrict(rows[i].parents, keys)
  {
    var n := |rows| - 1;
    if i < n {
      assert rows[..n][i] == rows[i];
      GraphEntry(rows[..n], keys, i);
    }
  }

  lemma ReferencedIsListed(rows: seq<Row>)
    requires DistinctRevisions(rows)
    ensures forall p :: p in Referenced(rows) <==> exists row :: row in rows && p in row.parents
  {
    var g := RevisionGraph(rows);
    GraphKeys(rows, {});
    forall p ensures p in Referenced(rows) <==> exists row :: row in rows && p in row.parents {
      if p in Referenced(rows) {
        var r :| r in g && p in g[r];
        var i :| 0 <= i < |rows| && rows[i].revision == r;
        GraphEntry(rows, {}, i);
        assert rows[i] in rows && p in rows[i].parents;
      }
      if row :| row in rows && p in row.parents {
        var i :| 0 <= i < |rows| && rows[i] == row;
        GraphEntry(rows, {}, i);
        assert row.revision in g && p in g[row.revision];
      }
    }
  }

  /** Both dictionaries keep the last row of a revision; one of them without its unknown parents. */
  lemma {:induction false} SameEntries(rows: seq<Row>, keys: set<string>)
    ensures ParentMap(rows, keys).Keys == RevisionGraph(rows).Keys
    ensures forall r :: r in RevisionGraph(rows) ==> ParentMap(rows, keys)[r] == Restrict(RevisionGraph(rows)[r], keys)
  {
    if rows != [] {
      SameEntries(rows[..|rows| - 1], keys);
    }
  }

  /** So both readings hold the same edges: one filters unknown parents early, the other skips them
      during the search. */
  lemma SameEdges(rows: seq<Row>)
    ensures forall a, b ::
      Edge(ParentMap(rows, Revisions(rows)), a, b) <==> Edge(RevisionGraph(rows), a, b)
  {
    var keys := Revisions(rows);
    GraphKeys(rows, keys);
    SameEntries(rows, keys);
    forall a, b | a in keys
      ensures Edge(ParentMap(rows, keys), a, b) <==> Edge(RevisionGraph(rows), a, b)
    {
      RestrictKeeps(RevisionGraph(rows)[a], keys);
    }
  }

  lemma {:induction false} EntryIsListed(rows: seq<Row>, r: string)
    requires r in RevisionGraph(rows)
    ensures exists row :: row in rows && row.revision == r && row.parents == RevisionGraph(rows)[r]
  {
    var n := |rows| - 1;
    if rows[n].revision == r {
      assert rows[n] in rows;
    } else {
      EntryIsListed(rows[..n], r);
    }
  }

  // ----- theorems

  /** The same revisions in the same places, with no other parents. */
  ghost predicate Narrows(s: seq<Row>, t: seq<Row>) {
    && |s| == |t|
    && forall i :: 0 <= i < |s| ==>
         s[i].revision == t[i].revision && forall p :: p in s[i].parents ==> p in t[i].parents
  }

  ghost predicate Lists(rows: seq<Row>, p: string) {
    exists row :: row in rows && p in row.parents
  }

  lemma NarrowFacts(s: seq<Row>, t: seq<Row>)
    requires Narrows(s, t)
    ensures Revisions(s) == Revisions(t)
    ensures forall p :: p in Referenced(s) ==> Lists(t, p)
  {
    forall r ensures r in Revisions(s) <==> r in Revisions(t) {
      if row :| row in s && row.revision == r {
        var i :| 0 <= i < |s| && s[i] == row;
        assert t[i] in t;
      }
      if row :| row in t && row.revision == r {
        var i :| 0 <= i < |t| && t[i] == row;
        assert s[i] in s;
      }
    }
    forall p | p in Referenced(s) ensures Lists(t, p) {
      var r :| r in RevisionGraph(s) && p in RevisionGraph(s)[r];
      EntryIsListed(s, r);
      var row :| row in s && row.parents == RevisionGraph(s)[r];
      var i :| 0 <= i < |s| && s[i] == row;
      assert t[i] in t;
    }
  }

  /** The parents that some row lists and migration_verify does not know. */
  ghost function DanglingParents(rows: seq<Row>): set<string> {
    set row, p | row in rows && p in row.parents && IsDangling(rows, row, p) :: p
  }

  /** The heads agree exactly when each known parent that is listed at all is listed by the last row
      of some revision. */
  lemma HeadsAgreeIff(s: seq<Row>, t: seq<Row>)
    requires Narrows(s, t)
    ensures Heads(t) == StrictHeads(s) <==> forall p :: p in Revisions(t) && Lists(t, p) ==> p in Referenced(s)
  {
    NarrowFacts(s, t);
    forall p | p in Revisions(t) ensures p in Heads(t) <==> !Lists(t, p) {
    }
    if Heads(t) == StrictHeads(s) {
      forall p | p in Revisions(t) && Lists(t, p) ensures p in Referenced(s) {
        assert p !in Heads(t);
      }
    }
  }

  /** And the dangling parents agree exactly when each unknown one is. */
  lemma DanglingAgreeIff(s: seq<Row>, t: seq<Row>)
    requires Narrows(s, t)
    ensures DanglingParents(t) == Referenced(s) - Revisions(s)
      <==> forall p :: p !in Revisions(t) && Lists(t, p) ==> p in Referenced(s)
  {
    NarrowFacts(s, t);
    forall p ensures p in DanglingParents(t) <==> p !in Revisions(t) && Lists(t, p) {
      if p !in Revisions(t) && Lists(t, p) {
        var row :| row in t && p in row.parents;
        assert IsDangling(t, row, p);
      }
    }
    if DanglingParents(t) == Referenced(s) - Revisions(s) {
      forall p | p !in Revisions(t) && Lists(t, p) ensures p in Referenced(s) {
        assert p in DanglingParents(t);
      }
    }
  }

  /** Whether there is a cycle they always agree on, repeated revisions or not. */
  lemma CyclesAgree(rows: seq<Row>)
    ensures Acyclic(ParentMap(rows, Revisions(rows))) <==> Acyclic(RevisionGraph(rows))
  {
    GraphKeys(rows, Revisions(rows));
    SameEdges(rows);
    SameEdgesSameCycles(ParentMap(rows, Revisions(rows)), RevisionGraph(rows));
  }

  /** No row lists a parent that the last row of its revision, and of every other one, fails to list. */
  ghost predicate NothingHidden(rows: seq<Row>) {
    forall p :: Lists(rows, p) ==> p in Referenced(rows)
  }

  /** On the same rows the two verifiers agree on heads and dangling parents exactly when no listed parent is hidden by
      a later row of the same revision, and on cycles always. */
  lemma VerifiersAgreeIff(rows: seq<Row>)
    ensures Heads(rows) == StrictHeads(rows) && DanglingParents(rows) == Referenced(rows) - Revisions(rows)
      <==> NothingHidden(rows)
    ensures Acyclic(ParentMap(rows, Revisions(rows))) <==> Acyclic(RevisionGraph(rows))
  {
    HeadsAgreeIff(rows, rows);
    DanglingAgreeIff(rows, rows);
    CyclesAgree(rows);
  }

  lemma DistinctHidesNothing(rows: seq<Row>)
    requires DistinctRevisions(rows)
    ensures NothingHidden(rows)
  {
    ReferencedIsListed(rows);
  }

  /** Hence on distinct revisions they agree on everything. */
  lemma DistinctVerifiersAgree(rows: seq<Row>)
    requires DistinctRevisions(rows)
    ensures Heads(rows) == StrictHeads(rows) && DanglingParents(rows) == Referenced(rows) - Revisions(rows)
    ensures NoDangling(rows) <==> Referenced(rows) <= Revisions(rows)
    ensures Acyclic(ParentMap(rows, Revisions(rows))) <==> Acyclic(RevisionGraph(rows))
  {
    DistinctHidesNothing(rows);
    VerifiersAgreeIff(rows);
    if DanglingParents(rows) == {} {
      forall row, p ensures !IsDangling(rows, row, p) {
        assert IsDangling(rows, row, p) ==> p in DanglingParents(rows);
      }
    }
    if NoDangling(rows) {
      assert DanglingParents(rows) == {};
      forall p | p in Referenced(rows) ensures p in Revisions(rows) {
        assert p !in Referenced(rows) - Revisions(rows);
      }
    }
  }

  /** A repeated revision that hides a parent: the heads differ. */
  lemma DuplicatesBreakAgreement()
    ensures var rows := [Row("r", ["p"]), Row("r", []), Row("p", [])];
      !DistinctRevisions(rows) && !NothingHidden(rows) && Heads(rows) != StrictHeads(rows)
  {
    var first, second, third := Row("r", ["p"]), Row("r", []), Row("p", []);
    var rows := [first, second, third];
    assert rows[0].revision == rows[1].revision;
    assert rows[..2] == [first, second] && [first, second][..1] == [first];
    assert RevisionGraph([first]) == map["r" := ["p"]];
    assert RevisionGraph([first, second]) == map["r" := []];
    assert RevisionGraph(rows) == map["r" := [], "p" := []];
    assert third in rows && "p" in Revisions(rows);
    assert first in rows && "p" in first.parents && Lists(rows, "p");
    HeadsAgreeIff(rows, rows);
  }

  // ----- from the literals

  lemma ReadingsNarrow(sources: seq<Source>)
    ensures Narrows(RowsByName(sources), RowsByText(sources))
  {
    forall i | 0 <= i < |sources|
      ensures forall p :: p in NamedParents(sources[i].down) ==> p in Normalize(sources[i].down)
    {
      StrictReadingIsNormal(sources[i].down);
    }
  }

  /** Each verifier by its own reading: heads and dangling parents agree exactly when every parent that the literals
      name as text is one that the last file of some revision names as a name. */
  lemma ReadingsAgreeIff(sources: seq<Source>)
    ensures var t, s := RowsByText(sources), RowsByName(sources);
      Heads(t) == StrictHeads(s) && DanglingParents(t) == Referenced(s) - Revisions(s)
      <==> forall source, p :: source in sources && p in Normalize(source.down) ==> p in Referenced(s)
  {
    var t, s := RowsByText(sources), RowsByName(sources);
    ReadingsNarrow(sources);
    HeadsAgreeIff(s, t);
    DanglingAgreeIff(s, t);
    forall p ensures Lists(t, p) <==> exists source :: source in sources && p in Normalize(source.down) {
      if row :| row in t && p in row.parents {
        var i :| 0 <= i < |t| && t[i] == row;
        assert sources[i] in sources;
      }
      if source :| source in sources && p in Normalize(source.down) {
        var i :| 0 <= i < |sources| && sources[i] == source;
        assert t[i] in t;
      }
    }
  }

  /** A list instead of a tuple is read by one verifier and refused by the other, and the heads differ. */
  lemma ListLiteralBreaksAgreement()
    ensures var sources := [Source("a.py", "a", Absent), Source("b.py", "b", NameList([StrItem("a")]))];
      DistinctRevisions(RowsByText(sources)) && Heads(RowsByText(sources)) != StrictHeads(RowsByName(sources))
  {
    var sources := [Source("a.py", "a", Absent), Source("b.py", "b", NameList([StrItem("a")]))];
    var t, s := RowsByText(sources), RowsByName(sources);
    assert s == [Row("a", []), Row("b", [])] && s[..1] == [Row("a", [])];
    assert RevisionGraph(s[..1]) == map["a" := []];
    assert RevisionGraph(s) == map["a" := [], "b" := []];
    assert ItemTexts([StrItem("a")]) == ["a"] + ItemTexts([]);
    assert t[1] in t && "a" in t[1].parents && Lists(t, "a");
    assert t[0] in t && "a" in Revisions(t);
    ReadingsNarrow(sources);
    HeadsAgreeIff(s, t);
  }

  /** What an empty issue list of `_migration_graph` says of the files. */
  ghost predicate StrictAccepts(sources: seq<Source>) {
    AllReadable(sources) && StrictClean(RowsByName(sources))
  }

  /** The two verdicts on the same files differ by the base count, which only migration_verify checks, and by the form
      of the literals, which only etra_conformance does. */
  lemma VerdictsDifferBy(sources: seq<Source>)
    ensures Clean(RowsByText(sources)) && AllReadable(sources)
      <==> StrictAccepts(sources) && |BaseList(RowsByName(sources))| == 1
  {
    if AllReadable(sources) {
      SameRowsIff(sources);
      CleanIsStrictCleanWithOneBase(RowsByText(sources));
    }
  }

  lemma CleanIsStrictCleanWithOneBase(rows: seq<Row>)
    ensures Clean(rows) <==> StrictClean(rows) && |BaseList(rows)| == 1
  {
    if DistinctRevisions(rows) {
      DistinctVerifiersAgree(rows);
    }
  }

  lemma SingletonMember<T>(s: set<T>) returns (x: T)
    requires |s| == 1
    ensures s == {x}
  {
    x :| x in s;
    assert |s - {x}| == 0;
    assert s == {x} + (s - {x});
  }

  lemma SourceIsHead(rows: seq<Row>, r: string)
    requires DistinctRevisions(rows) && r in Revisions(rows)
    requires IsSource(ParentMap(rows, Revisions(rows)), r)
    ensures r in Heads(rows)
  {
    var keys := Revisions(rows);
    GraphKeys(rows, keys);
    forall i | 0 <= i < |rows| ensures r !in rows[i].parents {
      GraphEntry(rows, keys, i);
      RestrictKeeps(rows[i].parents, keys);
      assert !Edge(ParentMap(rows, keys), rows[i].revision, r);
      assert rows[i] in rows;
    }
  }

  lemma SinkIsBase(rows: seq<Row>, r: string)
    requires DistinctRevisions(rows) && NoDangling(rows) && r in Revisions(rows)
    requires IsSink(ParentMap(rows, Revisions(rows)), r)
    ensures r in BaseList(rows)
  {
    var keys := Revisions(rows);
    GraphKeys(rows, keys);
    BaseListMembers(rows);
    var i :| 0 <= i < |rows| && rows[i].revision == r;
    GraphEntry(rows, keys, i);
    RestrictKeeps(rows[i].parents, keys);
    if rows[i].parents != [] {
      var p := rows[i].parents[0];
      assert !IsDangling(rows, rows[i], p);
      assert Edge(ParentMap(rows, keys), r, p);
    }
    assert rows[i] in rows;
  }

  /** A clean report describes one rooted history, merges included: every revision descends from the one base
      and is an ancestor of the one head. */
  lemma CleanGraphIsRooted(rows: seq<Row>) returns (base: string, head: string)
    requires Clean(rows)
    ensures BaseList(rows) == [base] && Heads(rows) == {head}
    ensures forall r :: r in Revisions(rows) ==>
      && Reaches(ParentMap(rows, Revisions(rows)), r, base)
      && Reaches(ParentMap(rows, Revisions(rows)), head, r)
  {
    base := BaseList(rows)[0];
    head := SingletonMember(Heads(rows));
    var keys := Revisions(rows);
    var g := ParentMap(rows, keys);
    GraphKeys(rows, keys);
    forall r | r in keys ensures Reaches(g, r, base) && Reaches(g, head, r) {
      var down := WalkToSink(g, [r]);
      WalkNodes(g, down);
      SinkIsBase(rows, down[|down| - 1]);
      assert WalkFromTo(g, down, r, base);
      var up := WalkFromSource(g, [r]);
      SourceIsHead(rows, up[0]);
      assert WalkFromTo(g, up, head, r);
    }
  }

  ghost predicate SingleParents(rows: seq<Row>) {
    forall row :: row in rows ==> |row.parents| <= 1
  }

  lemma {:induction false} BaseListDistinct(rows: seq<Row>)
    requires DistinctRevisions(rows)
    ensures Distinct(BaseList(rows))
  {
    if rows != [] {
      var n := |rows| - 1;
      var init := rows[..n];
      BaseListDistinct(init);
      BaseListMembers(init);
      assert BaseList(rows) == BaseList(init) + if rows[n].parents == [] then [rows[n].revision] else [];
      assert Distinct(BaseList(init));
      forall r | r in BaseList(init) ensures r != rows[n].revision {
        var row :| row in init && row.revision == r && row.parents == [];
        var i :| 0 <= i < n && init[i] == row;
        assert rows[i] == row;
      }
      assert rows[n].revision !in BaseList(init);
      forall i, j | 0 <= i < j < |BaseList(rows)| ensures BaseList(rows)[i] != BaseList(rows)[j] {
        assert BaseList(rows)[i] == BaseList(init)[i] && BaseList(init)[i] in BaseList(init);
      }
    }
  }

  /** Following single parents is deterministic: a walk from the start of `chain` stays on it while `chain` lasts. */
  lemma {:induction false} WalksCoincide(g: Graph, chain: seq<string>, w: seq<string>, i: nat)
    requires Walk(g, chain) && Walk(g, w) && chain[0] == w[0]
    requires forall r :: r in g ==> |g[r]| <= 1
    requires IsSink(g, chain[|chain| - 1])
    requires i < |w|
    ensures i < |chain| && chain[i] == w[i]
  {
    if i > 0 {
      WalksCoincide(g, chain, w, i - 1);
      assert Edge(g, w[i - 1], w[i]);
      assert i - 1 != |chain| - 1;
      assert Edge(g, chain[i - 1], chain[i]);
    }
  }

  /** With at most one parent each, a revision graph without issues is a single chain from the head:
      every revision once, ending at the only base. */
  lemma LinearHistory(rows: seq<Row>) returns (chain: seq<string>)
    requires StrictClean(rows) && SingleParents(rows)
    ensures |chain| > 0 && StrictHeads(rows) == {chain[0]}
    ensures Distinct(chain) && Elements(chain) == Revisions(rows)
    ensures forall x :: x in chain ==> x in RevisionGraph(rows)
    ensures forall i :: 0 <= i < |chain| - 1 ==> RevisionGraph(rows)[chain[i]] == [chain[i + 1]]
    ensures RevisionGraph(rows)[chain[|chain| - 1]] == []
    ensures BaseList(rows) == [chain[|chain| - 1]]
  {
    var g := RevisionGraph(rows);
    GraphKeys(rows, {});
    SingleParentEntries(rows);
    var head := SingletonMember(StrictHeads(rows));
    chain := WalkToSink(g, [head]);
    AcyclicWalkIsDistinct(g, chain);
    ChainIsLinked(g, chain);
    forall r | r in g ensures r in chain {
      HeadWalkCovers(rows, chain, r);
    }
    assert Elements(chain) == g.Keys;
    ChainEndIsOnlyBase(rows, chain);
  }

  lemma ChainIsLinked(g: Graph, chain: seq<string>)
    requires Walk(g, chain) && IsSink(g, chain[|chain| - 1])
    requires forall r :: r in g ==> |g[r]| <= 1 && forall p :: p in g[r] ==> p in g
    ensures forall x :: x in chain ==> x in g
    ensures forall i :: 0 <= i < |chain| - 1 ==> g[chain[i]] == [chain[i + 1]]
    ensures g[chain[|chain| - 1]] == []
  {
    WalkNodes(g, chain);
    forall i | 0 <= i < |chain| - 1 ensures g[chain[i]] == [chain[i + 1]] {
      assert Edge(g, chain[i], chain[i + 1]);
    }
    var last := chain[|chain| - 1];
    if g[last] != [] {
      assert Edge(g, last, g[last][0]);
    }
  }

  lemma SingleParentEntries(rows: seq<Row>)
    requires StrictClean(rows) && SingleParents(rows)
    ensures forall r :: r in RevisionGraph(rows) ==>
      |RevisionGraph(rows)[r]| <= 1 && forall p :: p in RevisionGraph(rows)[r] ==> p in RevisionGraph(rows)
  {
    var g := RevisionGraph(rows);
    GraphKeys(rows, {});
    forall r | r in g ensures |g[r]| <= 1 && forall p :: p in g[r] ==> p in g {
      var i :| 0 <= i < |rows| && rows[i].revision == r;
      GraphEntry(rows, {}, i);
      assert rows[i] in rows;
      forall p | p in g[r] ensures p in g { assert p in Referenced(rows); }
    }
  }

  lemma SourceIsStrictHead(rows: seq<Row>, r: string)
    requires DistinctRevisions(rows) && r in Revisions(rows) && IsSource(RevisionGraph(rows), r)
    ensures r in StrictHeads(rows)
  {
    SameEdges(rows);
    SourceIsHead(rows, r);
    DistinctVerifiersAgree(rows);
  }

  lemma HeadWalkCovers(rows: seq<Row>, chain: seq<string>, r: string)
    requires StrictClean(rows) && SingleParents(rows)
    requires Walk(RevisionGraph(rows), chain) && StrictHeads(rows) == {chain[0]}
    requires IsSink(RevisionGraph(rows), chain[|chain| - 1])
    requires r in RevisionGraph(rows)
    ensures r in chain
  {
    var g := RevisionGraph(rows);
    var up := WalkFromSource(g, [r]);
    GraphKeys(rows, Revisions(rows));
    WalkNodes(g, up);
    assert up[0] in up;
    SourceIsStrictHead(rows, up[0]);
    SingleParentEntries(rows);
    WalksCoincide(g, chain, up, |up| - 1);
  }

  lemma ChainEndIsOnlyBase(rows: seq<Row>, chain: seq<string>)
    requires DistinctRevisions(rows) && |chain| > 0 && Elements(chain) == Revisions(rows)
    requires forall x :: x in chain ==> x in RevisionGraph(rows)
    requires forall i :: 0 <= i < |chain| - 1 ==> RevisionGraph(rows)[chain[i]] == [chain[i + 1]]
    requires RevisionGraph(rows)[chain[|chain| - 1]] == []
    ensures BaseList(rows) == [chain[|chain| - 1]]
  {
    var last := chain[|chain| - 1];
    BaseListMembers(rows);
    BaseListDistinct(rows);
    var bases := BaseList(rows);
    forall j | 0 <= j < |chain| - 1 ensures RevisionGraph(rows)[chain[j]] != [] {
      assert |RevisionGraph(rows)[chain[j]]| == |[chain[j + 1]]|;
    }
    forall k | 0 <= k < |bases| ensures bases[k] == last {
      assert bases[k] in bases;
      var row :| row in rows && row.revision == bases[k] && row.parents == [];
      var i :| 0 <= i < |rows| && rows[i] == row;
      GraphEntry(rows, {}, i);
      assert row.revision in Revisions(rows);
      assert row.revision in Elements(chain);
      var j :| 0 <= j < |chain| && chain[j] == row.revision;
      assert RevisionGraph(rows)[chain[j]] == [];
    }
    assert |bases| <= 1 by {
      forall x | x in bases ensures x in {last} {
        var k :| 0 <= k < |bases| && bases[k] == x;
      }
      DistinctFits(bases, {last});
    }
    assert last in Elements(chain);
    var i :| 0 <= i < |rows| && rows[i].revision == last;
    GraphEntry(rows, {}, i);
    assert rows[i] in rows && last in bases;
  }

  /** So on single-parent histories the base count that only migration_verify checks is implied. */
  lemma SingleParentVerdictsAgree(rows: seq<Row>)
    requires SingleParents(rows)
    ensures Clean(rows) <==> StrictClean(rows)
  {
    CleanIsStrictCleanWithOneBase(rows);
    if StrictClean(rows) {
      var _ := LinearHistory(rows);
    }
  }
}
