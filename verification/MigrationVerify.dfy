/** `verify` of tools/migration_verify.py, from parsed files to the report. */
module MigrationVerify {
  import opened Ordering
  import opened Digraph
  import opened MigrationGraph
  import opened RevisionFiles
  import CycleSearch

  datatype Finding =
    | DuplicateRevision(revision: string)
    | DanglingParent(revision: string, parent: string)
    | BaseCount(count: nat)
    | HeadCount(count: nat)
    | CycleAt(revision: string)

  datatype Report = Report(bases: seq<string>, heads: seq<string>, findings: seq<Finding>)

  /** What each finding claims about the rows. */
  ghost predicate IsDefect(rows: seq<Row>, f: Finding) {
    match f
    case DuplicateRevision(r) => Occurrences(rows, r) > 1
    case DanglingParent(r, p) => exists row: Row :: row.revision == r && IsDangling(rows, row, p)
    case BaseCount(n) => n == |BaseList(rows)| && n != 1
    case HeadCount(n) => n == |Heads(rows)| && n != 1
    case CycleAt(r) => OnCycle(ParentMap(rows, Revisions(rows)), r)
  }

  method DuplicateFindings(rows: seq<Row>) returns (findings: seq<Finding>)
    ensures forall f :: f in findings <==> f.DuplicateRevision? && IsDefect(rows, f)
  {
    findings := [];
    var revisions := SortSet(Revisions(rows));
    for i := 0 to |revisions|
      invariant forall f :: f in findings <==>
        f.DuplicateRevision? && f.revision in revisions[..i] && Occurrences(rows, f.revision) > 1
    {
      if Occurrences(rows, revisions[i]) > 1 {
        findings := findings + [DuplicateRevision(revisions[i])];
      }
      assert revisions[..i + 1] == revisions[..i] + [revisions[i]];
    }
    assert revisions[..|revisions|] == revisions;
    forall r | Occurrences(rows, r) > 1 ensures r in revisions {
      OccurrencesCounts(rows, r);
      var i :| 0 <= i < |rows| && rows[i].revision == r;
      assert rows[i] in rows;
    }
  }

  method DanglingFindings(rows: seq<Row>) returns (findings: seq<Finding>)
    ensures forall f :: f in findings <==> f.DanglingParent? && IsDefect(rows, f)
  {
    findings := [];
    var revisions := Revisions(rows);
    for i := 0 to |rows|
      invariant forall f :: f in findings <==>
        && f.DanglingParent?
        && exists k :: 0 <= k < i && rows[k].revision == f.revision && IsDangling(rows, rows[k], f.parent)
    {
      var row := rows[i];
      ghost var before := findings;
      for j := 0 to |row.parents|
        invariant forall f :: f in findings <==>
          f in before || (f.DanglingParent? && f.revision == row.revision
                          && f.parent in row.parents[..j] && f.parent !in revisions)
      {
        if row.parents[j] !in revisions {
          findings := findings + [DanglingParent(row.revision, row.parents[j])];
        }
        assert row.parents[..j + 1] == row.parents[..j] + [row.parents[j]];
      }
      assert row.parents[..|row.parents|] == row.parents;
      assert row in rows;
    }
    forall row, parent | IsDangling(rows, row, parent)
      ensures exists k :: 0 <= k < |rows| && rows[k].revision == row.revision && IsDangling(rows, rows[k], parent)
    {
      var k :| 0 <= k < |rows| && rows[k] == row;
    }
  }

  /** One row's pass over its parents: a known parent gains the row's revision once for each listing. */
  method AppendChildren(children: map<string, seq<string>>, row: Row) returns (updated: map<string, seq<string>>)
    ensures updated.Keys == children.Keys
    ensures forall r :: r in children ==>
      updated[r] == children[r] + Repeat(row.revision, Listings(row.parents, r))
  {
    updated := children;
    for j := 0 to |row.parents|
      invariant updated.Keys == children.Keys
      invariant forall r :: r in children ==>
        updated[r] == children[r] + Repeat(row.revision, Listings(row.parents[..j], r))
    {
      var parent := row.parents[j];
      assert row.parents[..j + 1][..j] == row.parents[..j];
      if parent in updated {
        updated := updated[parent := updated[parent] + [row.revision]];
      }
    }
    assert row.parents[..|row.parents|] == row.parents;
  }

  /** The `children` dictionary: every known revision, with one entry for each listing of it as a parent. */
  method ChildrenMap(rows: seq<Row>) returns (children: map<string, seq<string>>)
    ensures children.Keys == Revisions(rows)
    ensures forall r :: r in children ==> children[r] == ChildrenOf(rows, r)
  {
    var revisions := Revisions(rows);
    children := map r | r in revisions :: [];
    for i := 0 to |rows|
      invariant children.Keys == revisions
      invariant forall r :: r in children ==> children[r] == ChildrenOf(rows[..i], r)
    {
      children := AppendChildren(children, rows[i]);
      assert rows[..i + 1][..i] == rows[..i];
    }
    assert rows[..|rows|] == rows;
  }

  method ParentMapOf(rows: seq<Row>) returns (parentMap: Graph)
    ensures parentMap == ParentMap(rows, Revisions(rows))
  {
    var revisions := Revisions(rows);
    parentMap := map[];
    for i := 0 to |rows|
      invariant parentMap == ParentMap(rows[..i], revisions)
    {
      assert rows[..i + 1][..i] == rows[..i];
      parentMap := parentMap[rows[i].revision := Restrict(rows[i].parents, revisions)];
    }
    assert rows[..|rows|] == rows;
  }

  method BaseRevisions(rows: seq<Row>) returns (bases: seq<string>)
    ensures bases == Sort(StrLe, BaseList(rows))
  {
    bases := [];
    for i := 0 to |rows|
      invariant bases == BaseList(rows[..i])
    {
      assert rows[..i + 1][..i] == rows[..i];
      if rows[i].parents == [] {
        bases := bases + [rows[i].revision];
      }
    }
    assert rows[..|rows|] == rows;
    bases := Sort(StrLe, bases);
  }

  method HeadRevisions(rows: seq<Row>, children: map<string, seq<string>>) returns (heads: seq<string>)
    requires children.Keys == Revisions(rows)
    requires forall r :: r in children ==> children[r] == ChildrenOf(rows, r)
    ensures heads == SortSet(Heads(rows))
  {
    var childless := set r | r in children && children[r] == [];
    forall r ensures r in childless <==> r in Heads(rows) {
      ChildrenExist(rows, r);
    }
    assert childless == Heads(rows);
    heads := SortSet(childless);
  }

  method CountFindings(rows: seq<Row>, bases: nat, heads: nat) returns (findings: seq<Finding>)
    requires bases == |BaseList(rows)| && heads == |Heads(rows)|
    ensures forall f :: f in findings <==> (f.BaseCount? || f.HeadCount?) && IsDefect(rows, f)
  {
    findings := [];
    if bases != 1 {
      findings := findings + [BaseCount(bases)];
    }
    if heads != 1 {
      findings := findings + [HeadCount(heads)];
    }
  }

  /** The revisions that cycle findings name. */
  function CycleRevisions(findings: seq<Finding>): set<string> {
    set f | f in findings && f.CycleAt? :: f.revision
  }

  method CycleFindings(rows: seq<Row>) returns (findings: seq<Finding>)
    ensures forall f :: f in findings ==> f.CycleAt? && IsDefect(rows, f)
    ensures MeetsEveryCycle(ParentMap(rows, Revisions(rows)), CycleRevisions(findings))
    ensures findings == [] <==> Acyclic(ParentMap(rows, Revisions(rows)))
  {
    var parentMap := ParentMapOf(rows);
    var cyclic := CycleSearch.CycleNodes(parentMap);
    findings := CyclesAt(cyclic);
  }

  function CyclesAt(cyclic: seq<string>): (findings: seq<Finding>)
    ensures findings == [] <==> cyclic == []
    ensures forall f :: f in findings ==> f.CycleAt? && f.revision in cyclic
    ensures CycleRevisions(findings) == Elements(cyclic)
  {
    if cyclic == [] then []
    else
      assert cyclic == [cyclic[0]] + cyclic[1..];
      CycleRevisionsAppend([CycleAt(cyclic[0])], CyclesAt(cyclic[1..]));
      [CycleAt(cyclic[0])] + CyclesAt(cyclic[1..])
  }

  lemma CycleRevisionsAppend(a: seq<Finding>, b: seq<Finding>)
    ensures CycleRevisions(a + b) == CycleRevisions(a) + CycleRevisions(b)
  {
  }

  method ReadRows(sources: seq<Source>) returns (rows: seq<Row>)
    ensures rows == RowsByText(sources)
  {
    rows := [];
    for i := 0 to |sources|
      invariant rows == RowsByText(sources)[..i]
    {
      rows := rows + [Row(sources[i].revision, Normalize(sources[i].down))];
    }
  }

  /** The whole graph check: exact bases and heads; every finding is a defect; every defect is reported, each cycle by
      one of its nodes; and a report without findings means exactly a clean history. */
  method Verify(sources: seq<Source>) returns (report: Report)
    ensures var rows := RowsByText(sources);
      && report.bases == Sort(StrLe, BaseList(rows))
      && report.heads == SortSet(Heads(rows))
      && (forall f :: f in report.findings ==> IsDefect(rows, f))
      && (forall f :: IsDefect(rows, f) && !f.CycleAt? ==> f in report.findings)
      && ((exists f :: f in report.findings && f.CycleAt?) <==> !Acyclic(ParentMap(rows, Revisions(rows))))
      && MeetsEveryCycle(ParentMap(rows, Revisions(rows)), CycleRevisions(report.findings))
      && (report.findings == [] <==> Clean(rows))
    ensures forall r :: r in report.heads <==> HeadOfFiles(sources, r)
    ensures forall r :: r in report.bases <==> BaseOfFiles(sources, r)
    ensures forall r, p :: DanglingParent(r, p) in report.findings <==> DanglingInFiles(sources, r, p)
  {
    var rows := ReadRows(sources);
    var duplicates := DuplicateFindings(rows);
    var dangling := DanglingFindings(rows);
    var children := ChildrenMap(rows);
    var bases := BaseRevisions(rows);
    var heads := HeadRevisions(rows, children);
    SortHasSameElements(StrLe, BaseList(rows));
    var counts := CountFindings(rows, |bases|, |heads|);
    var cycles := CycleFindings(rows);
    report := Report(bases, heads, duplicates + dangling + counts + cycles);
    CombinedFindings(rows, duplicates, dangling, counts, cycles);
    ReportOfFiles(sources, report);
  }

  /** The report in terms of the files' literals. */
  lemma ReportOfFiles(sources: seq<Source>, report: Report)
    requires report.heads == SortSet(Heads(RowsByText(sources)))
    requires report.bases == Sort(StrLe, BaseList(RowsByText(sources)))
    requires forall f :: f in report.findings ==> IsDefect(RowsByText(sources), f)
    requires forall f :: IsDefect(RowsByText(sources), f) && !f.CycleAt? ==> f in report.findings
    ensures forall r :: r in report.heads <==> HeadOfFiles(sources, r)
    ensures forall r :: r in report.bases <==> BaseOfFiles(sources, r)
    ensures forall r, p :: DanglingParent(r, p) in report.findings <==> DanglingInFiles(sources, r, p)
  {
    forall r ensures r in report.heads <==> HeadOfFiles(sources, r) {
      HeadsOfFiles(sources, r);
    }
    SortHasSameElements(StrLe, BaseList(RowsByText(sources)));
    forall r ensures r in report.bases <==> BaseOfFiles(sources, r) {
      BasesOfFiles(sources, r);
    }
    forall r, p ensures DanglingParent(r, p) in report.findings <==> DanglingInFiles(sources, r, p) {
      DanglingOfFiles(sources, r, p);
      assert IsDefect(RowsByText(sources), DanglingParent(r, p)) <==> DanglingInFiles(sources, r, p);
    }
  }

  lemma CombinedFindings(rows: seq<Row>, duplicates: seq<Finding>, dangling: seq<Finding>, counts: seq<Finding>,
                         cycles: seq<Finding>)
    requires forall f :: f in duplicates <==> f.DuplicateRevision? && IsDefect(rows, f)
    requires forall f :: f in dangling <==> f.DanglingParent? && IsDefect(rows, f)
    requires forall f :: f in counts <==> (f.BaseCount? || f.HeadCount?) && IsDefect(rows, f)
    requires forall f :: f in cycles ==> f.CycleAt? && IsDefect(rows, f)
    requires cycles == [] <==> Acyclic(ParentMap(rows, Revisions(rows)))
    ensures var findings := duplicates + dangling + counts + cycles;
      && (forall f :: f in findings ==> IsDefect(rows, f))
      && (forall f :: IsDefect(rows, f) && !f.CycleAt? ==> f in findings)
      && ((exists f :: f in findings && f.CycleAt?) <==> !Acyclic(ParentMap(rows, Revisions(rows))))
      && CycleRevisions(findings) == CycleRevisions(cycles)
      && (findings == [] <==> Clean(rows))
  {
    var findings := duplicates + dangling + counts + cycles;
    if cycles != [] {
      assert cycles[0] in findings;
    }
    forall f | f in findings && f.CycleAt? ensures f in cycles { }
    NoFindingMeansClean(rows, findings);
  }

  lemma NoFindingMeansClean(rows: seq<Row>, findings: seq<Finding>)
    requires forall f :: f in findings ==> IsDefect(rows, f)
    requires forall f :: IsDefect(rows, f) && !f.CycleAt? ==> f in findings
    requires (exists f :: f in findings && f.CycleAt?) <==> !Acyclic(ParentMap(rows, Revisions(rows)))
    ensures findings == [] <==> Clean(rows)
  {
    if findings == [] {
      forall r ensures Occurrences(rows, r) <= 1 {
        assert !IsDefect(rows, DuplicateRevision(r));
      }
      FewOccurrencesMeanDistinct(rows);
      forall row, p ensures !IsDangling(rows, row, p) {
        assert !IsDefect(rows, DanglingParent(row.revision, p));
      }
      assert !IsDefect(rows, BaseCount(|BaseList(rows)|));
      assert !IsDefect(rows, HeadCount(|Heads(rows)|));
    } else if Clean(rows) {
      var f := findings[0];
      assert f in findings && IsDefect(rows, f);
      assert !f.CycleAt?;
      if f.DuplicateRevision? {
        OccurrencesCounts(rows, f.revision);
      }
      assert false;
    }
  }
}
