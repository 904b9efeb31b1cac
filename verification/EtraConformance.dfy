/** `_migration_graph` of tools/etra_conformance.py, from parsed files to heads and issues. */
module EtraConformance {
  import opened Ordering
  import opened Values
  import opened Digraph
  import opened MigrationGraph
  import opened RevisionFiles
  import CycleSearch

  datatype Issue =
    | DuplicateIssue(revision: string)
    | InvalidIssue(path: string)
    | DanglingIssue(parent: string)
    | HeadCountIssue(count: nat)
    | CycleIssue(revision: string)

  /** What each issue claims about the files. */
  ghost predicate IsDefect(sources: seq<Source>, issue: Issue) {
    var rows := RowsByName(sources);
    match issue
    case DuplicateIssue(r) => Occurrences(rows, r) > 1
    case InvalidIssue(path) => InvalidAmong(sources, path)
    case DanglingIssue(p) => p in Referenced(rows) - Revisions(rows)
    case HeadCountIssue(n) => n == |StrictHeads(rows)| && n != 1
    case CycleIssue(r) => OnCycle(RevisionGraph(rows), r)
  }

  ghost predicate InvalidAmong(sources: seq<Source>, path: string) {
    exists source :: source in sources && source.path == path && StrictParents(source.down) == None
  }

  /** The loop over the files. */
  method BuildGraph(sources: seq<Source>) returns (graph: Graph, duplicates: seq<Issue>, invalid: seq<Issue>)
    ensures graph == RevisionGraph(RowsByName(sources))
    ensures forall issue :: issue in duplicates <==> issue.DuplicateIssue? && IsDefect(sources, issue)
    ensures forall issue :: issue in invalid <==> issue.InvalidIssue? && IsDefect(sources, issue)
  {
    graph, duplicates, invalid := map[], [], [];
    ghost var rows := RowsByName(sources);
    for i := 0 to |sources|
      invariant graph == RevisionGraph(rows[..i])
      invariant forall issue ::
        issue in duplicates <==> issue.DuplicateIssue? && Occurrences(rows[..i], issue.revision) > 1
      invariant forall issue :: issue in invalid <==> issue.InvalidIssue? && InvalidAmong(sources[..i], issue.path)
    {
      var source := sources[i];
      DuplicateStep(rows, i);
      InvalidStep(sources, i);
      if source.revision in graph {
        duplicates := duplicates + [DuplicateIssue(source.revision)];
      }
      if StrictParents(source.down) == None {
        invalid := invalid + [InvalidIssue(source.path)];
      }
      graph := graph[source.revision := NamedParents(source.down)];
    }
    assert rows[..|rows|] == rows && sources[..|sources|] == sources;
  }

  lemma DuplicateStep(rows: seq<Row>, i: nat)
    requires i < |rows|
    ensures RevisionGraph(rows[..i + 1]) == RevisionGraph(rows[..i])[rows[i].revision := rows[i].parents]
    ensures forall r :: Occurrences(rows[..i + 1], r) > 1 <==>
      Occurrences(rows[..i], r) > 1 || (r == rows[i].revision && r in RevisionGraph(rows[..i]))
  {
    assert rows[..i + 1][..i] == rows[..i];
    SeenBefore(rows[..i], rows[i].revision);
  }

  lemma InvalidStep(sources: seq<Source>, i: nat)
    requires i < |sources|
    ensures forall path :: InvalidAmong(sources[..i + 1], path) <==>
      InvalidAmong(sources[..i], path) || (sources[i].path == path && StrictParents(sources[i].down) == None)
  {
    assert sources[..i + 1] == sources[..i] + [sources[i]];
  }

  lemma SeenBefore(rows: seq<Row>, revision: string)
    ensures revision in RevisionGraph(rows) <==> Occurrences(rows, revision) > 0
  {
    GraphKeys(rows, {});
    OccurrencesCounts(rows, revision);
    if revision in Revisions(rows) {
      var i :| 0 <= i < |rows| && rows[i].revision == revision;
    } else {
      forall i | 0 <= i < |rows| ensures rows[i].revision != revision {
        assert rows[i] in rows;
      }
    }
  }

  method DanglingIssues(parents: set<string>) returns (issues: seq<Issue>)
    ensures forall issue :: issue in issues <==> issue.DanglingIssue? && issue.parent in parents
  {
    issues := [];
    var unknown := SortSet(parents);
    for i := 0 to |unknown|
      invariant forall issue :: issue in issues <==> issue.DanglingIssue? && issue.parent in unknown[..i]
    {
      issues := issues + [DanglingIssue(unknown[i])];
      assert unknown[..i + 1] == unknown[..i] + [unknown[i]];
    }
    assert unknown[..|unknown|] == unknown;
  }

  /** The revisions that cycle issues name. */
  function CycleRevisions(issues: seq<Issue>): set<string> {
    set issue | issue in issues && issue.CycleIssue? :: issue.revision
  }

  method CycleIssues(graph: Graph, ghost sources: seq<Source>) returns (issues: seq<Issue>)
    requires graph == RevisionGraph(RowsByName(sources))
    ensures forall issue :: issue in issues ==> issue.CycleIssue? && IsDefect(sources, issue)
    ensures MeetsEveryCycle(graph, CycleRevisions(issues))
    ensures issues == [] <==> Acyclic(graph)
  {
    var cyclic := CycleSearch.CycleNodes(graph);
    CyclicAreDefects(sources, cyclic);
    issues := CyclesAt(cyclic);
  }

  lemma CyclicAreDefects(sources: seq<Source>, cyclic: seq<string>)
    requires CycleSearch.RightlyReported(RevisionGraph(RowsByName(sources)), cyclic)
    ensures forall issue: Issue :: issue.CycleIssue? && issue.revision in cyclic ==> IsDefect(sources, issue)
  {
  }

  function CyclesAt(cyclic: seq<string>): (issues: seq<Issue>)
    ensures issues == [] <==> cyclic == []
    ensures forall issue :: issue in issues ==> issue.CycleIssue? && issue.revision in cyclic
    ensures CycleRevisions(issues) == Elements(cyclic)
  {
    if cyclic == [] then []
    else
      assert cyclic == [cyclic[0]] + cyclic[1..];
      CycleRevisionsAppend([CycleIssue(cyclic[0])], CyclesAt(cyclic[1..]));
      [CycleIssue(cyclic[0])] + CyclesAt(cyclic[1..])
  }

  lemma CycleRevisionsAppend(a: seq<Issue>, b: seq<Issue>)
    ensures CycleRevisions(a + b) == CycleRevisions(a) + CycleRevisions(b)
  {
  }

  /** `referenced`, the dangling parents and the heads. */
  method CheckEnds(graph: Graph, ghost sources: seq<Source>)
    returns (dangling: seq<Issue>, heads: set<string>, headIssues: seq<Issue>)
    requires graph == RevisionGraph(RowsByName(sources))
    ensures heads == StrictHeads(RowsByName(sources))
    ensures forall issue :: issue in dangling <==> issue.DanglingIssue? && IsDefect(sources, issue)
    ensures forall issue :: issue in headIssues <==> issue.HeadCountIssue? && IsDefect(sources, issue)
  {
    GraphKeys(RowsByName(sources), {});
    ReferencedAgrees(sources);
    var revisions := graph.Keys;
    var referenced := ReferencedIn(graph);
    dangling := DanglingIssues(referenced - revisions);
    heads := revisions - referenced;
    headIssues := HeadIssues(heads);
    DanglingAreDefects(sources, dangling);
    HeadCountsAreDefects(sources, headIssues);
  }

  lemma DanglingAreDefects(sources: seq<Source>, dangling: seq<Issue>)
    requires var unknown := Referenced(RowsByName(sources)) - Revisions(RowsByName(sources));
      forall issue :: issue in dangling <==> issue.DanglingIssue? && issue.parent in unknown
    ensures forall issue :: issue in dangling <==> issue.DanglingIssue? && IsDefect(sources, issue)
  {
  }

  lemma HeadCountsAreDefects(sources: seq<Source>, headIssues: seq<Issue>)
    requires var n := |StrictHeads(RowsByName(sources))|;
      forall issue :: issue in headIssues <==> issue == HeadCountIssue(n) && n != 1
    ensures forall issue :: issue in headIssues <==> issue.HeadCountIssue? && IsDefect(sources, issue)
  {
  }

  function ReferencedIn(graph: Graph): set<string> {
    set r, p | r in graph && p in graph[r] :: p
  }

  function HeadIssues(heads: set<string>): (issues: seq<Issue>)
    ensures forall issue :: issue in issues <==> issue == HeadCountIssue(|heads|) && |heads| != 1
  {
    if |heads| != 1 then [HeadCountIssue(|heads|)] else []
  }

  lemma ReferencedAgrees(sources: seq<Source>)
    ensures ReferencedIn(RevisionGraph(RowsByName(sources))) == Referenced(RowsByName(sources))
  {
  }

  /** Exact heads; every issue is a defect; every defect is reported, each cycle by one of its nodes;
      and no issue means exactly that the files pass the strict reading. Issues of different kinds are kept in the order
      of the checks. */
  method MigrationGraphCheck(sources: seq<Source>) returns (heads: set<string>, issues: seq<Issue>)
    ensures heads == StrictHeads(RowsByName(sources))
    ensures forall issue :: issue in issues ==> IsDefect(sources, issue)
    ensures forall issue :: IsDefect(sources, issue) && !issue.CycleIssue? ==> issue in issues
    ensures (exists issue :: issue in issues && issue.CycleIssue?) <==> !Acyclic(RevisionGraph(RowsByName(sources)))
    ensures MeetsEveryCycle(RevisionGraph(RowsByName(sources)), CycleRevisions(issues))
    ensures issues == [] <==> StrictAccepts(sources)
    ensures forall r :: r in heads <==> HasRevision(sources, r) && !NamedByLast(sources, r)
    ensures forall p :: DanglingIssue(p) in issues <==> NamedByLast(sources, p) && !HasRevision(sources, p)
  {
    var graph, duplicates, invalid := BuildGraph(sources);
    var dangling, headIssues;
    dangling, heads, headIssues := CheckEnds(graph, sources);
    var cycles := CycleIssues(graph, sources);
    issues := duplicates + invalid + dangling + headIssues + cycles;
    CombinedIssues(sources, duplicates, invalid, dangling, headIssues, cycles);
    IssuesOfFiles(sources, heads, issues);
  }

  /** Heads and dangling parents in terms of the files' literals. */
  lemma IssuesOfFiles(sources: seq<Source>, heads: set<string>, issues: seq<Issue>)
    requires heads == StrictHeads(RowsByName(sources))
    requires forall issue :: issue in issues ==> IsDefect(sources, issue)
    requires forall issue :: IsDefect(sources, issue) && !issue.CycleIssue? ==> issue in issues
    ensures forall r :: r in heads <==> HasRevision(sources, r) && !NamedByLast(sources, r)
    ensures forall p :: DanglingIssue(p) in issues <==> NamedByLast(sources, p) && !HasRevision(sources, p)
  {
    forall r ensures r in heads <==> HasRevision(sources, r) && !NamedByLast(sources, r) {
      StrictHeadsOfFiles(sources, r);
    }
    forall p ensures DanglingIssue(p) in issues <==> NamedByLast(sources, p) && !HasRevision(sources, p) {
      ReferencedByFiles(sources, p);
      RevisionsOfFiles(sources, p);
      assert IsDefect(sources, DanglingIssue(p)) <==>
        p in Referenced(RowsByName(sources)) - Revisions(RowsByName(sources));
    }
  }

  lemma CombinedIssues(sources: seq<Source>, duplicates: seq<Issue>, invalid: seq<Issue>, dangling: seq<Issue>,
                       headIssues: seq<Issue>, cycles: seq<Issue>)
    requires forall issue :: issue in duplicates <==> issue.DuplicateIssue? && IsDefect(sources, issue)
    requires forall issue :: issue in invalid <==> issue.InvalidIssue? && IsDefect(sources, issue)
    requires forall issue :: issue in dangling <==> issue.DanglingIssue? && IsDefect(sources, issue)
    requires forall issue :: issue in headIssues <==> issue.HeadCountIssue? && IsDefect(sources, issue)
    requires forall issue :: issue in cycles ==> issue.CycleIssue? && IsDefect(sources, issue)
    requires cycles == [] <==> Acyclic(RevisionGraph(RowsByName(sources)))
    ensures var issues := duplicates + invalid + dangling + headIssues + cycles;
      && (forall issue :: issue in issues ==> IsDefect(sources, issue))
      && (forall issue :: IsDefect(sources, issue) && !issue.CycleIssue? ==> issue in issues)
      && ((exists issue :: issue in issues && issue.CycleIssue?) <==> !Acyclic(RevisionGraph(RowsByName(sources))))
      && CycleRevisions(issues) == CycleRevisions(cycles)
      && (issues == [] <==> StrictAccepts(sources))
  {
    var issues := duplicates + invalid + dangling + headIssues + cycles;
    if cycles != [] {
      assert cycles[0] in issues;
    }
    forall issue | issue in issues && issue.CycleIssue? ensures issue in cycles { }
    NoIssueMeansClean(sources, issues);
  }

  lemma NoDuplicateMeansDistinct(sources: seq<Source>)
    requires forall issue :: IsDefect(sources, issue) ==> issue.CycleIssue?
    ensures DistinctRevisions(RowsByName(sources))
  {
    forall r ensures Occurrences(RowsByName(sources), r) <= 1 {
      assert !IsDefect(sources, DuplicateIssue(r));
    }
    FewOccurrencesMeanDistinct(RowsByName(sources));
  }

  lemma NoDefectMeansClean(sources: seq<Source>)
    requires forall issue :: IsDefect(sources, issue) ==> issue.CycleIssue?
    requires Acyclic(RevisionGraph(RowsByName(sources)))
    ensures StrictAccepts(sources)
  {
    var rows := RowsByName(sources);
    NoDuplicateMeansDistinct(sources);
    NoInvalidMeansReadable(sources);
    forall p | p in Referenced(rows) ensures p in Revisions(rows) {
      assert !IsDefect(sources, DanglingIssue(p));
    }
    assert !IsDefect(sources, HeadCountIssue(|StrictHeads(rows)|));
  }

  lemma NoInvalidMeansReadable(sources: seq<Source>)
    requires forall issue :: IsDefect(sources, issue) ==> issue.CycleIssue?
    ensures AllReadable(sources)
  {
    forall source | source in sources ensures StrictParents(source.down).Some? {
      assert !IsDefect(sources, InvalidIssue(source.path));
    }
  }

  lemma DefectMeansNotClean(sources: seq<Source>, issue: Issue)
    requires IsDefect(sources, issue) && !issue.CycleIssue?
    ensures !StrictAccepts(sources)
  {
    if issue.DuplicateIssue? {
      OccurrencesCounts(RowsByName(sources), issue.revision);
    }
  }

  lemma NoIssueMeansClean(sources: seq<Source>, issues: seq<Issue>)
    requires forall issue :: issue in issues ==> IsDefect(sources, issue)
    requires forall issue :: IsDefect(sources, issue) && !issue.CycleIssue? ==> issue in issues
    requires (exists issue :: issue in issues && issue.CycleIssue?) <==> !Acyclic(RevisionGraph(RowsByName(sources)))
    ensures issues == [] <==> StrictAccepts(sources)
  {
    if issues == [] {
      NoDefectMeansClean(sources);
    }
    if issues != [] {
      var issue := issues[0];
      assert issue in issues;
      if !issue.CycleIssue? {
        DefectMeansNotClean(sources, issue);
      }
    }
  }
}
