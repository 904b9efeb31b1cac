/** The depth-first search that keeps its path as a list and records each cycle it closes:
    module imports, roadmap proposals, and investment dependencies. */
module CyclePaths {
  import opened Ordering
  import opened Digraph

  lemma TakeNext<T>(s: seq<T>, i: nat)
    requires i < |s|
    ensures forall x :: x in s[..i + 1] <==> x in s[..i] || x == s[i]
  {
    assert s[..i + 1] == s[..i] + [s[i]];
  }

  /** The path under exploration: distinct unfinished nodes joined by edges. */
  ghost predicate OpenPath(g: Graph, path: seq<string>, visited: set<string>) {
    && Distinct(path)
    && (forall x :: x in path ==> x in g && x !in visited)
    && (path != [] ==> Walk(g, path))
  }

  /** Where the recorded cycles start. */
  function Starts(cycles: set<seq<string>>): set<string> {
    set c | c in cycles && c != [] :: c[0]
  }

  /** What is finished: recorded cycles are genuine, and edges into their starting points aside the finishing order is
      topological. */
  ghost predicate Finished(g: Graph, visited: set<string>, order: seq<string>, cycles: set<seq<string>>) {
    && visited <= g.Keys
    && Elements(order) == visited
    && Distinct(order)
    && (forall c :: c in cycles ==> SimpleCycle(g, c))
    && Topological(g, order, Starts(cycles))
  }

  lemma PushKeepsOpen(g: Graph, path: seq<string>, visited: set<string>, node: string)
    requires OpenPath(g, path, visited) && Walk(g, path + [node])
    requires node !in path && node !in visited
    ensures OpenPath(g, path + [node], visited)
  {
    WalkNodes(g, path + [node]);
  }

  lemma PopKeepsOpen(g: Graph, path: seq<string>, visited: set<string>, node: string)
    requires OpenPath(g, path + [node], visited)
    ensures OpenPath(g, path, visited + {node})
  {
    var longer := path + [node];
    assert longer[|path|] == node;
    forall i | 0 <= i < |path| ensures path[i] in g && path[i] !in visited + {node} {
      assert longer[i] == path[i] && longer[i] in longer;
    }
    forall i, j | 0 <= i < j < |path| ensures path[i] != path[j] {
      assert longer[i] == path[i] && longer[j] == path[j];
    }
    forall i | 0 <= i < |path| - 1 ensures Edge(g, path[i], path[i + 1]) {
      assert longer[i] == path[i] && longer[i + 1] == path[i + 1];
    }
  }

  lemma FinishNode(g: Graph, visited: set<string>, order: seq<string>, cycles: set<seq<string>>, node: string)
    requires Finished(g, visited, order, cycles)
    requires node in g && node !in visited
    requires forall x :: Edge(g, node, x) ==> x in visited || x in Starts(cycles)
    ensures Finished(g, visited + {node}, order + [node], cycles)
  {
    assert node !in order;
    TopologicalExtends(g, order, Starts(cycles), node);
  }

  lemma RevisitClosesCycle(g: Graph, path: seq<string>, visited: set<string>, node: string)
    requires OpenPath(g, path, visited) && Walk(g, path + [node]) && node in path
    ensures SimpleCycle(g, path[IndexOf(path, node)..] + [node])
  {
    var p := path + [node];
    assert Edge(g, p[|path| - 1], p[|path|]);
    BackEdgeClosesCycle(g, path, IndexOf(path, node));
  }

  lemma StartsGrow(cycles: set<seq<string>>, cycle: seq<string>)
    requires cycle != []
    ensures Starts(cycles + {cycle}) == Starts(cycles) + {cycle[0]}
  {
    assert cycle in cycles + {cycle};
    forall c | c in cycles ensures c in cycles + {cycle} { }
  }

  class PathSearch {
    const graph: Graph
    var visiting: seq<string>
    var visited: set<string>
    /** Each recorded cycle as the list of names the report joins with arrows. */
    var cycles: set<seq<string>>
    /** The nodes in the order they entered `visited`. */
    ghost var order: seq<string>

    constructor (graph: Graph)
      ensures this.graph == graph && Valid()
      ensures visiting == [] && visited == {} && cycles == {} && order == []
    {
      this.graph := graph;
      visiting, visited, cycles, order := [], {}, {}, [];
    }

    ghost predicate Valid()
      reads this
    {
      OpenPath(graph, visiting, visited) && Finished(graph, visited, order, cycles)
    }

    method Visit(node: string)
      requires Valid() && Walk(graph, visiting + [node])
      modifies this
      ensures Valid()
      ensures visiting == old(visiting) && old(visited) <= visited && old(cycles) <= cycles
      ensures node in old(visiting) ==>
        && visited == old(visited)
        && cycles == old(cycles) + {old(visiting)[IndexOf(old(visiting), node)..] + [node]}
      ensures node in old(visited) ==> visited == old(visited) && cycles == old(cycles)
      ensures node in visited || node in Starts(cycles)
      ensures node !in old(visiting) ==> node in visited
      decreases graph.Keys - Elements(visiting) - visited, 1
    {
      if node in visiting {
        RevisitClosesCycle(graph, visiting, visited, node);
        RecordCycle(node);
        return;
      }
      if node in visited {
        return;
      }
      Expand(node);
    }

    /** `cycles.add(...)`: the path from the first occurrence of the node, and the node again. */
    method RecordCycle(node: string)
      requires Valid() && node in visiting && SimpleCycle(graph, visiting[IndexOf(visiting, node)..] + [node])
      modifies this`cycles
      ensures Valid() && node in Starts(cycles)
      ensures cycles == old(cycles) + {visiting[IndexOf(visiting, node)..] + [node]}
    {
      var cycle := visiting[IndexOf(visiting, node)..] + [node];
      assert cycle[0] == node;
      StartsGrow(cycles, cycle);
      TopologicalWeakens(graph, order, Starts(cycles), Starts(cycles + {cycle}));
      cycles := cycles + {cycle};
    }

    /** The part of `visit` that runs on a node met for the first time. */
    method Expand(node: string)
      requires Valid() && Walk(graph, visiting + [node])
      requires node !in visiting && node !in visited
      modifies this
      ensures Valid()
      ensures visiting == old(visiting) && old(visited) <= visited && old(cycles) <= cycles
      ensures node in visited
      decreases graph.Keys - Elements(visiting) - visited, 0
    {
      PushKeepsOpen(graph, visiting, visited, node);
      ghost var unseen := graph.Keys - Elements(visiting) - visited;
      ghost var before := visiting;
      visiting := visiting + [node];
      assert node in unseen && Elements(visiting) == Elements(before) + {node};
      var successors := Sort(StrLe, graph[node]);
      SortHasSameElements(StrLe, graph[node]);
      VisitSuccessors(node, successors);
      Pop(node, before);
    }

    /** `visiting.pop()`, and the node is finished. */
    method Pop(node: string, ghost before: seq<string>)
      requires Valid() && visiting == before + [node] && node in graph && node !in visited
      requires forall x :: Edge(graph, node, x) ==> x in visited || x in Starts(cycles)
      modifies this
      ensures Valid()
      ensures visiting == before && visited == old(visited) + {node} && cycles == old(cycles)
    {
      PopKeepsOpen(graph, before, visited, node);
      FinishNode(graph, visited, order, cycles, node);
      visiting := visiting[..|visiting| - 1];
      assert visiting == before;
      visited := visited + {node};
      assert OpenPath(graph, visiting, visited);
      order := order + [node];
      assert Finished(graph, visited, order, cycles);
    }

    /** The loop of `visit` over the successors of the node it has just pushed. */
    method VisitSuccessors(node: string, successors: seq<string>)
      requires Valid() && visiting != [] && visiting[|visiting| - 1] == node && node in graph
      requires forall x :: x in successors ==> x in graph[node]
      modifies this
      ensures Valid()
      ensures visiting == old(visiting) && old(visited) <= visited && old(cycles) <= cycles
      ensures forall x :: x in successors && x in graph ==> x in visited || x in Starts(cycles)
      decreases graph.Keys - Elements(visiting) - visited, 2
    {
      var i := 0;
      while i < |successors|
        invariant 0 <= i <= |successors|
        invariant Valid() && visiting == old(visiting)
        invariant old(visited) <= visited && old(cycles) <= cycles
        invariant forall x :: x in successors[..i] && x in graph ==> x in visited || x in Starts(cycles)
      {
        var dependency := successors[i];
        if dependency in graph {
          WalkExtends(graph, visiting, dependency);
          Visit(dependency);
        }
        TakeNext(successors, i);
        i := i + 1;
      }
    }

    method VisitAll()
      requires Valid() && visiting == [] && visited == {} && cycles == {}
      modifies this
      ensures Valid() && visiting == [] && visited == graph.Keys
      ensures MeetsEveryCycle(graph, Starts(cycles))
      ensures cycles == {} <==> Acyclic(graph)
      ensures Topological(graph, order, Starts(cycles)) && Elements(order) == graph.Keys
    {
      var nodes := SortSet(graph.Keys);
      for i := 0 to |nodes|
        invariant Valid() && visiting == []
        invariant forall k :: 0 <= k < i ==> nodes[k] in visited
      {
        Visit(nodes[i]);
      }
      TopologicalMeetsCycles(graph, order, Starts(cycles));
      if cycles == {} {
        assert Starts(cycles) == {};
        NothingMeetsNoCycle(graph);
      } else {
        var c :| c in cycles;
        WalkNodes(graph, c);
        assert c[0] in c && ClosedWalk(graph, c, c[0]);
      }
    }
  }

  /** A whole run: every recorded path is a genuine simple cycle, every cycle of the graph passes through the start of a
      recorded one, none is recorded exactly when the graph is acyclic, and the order of finishing is a dependency order
      of all nodes but for the edges into those starts. */
  method CyclesOf(graph: Graph) returns (cycles: set<seq<string>>, ghost order: seq<string>)
    ensures forall c :: c in cycles ==> SimpleCycle(graph, c)
    ensures MeetsEveryCycle(graph, Starts(cycles))
    ensures cycles == {} <==> Acyclic(graph)
    ensures Topological(graph, order, Starts(cycles)) && Elements(order) == graph.Keys
  {
    var search := new PathSearch(graph);
    search.VisitAll();
    cycles, order := search.cycles, search.order;
  }
}
