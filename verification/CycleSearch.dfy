/** The depth-first search of the two migration-graph verifiers, with its shared `visiting` and `visited` sets. */
module CycleSearch {
  import opened Ordering
  import opened Digraph

  /** Only nodes on cycles are reported, every cycle passes through one of them, and there are none exactly when there
      is no cycle. */
  ghost predicate RightlyReported(graph: Graph, reported: seq<string>) {
    && (forall r :: r in reported ==> r in graph && OnCycle(graph, r))
    && MeetsEveryCycle(graph, Elements(reported))
    && (reported == [] <==> Acyclic(graph))
  }

  class Search {
    const graph: Graph
    var visiting: set<string>
    var visited: set<string>
    /** One entry for each "cycle" finding, in the order the findings are appended. */
    var reported: seq<string>
    /** The nodes in the order they entered `visited`. */
    ghost var order: seq<string>

    constructor (graph: Graph)
      ensures this.graph == graph && Valid()
      ensures visiting == {} && visited == {} && reported == []
    {
      this.graph := graph;
      visiting, visited, reported, order := {}, {}, [], [];
    }

    ghost predicate Valid()
      reads this
    {
      && visiting !! visited
      && visiting <= graph.Keys
      && visited <= graph.Keys
      && Elements(order) == visited
      && Distinct(order)
      && (forall r :: r in reported ==> OnCycle(graph, r))
      && Topological(graph, order, Elements(reported))
    }

    /** `stack` lists the nodes of `visiting` in calling order, so that `stack + [node]` is a walk. */
    ghost predicate Stacked(stack: seq<string>, node: string)
      reads this
    {
      && Distinct(stack)
      && Elements(stack) == visiting
      && Walk(graph, stack + [node])
    }

    method Visit(node: string, ghost stack: seq<string>)
      requires Valid() && Stacked(stack, node)
      modifies this
      ensures Valid()
      ensures visiting == old(visiting) && old(visited) <= visited
      ensures old(reported) <= reported
      ensures node in old(visiting) ==> visited == old(visited) && reported == old(reported) + [node]
      ensures node in old(visited) ==> visited == old(visited) && reported == old(reported)
      ensures node !in old(visiting) ==> node in visited
      decreases graph.Keys - visiting - visited
    {
      WalkNodes(graph, stack + [node]);
      assert node in graph by { assert node in stack + [node]; }
      if node in visiting {
        StackClosesCycle(stack, node);
        TopologicalWeakens(graph, order, Elements(reported), Elements(reported + [node]));
        reported := reported + [node];
        return;
      }
      if node in visited {
        return;
      }
      visiting := visiting + {node};
      ghost var path := stack + [node];
      assert Elements(path) == visiting;
      var i := 0;
      while i < |graph[node]|
        invariant 0 <= i <= |graph[node]|
        invariant Valid() && Distinct(path) && Elements(path) == visiting && Walk(graph, path)
        invariant visiting == old(visiting) + {node}
        invariant old(visited) <= visited && old(reported) <= reported
        invariant forall k :: 0 <= k < i && graph[node][k] in graph ==>
          graph[node][k] in visited || graph[node][k] in reported
      {
        var parent := graph[node][i];
        if parent in graph {
          WalkExtends(graph, path, parent);
          assert node in old(graph.Keys - visiting - visited) && node in visiting;
          Visit(parent, path);
        }
        i := i + 1;
      }
      TopologicalExtends(graph, order, Elements(reported), node);
      visiting := visiting - {node};
      visited := visited + {node};
      order := order + [node];
    }

    lemma StackClosesCycle(stack: seq<string>, node: string)
      requires Stacked(stack, node) && node in visiting
      ensures OnCycle(graph, node)
    {
      var k :| 0 <= k < |stack| && stack[k] == node;
      var p := stack + [node];
      WalkSuffix(graph, p, k);
      assert p[k] == node;
      assert ClosedWalk(graph, p[k..], node);
    }

    /** The driver loop: every node is visited, in sorted order. */
    method VisitAll()
      requires Valid() && visiting == {} && visited == {} && reported == []
      modifies this
      ensures Valid() && visiting == {} && visited == graph.Keys
      ensures RightlyReported(graph, reported)
      ensures Topological(graph, order, Elements(reported)) && Elements(order) == graph.Keys
    {
      var nodes := SortSet(graph.Keys);
      for i := 0 to |nodes|
        invariant Valid() && visiting == {}
        invariant forall k :: 0 <= k < i ==> nodes[k] in visited
      {
        assert Walk(graph, [] + [nodes[i]]);
        Visit(nodes[i], []);
      }
      OrderDecides(graph, order, reported);
    }
  }

  lemma NoneReportedIffAcyclic(graph: Graph, reported: seq<string>)
    requires MeetsEveryCycle(graph, Elements(reported))
    requires forall r :: r in reported ==> r in graph && OnCycle(graph, r)
    ensures reported == [] <==> Acyclic(graph)
  {
    if reported == [] {
      assert Elements(reported) == {};
      NothingMeetsNoCycle(graph);
    } else {
      assert reported[0] in reported;
    }
  }

  /** What the finishing order of all nodes says about the reported ones. */
  lemma OrderDecides(graph: Graph, order: seq<string>, reported: seq<string>)
    requires Topological(graph, order, Elements(reported)) && Elements(order) == graph.Keys
    requires forall r :: r in reported ==> OnCycle(graph, r)
    ensures RightlyReported(graph, reported)
  {
    forall r | r in reported ensures r in graph {
      NodeOnCycle(graph, r);
    }
    assert forall x :: x in graph ==> x in Elements(order);
    TopologicalMeetsCycles(graph, order, Elements(reported));
    NoneReportedIffAcyclic(graph, reported);
  }

  lemma NodeOnCycle(graph: Graph, r: string)
    requires OnCycle(graph, r)
    ensures r in graph
  {
    var p :| ClosedWalk(graph, p, r);
    assert Edge(graph, p[0], p[1]);
  }

  /** A whole run on a fresh object. */
  method CycleNodes(graph: Graph) returns (reported: seq<string>)
    ensures RightlyReported(graph, reported)
  {
    var search := new Search(graph);
    search.VisitAll();
    reported := search.reported;
  }
}
