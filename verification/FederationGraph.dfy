/** The ecosystem graph: local rules on its nodes and edges, and what they mean along
    walks, tools/federation_verify.py. */
module FederationGraph {
  import opened Values
  import opened Ordering

  /** A member of a node or edge: a text, or `None` where it is missing or null. */
  type Text = Option<string>

  datatype Node = Node(id: Text, evidence: Text, classification: Text, scope: Text)

  datatype Edge = Edge(
    id: Text, source: Text, target: Text, relationship: Text, evidence: Text, classification: Text, scope: Text)

  datatype Document = Document(nodes: seq<Node>, edges: seq<Edge>, relationships: seq<Text>)

  datatype Finding = DuplicateNode | BadNode(node: Text) | BadEdge(edge: Text)

  const CLASSIFICATION: map<string, int> := map["public" := 0, "internal" := 1, "confidential" := 2, "restricted" := 3]

  /** `CLASSIFICATION.get(str(name), otherwise)`; a missing name is not among the keys. */
  function RankOr(name: Text, otherwise: int): int {
    if name.Some? && name.value in CLASSIFICATION then CLASSIFICATION[name.value] else otherwise
  }

  function Max(a: int, b: int): int {
    if a < b then b else a
  }

  // ----- the dictionary of nodes: a later item replaces an earlier one, in its place

  function NodeMap(items: seq<Node>): map<Text, Node> {
    if items == [] then map[]
    else var last := items[|items| - 1]; NodeMap(items[..|items| - 1])[last.id := last]
  }

  function NodeKeys(items: seq<Node>): seq<Text> {
    if items == [] then []
    else
      var last, rest := items[|items| - 1], items[..|items| - 1];
      if last.id in NodeMap(rest) then NodeKeys(rest) else NodeKeys(rest) + [last.id]
  }

  predicate NodeRules(evidence: set<Text>, node: Node) {
    && node.evidence in evidence
    && node.classification.Some? && node.classification.value in CLASSIFICATION
    && node.scope != None && node.scope != Some("")
  }

  predicate EdgeRules(d: Document, evidence: set<Text>, nodes: map<Text, Node>, e: Edge) {
    && e.source in nodes && e.target in nodes && e.source != e.target
    && e.relationship in d.relationships
    && e.evidence in evidence
    && e.scope == nodes[e.source].scope && e.scope == nodes[e.target].scope
    && RankOr(e.classification, -1)
       >= Max(RankOr(nodes[e.source].classification, 99), RankOr(nodes[e.target].classification, 99))
  }

  predicate KnownGoodNode(evidence: set<Text>, nodes: map<Text, Node>, key: Text) {
    key in nodes && NodeRules(evidence, nodes[key])
  }

  function NodeFindings(evidence: set<Text>, nodes: map<Text, Node>, keys: seq<Text>): seq<Finding> {
    if keys == [] then []
    else
      var last := keys[|keys| - 1];
      NodeFindings(evidence, nodes, keys[..|keys| - 1])
      + if KnownGoodNode(evidence, nodes, last) then [] else [BadNode(last)]
  }

  function EdgeIds(edges: seq<Edge>): set<Text> {
    set i | 0 <= i < |edges| :: edges[i].id
  }

  function EdgeFindings(d: Document, evidence: set<Text>, nodes: map<Text, Node>, edges: seq<Edge>): seq<Finding> {
    if edges == [] then []
    else
      var last, rest := edges[|edges| - 1], edges[..|edges| - 1];
      EdgeFindings(d, evidence, nodes, rest)
      + if last.id !in EdgeIds(rest) && EdgeRules(d, evidence, nodes, last) then [] else [BadEdge(last.id)]
  }

  function Findings(d: Document, evidence: set<Text>): seq<Finding> {
    (if |NodeMap(d.nodes)| != |d.nodes| then [DuplicateNode] else [])
    + NodeFindings(evidence, NodeMap(d.nodes), NodeKeys(d.nodes))
    + EdgeFindings(d, evidence, NodeMap(d.nodes), d.edges)
  }

  method CollectNodes(items: seq<Node>) returns (nodes: map<Text, Node>, keys: seq<Text>)
    ensures nodes == NodeMap(items) && keys == NodeKeys(items)
  {
    nodes, keys := map[], [];
    for k := 0 to |items|
      invariant nodes == NodeMap(items[..k]) && keys == NodeKeys(items[..k])
    {
      var item := items[k];
      assert items[..k + 1][..k] == items[..k];
      if item.id !in nodes {
        keys := keys + [item.id];
      }
      nodes := nodes[item.id := item];
    }
    assert items[..|items|] == items;
  }

  method CheckNodes(evidence: set<Text>, nodes: map<Text, Node>, keys: seq<Text>) returns (findings: seq<Finding>)
    ensures findings == NodeFindings(evidence, nodes, keys)
  {
    findings := [];
    for k := 0 to |keys|
      invariant findings == NodeFindings(evidence, nodes, keys[..k])
    {
      assert keys[..k + 1][..k] == keys[..k];
      if !KnownGoodNode(evidence, nodes, keys[k]) {
        findings := findings + [BadNode(keys[k])];
      }
    }
    assert keys[..|keys|] == keys;
  }

  method CheckEdges(d: Document, evidence: set<Text>, nodes: map<Text, Node>) returns (findings: seq<Finding>)
    ensures findings == EdgeFindings(d, evidence, nodes, d.edges)
  {
    findings := [];
    var edgeIds: set<Text> := {};
    for k := 0 to |d.edges|
      invariant edgeIds == EdgeIds(d.edges[..k])
      invariant findings == EdgeFindings(d, evidence, nodes, d.edges[..k])
    {
      var edge := d.edges[k];
      assert d.edges[..k + 1][..k] == d.edges[..k];
      if edge.id in edgeIds || !EdgeRules(d, evidence, nodes, edge) {
        findings := findings + [BadEdge(edge.id)];
      }
      edgeIds := edgeIds + {edge.id};
      EdgeIdsStep(d.edges, k);
    }
    assert d.edges[..|d.edges|] == d.edges;
  }

  lemma EdgeIdsStep(edges: seq<Edge>, k: nat)
    requires k < |edges|
    ensures EdgeIds(edges[..k + 1]) == EdgeIds(edges[..k]) + {edges[k].id}
  {
    forall id | id in EdgeIds(edges[..k + 1]) ensures id in EdgeIds(edges[..k]) + {edges[k].id} {
      var i :| 0 <= i < k + 1 && edges[..k + 1][i].id == id;
      if i < k { assert edges[..k][i].id == id; }
    }
    forall id | id in EdgeIds(edges[..k]) + {edges[k].id} ensures id in EdgeIds(edges[..k + 1]) {
      if id == edges[k].id {
        assert edges[..k + 1][k].id == id;
      } else {
        var i :| 0 <= i < k && edges[..k][i].id == id;
        assert edges[..k + 1][i].id == id;
      }
    }
  }

  /** The three passes over the graph document. */
  method Verify(d: Document, evidence: set<Text>) returns (findings: seq<Finding>)
    ensures findings == Findings(d, evidence)
    ensures findings == [] <==> Sound(d, evidence)
  {
    var nodes, keys := CollectNodes(d.nodes);
    var bad := CheckNodes(evidence, nodes, keys);
    var edges := CheckEdges(d, evidence, nodes);
    findings := (if |nodes| != |d.nodes| then [DuplicateNode] else []) + bad + edges;
    CleanIffSound(d, evidence);
  }

  // ----- what no finding means

  /** The graph as the rules intend it. */
  predicate Sound(d: Document, evidence: set<Text>) {
    && DistinctNodes(d.nodes)
    && (forall i :: 0 <= i < |d.nodes| ==> NodeRules(evidence, d.nodes[i]))
    && SoundEdges(d, evidence, NodeMap(d.nodes), d.edges)
  }

  predicate DistinctNodes(items: seq<Node>) {
    forall i, j :: 0 <= i < j < |items| ==> items[i].id != items[j].id
  }

  /** The dictionary holds the listed nodes under their identifiers. */
  lemma {:induction false} NodeMapHolds(items: seq<Node>)
    ensures forall key :: key in NodeMap(items) ==> NodeMap(items)[key] in items && NodeMap(items)[key].id == key
    ensures forall i :: 0 <= i < |items| ==> items[i].id in NodeMap(items)
    ensures forall key :: key in NodeKeys(items) <==> key in NodeMap(items)
  {
    if items != [] {
      var n := |items| - 1;
      NodeMapHolds(items[..n]);
      assert items == items[..n] + [items[n]];
    }
  }

  lemma NodeMapStep(rest: seq<Node>, last: Node)
    ensures NodeMap(rest + [last]) == NodeMap(rest)[last.id := last]
    ensures |NodeMap(rest + [last]).Keys| == |NodeMap(rest).Keys| + if last.id in NodeMap(rest) then 0 else 1
  {
    assert (rest + [last])[..|rest|] == rest;
    assert NodeMap(rest + [last]).Keys == NodeMap(rest).Keys + {last.id};
    CountWith(NodeMap(rest).Keys, last.id);
  }

  lemma {:induction false} NodeMapCounts(items: seq<Node>)
    ensures |NodeMap(items).Keys| <= |items|
    ensures |NodeMap(items).Keys| == |items| ==> DistinctNodes(items)
  {
    if items != [] {
      var n := |items| - 1;
      var rest, last := items[..n], items[n];
      assert items == rest + [last];
      NodeMapCounts(rest);
      NodeMapStep(rest, last);
      if last.id !in NodeMap(rest) && DistinctNodes(rest) {
        DistinctNodesAppend(rest, last);
      }
    }
  }

  lemma DistinctNodesAppend(rest: seq<Node>, last: Node)
    requires DistinctNodes(rest) && last.id !in NodeMap(rest)
    ensures DistinctNodes(rest + [last])
  {
    NodeMapHolds(rest);
  }

  lemma {:induction false} DistinctNodesCount(items: seq<Node>)
    requires DistinctNodes(items)
    ensures |NodeMap(items).Keys| == |items|
    ensures forall i :: 0 <= i < |items| ==> items[i].id in NodeMap(items) && NodeMap(items)[items[i].id] == items[i]
  {
    if items != [] {
      var n := |items| - 1;
      var rest, last := items[..n], items[n];
      assert items == rest + [last];
      DistinctNodesCount(rest);
      NodeMapStep(rest, last);
      LastIsNew(rest, last);
      assert forall i :: 0 <= i < n ==> items[i] == rest[i] && items[i].id != last.id;
    }
  }

  lemma LastIsNew(rest: seq<Node>, last: Node)
    requires DistinctNodes(rest + [last])
    ensures last.id !in NodeMap(rest)
  {
    NodeMapHolds(rest);
    var all := rest + [last];
    forall x | x in rest ensures x.id != last.id {
      var i :| 0 <= i < |rest| && rest[i] == x;
      assert all[i].id != all[|rest|].id;
    }
  }

  lemma {:induction false} NoNodeFindings(evidence: set<Text>, nodes: map<Text, Node>, keys: seq<Text>)
    ensures NodeFindings(evidence, nodes, keys) == [] <==>
      forall key :: key in keys ==> KnownGoodNode(evidence, nodes, key)
  {
    if keys != [] {
      NoNodeFindings(evidence, nodes, keys[..|keys| - 1]);
      assert keys == keys[..|keys| - 1] + [keys[|keys| - 1]];
    }
  }

  predicate SoundEdges(d: Document, evidence: set<Text>, nodes: map<Text, Node>, edges: seq<Edge>) {
    && (forall i, j :: 0 <= i < j < |edges| ==> edges[i].id != edges[j].id)
    && (forall i :: 0 <= i < |edges| ==> EdgeRules(d, evidence, nodes, edges[i]))
  }

  lemma {:induction false} NoEdgeFindings(d: Document, evidence: set<Text>, nodes: map<Text, Node>, edges: seq<Edge>)
    ensures EdgeFindings(d, evidence, nodes, edges) == [] <==> SoundEdges(d, evidence, nodes, edges)
  {
    if edges != [] {
      var n := |edges| - 1;
      var rest := edges[..n];
      NoEdgeFindings(d, evidence, nodes, rest);
      assert forall i :: 0 <= i < n ==> rest[i] == edges[i];
      assert edges[n].id in EdgeIds(rest) <==> exists i :: 0 <= i < n && edges[i].id == edges[n].id;
    }
  }

  lemma GoodNodes(items: seq<Node>, evidence: set<Text>)
    requires DistinctNodes(items)
    ensures (forall key :: key in NodeKeys(items) ==> KnownGoodNode(evidence, NodeMap(items), key))
      <==> forall i :: 0 <= i < |items| ==> NodeRules(evidence, items[i])
  {
    NodeMapHolds(items);
    DistinctNodesCount(items);
    if forall key :: key in NodeKeys(items) ==> KnownGoodNode(evidence, NodeMap(items), key) {
      forall i | 0 <= i < |items| ensures NodeRules(evidence, items[i]) {
        assert items[i].id in NodeKeys(items);
      }
    }
  }

  /** The three passes find nothing exactly on sound graphs. */
  lemma CleanIffSound(d: Document, evidence: set<Text>)
    ensures Findings(d, evidence) == [] <==> Sound(d, evidence)
  {
    NodeMapCounts(d.nodes);
    assert |NodeMap(d.nodes)| == |NodeMap(d.nodes).Keys|;
    NoNodeFindings(evidence, NodeMap(d.nodes), NodeKeys(d.nodes));
    NoEdgeFindings(d, evidence, NodeMap(d.nodes), d.edges);
    if DistinctNodes(d.nodes) {
      DistinctNodesCount(d.nodes);
      GoodNodes(d.nodes, evidence);
    }
  }

  // ----- walks

  /** A walk in the undirected graph: `path[i]` and `path[i + 1]` are the ends of `taken[i]`, in either order. */
  ghost predicate Walk(d: Document, path: seq<Text>, taken: seq<Edge>) {
    && |path| == |taken| + 1
    && path[0] in NodeMap(d.nodes)
    && forall i :: 0 <= i < |taken| ==> taken[i] in d.edges && Joins(taken[i], path[i], path[i + 1])
  }

  predicate Joins(e: Edge, a: Text, b: Text) {
    (e.source == a && e.target == b) || (e.source == b && e.target == a)
  }

  /** The endpoint, scope and classification rules alone. */
  predicate Guarded(nodes: map<Text, Node>, e: Edge) {
    && e.source in nodes && e.target in nodes
    && e.scope == nodes[e.source].scope == nodes[e.target].scope
    && RankOr(e.classification, -1) >= RankOr(nodes[e.source].classification, 99)
    && RankOr(e.classification, -1) >= RankOr(nodes[e.target].classification, 99)
  }

  function HighestEdge(taken: seq<Edge>): int {
    if taken == [] then -1 else Max(RankOr(taken[0].classification, -1), HighestEdge(taken[1..]))
  }

  lemma {:induction false} HighestEdgeCovers(taken: seq<Edge>, i: nat)
    requires i < |taken|
    ensures RankOr(taken[i].classification, -1) <= HighestEdge(taken)
  {
    if i > 0 {
      HighestEdgeCovers(taken[1..], i - 1);
    }
  }

  /** Along a walk: known nodes only, one scope for all nodes and edges, and no node more highly classified than the
      walk's most highly classified edge. */
  ghost predicate Contained(nodes: map<Text, Node>, path: seq<Text>, taken: seq<Edge>) {
    && |path| > 0 && (forall i :: 0 <= i < |path| ==> path[i] in nodes)
    && (forall i :: 0 <= i < |path| ==> nodes[path[i]].scope == nodes[path[0]].scope)
    && (forall i :: 0 <= i < |taken| ==> taken[i].scope == nodes[path[0]].scope)
    && (taken != [] ==> forall i :: 0 <= i < |path| ==> RankOr(nodes[path[i]].classification, 99) <= HighestEdge(taken))
  }

  lemma {:induction false} WalkStaysInScope(d: Document, path: seq<Text>, taken: seq<Edge>)
    requires forall e :: e in d.edges ==> Guarded(NodeMap(d.nodes), e)
    requires Walk(d, path, taken)
    ensures var nodes := NodeMap(d.nodes);
      forall i :: 0 <= i < |path| ==> path[i] in nodes && nodes[path[i]].scope == nodes[path[0]].scope
    decreases |path|
  {
    if taken != [] {
      var n := |taken|;
      var shorter, before := path[..n], taken[..n - 1];
      assert Walk(d, shorter, before);
      WalkStaysInScope(d, shorter, before);
      assert forall i :: 0 <= i < n ==> shorter[i] == path[i];
      assert Guarded(NodeMap(d.nodes), taken[n - 1]) && Joins(taken[n - 1], path[n - 1], path[n]);
    }
  }

  lemma WalkIsContained(d: Document, path: seq<Text>, taken: seq<Edge>)
    requires forall e :: e in d.edges ==> Guarded(NodeMap(d.nodes), e)
    requires Walk(d, path, taken)
    ensures Contained(NodeMap(d.nodes), path, taken)
  {
    var nodes := NodeMap(d.nodes);
    WalkStaysInScope(d, path, taken);
    forall i | 0 <= i < |taken| ensures taken[i].scope == nodes[path[0]].scope {
      assert Guarded(nodes, taken[i]) && Joins(taken[i], path[i], path[i + 1]);
    }
    forall i | 0 <= i < |path| && taken != [] ensures RankOr(nodes[path[i]].classification, 99) <= HighestEdge(taken) {
      var k := if i < |taken| then i else i - 1;
      assert Guarded(nodes, taken[k]) && Joins(taken[k], path[k], path[k + 1]);
      HighestEdgeCovers(taken, k);
    }
  }

  ghost predicate AllWalksContained(d: Document) {
    forall path, taken :: Walk(d, path, taken) ==> Contained(NodeMap(d.nodes), path, taken)
  }

  /** Checking each edge by itself is checking every walk: where no edge dangles, the two rules hold of all edges
      exactly when every walk of any length is contained. */
  lemma LocalRulesIffWalksContained(d: Document)
    requires forall e :: e in d.edges ==> e.source in NodeMap(d.nodes) && e.target in NodeMap(d.nodes)
    ensures (forall e :: e in d.edges ==> Guarded(NodeMap(d.nodes), e)) <==> AllWalksContained(d)
  {
    if forall e :: e in d.edges ==> Guarded(NodeMap(d.nodes), e) {
      forall path, taken | Walk(d, path, taken) ensures Contained(NodeMap(d.nodes), path, taken) {
        WalkIsContained(d, path, taken);
      }
    }
    if AllWalksContained(d) {
      var nodes := NodeMap(d.nodes);
      forall e | e in d.edges ensures Guarded(nodes, e) {
        var path, taken := [e.source, e.target], [e];
        assert Walk(d, path, taken);
        assert Contained(nodes, path, taken);
        assert path[1] == e.target && taken[0] == e;
        assert HighestEdge(taken) == Max(RankOr(e.classification, -1), HighestEdge([]));
        RanksAreCounted(nodes[e.source].classification);
        RanksAreCounted(nodes[e.target].classification);
      }
    }
  }

  lemma RanksAreCounted(name: Text)
    ensures RankOr(name, 99) >= 0
  {
  }

  /** In a graph without findings every walk stays in one visibility scope and passes through no node more highly
      classified than all its edges. */
  lemma SoundWalksAreContained(d: Document, evidence: set<Text>, path: seq<Text>, taken: seq<Edge>)
    requires Sound(d, evidence) && Walk(d, path, taken)
    ensures Contained(NodeMap(d.nodes), path, taken)
  {
    WalkIsContained(d, path, taken);
  }
}
