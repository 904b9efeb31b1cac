/** What each finding on the ecosystem graph says of the document: the order of the classifications, the node an
    identifier stands for, and the rules one by one. */
module FederationRules {
  import opened Values
  import opened Ordering
  import opened FederationGraph

  /** From the lowest to the highest. */
  const LEVELS := ["public", "internal", "confidential", "restricted"]

  /** Both are classifications, and `high` is not below `low`. */
  predicate AtLeast(high: Text, low: Text) {
    exists i, j :: 0 <= j <= i < |LEVELS| && high == Some(LEVELS[i]) && low == Some(LEVELS[j])
  }

  lemma RankOfLevel(i: nat, otherwise: int)
    requires i < |LEVELS|
    ensures RankOr(Some(LEVELS[i]), otherwise) == i
  {
    assert i == 0 || i == 1 || i == 2 || i == 3;
  }

  lemma LevelIff(name: Text)
    ensures name.Some? && name.value in CLASSIFICATION <==> exists i :: 0 <= i < |LEVELS| && name == Some(LEVELS[i])
  {
    assert CLASSIFICATION.Keys == {LEVELS[0], LEVELS[1], LEVELS[2], LEVELS[3]};
  }

  /** The comparison of ranks is the order of the classifications: an unknown one on either side fails it. */
  lemma RankIff(high: Text, low: Text)
    ensures RankOr(high, -1) >= RankOr(low, 99) <==> AtLeast(high, low)
  {
    LevelIff(high);
    LevelIff(low);
    if i, j :| 0 <= i < |LEVELS| && high == Some(LEVELS[i]) && 0 <= j < |LEVELS| && low == Some(LEVELS[j]) {
      RankOfLevel(i, -1);
      RankOfLevel(j, 99);
      if AtLeast(high, low) {
        var k, l :| 0 <= l <= k < |LEVELS| && high == Some(LEVELS[k]) && low == Some(LEVELS[l]);
        RankOfLevel(k, -1);
        RankOfLevel(l, 99);
      }
    }
  }

  /** The node an identifier stands for is the last one listed under it. */
  ghost predicate StandsFor(nodes: seq<Node>, id: Text, node: Node) {
    exists i ::
      && 0 <= i < |nodes| && nodes[i] == node && node.id == id
      && forall j :: i < j < |nodes| ==> nodes[j].id != id
  }

  lemma StandsForStep(rest: seq<Node>, last: Node, id: Text, node: Node)
    ensures StandsFor(rest + [last], id, node) <==>
      (last.id == id && node == last) || (last.id != id && StandsFor(rest, id, node))
  {
    var all := rest + [last];
    if last.id == id && node == last {
      assert all[|rest|] == last;
    }
    if last.id != id && StandsFor(rest, id, node) {
      var i :| && 0 <= i < |rest| && rest[i] == node && node.id == id
               && forall j :: i < j < |rest| ==> rest[j].id != id;
      assert all[i] == node && forall j :: i < j < |all| ==> all[j].id != id;
    }
    if StandsFor(all, id, node) {
      var i :| && 0 <= i < |all| && all[i] == node && node.id == id
               && forall j :: i < j < |all| ==> all[j].id != id;
      if i < |rest| {
        assert all[|rest|].id != id;
        assert rest[i] == node && forall j :: i < j < |rest| ==> rest[j] == all[j];
      }
    }
  }

  lemma {:induction false} NodeMapIsLast(nodes: seq<Node>, id: Text, node: Node)
    ensures id in NodeMap(nodes) && NodeMap(nodes)[id] == node <==> StandsFor(nodes, id, node)
  {
    if nodes != [] {
      var n := |nodes| - 1;
      assert nodes == nodes[..n] + [nodes[n]];
      NodeMapIsLast(nodes[..n], id, node);
      StandsForStep(nodes[..n], nodes[n], id, node);
    }
  }

  /** A node names known evidence, one of the four classifications, and a scope. */
  ghost predicate NodeInOrder(evidence: set<Text>, node: Node) {
    && node.evidence in evidence
    && (exists i :: 0 <= i < |LEVELS| && node.classification == Some(LEVELS[i]))
    && (exists scope :: node.scope == Some(scope) && scope != "")
  }

  /** An edge joins two different nodes by a listed relationship on known evidence, within their scope, and is at least
      as highly classified as each. */
  ghost predicate EdgeInOrder(d: Document, evidence: set<Text>, e: Edge) {
    exists u, v ::
      && StandsFor(d.nodes, e.source, u) && StandsFor(d.nodes, e.target, v) && u.id != v.id
      && e.relationship in d.relationships && e.evidence in evidence
      && u.scope == e.scope == v.scope
      && AtLeast(e.classification, u.classification) && AtLeast(e.classification, v.classification)
  }

  lemma NodeInOrderIff(evidence: set<Text>, node: Node)
    ensures NodeRules(evidence, node) <==> NodeInOrder(evidence, node)
  {
    LevelIff(node.classification);
  }

  lemma EdgeInOrderIff(d: Document, evidence: set<Text>, e: Edge)
    ensures EdgeRules(d, evidence, NodeMap(d.nodes), e) <==> EdgeInOrder(d, evidence, e)
  {
    var nodes := NodeMap(d.nodes);
    forall id, node ensures id in nodes && nodes[id] == node <==> StandsFor(d.nodes, id, node) {
      NodeMapIsLast(d.nodes, id, node);
    }
    if e.source in nodes && e.target in nodes {
      var u, v := nodes[e.source], nodes[e.target];
      RankIff(e.classification, u.classification);
      RankIff(e.classification, v.classification);
      assert StandsFor(d.nodes, e.source, u) && StandsFor(d.nodes, e.target, v);
    }
  }

  lemma {:induction false} NodeFindingsAre(evidence: set<Text>, nodes: map<Text, Node>, keys: seq<Text>, f: Finding)
    ensures f in NodeFindings(evidence, nodes, keys) <==>
      f.BadNode? && f.node in keys && !KnownGoodNode(evidence, nodes, f.node)
  {
    if keys != [] {
      var n := |keys| - 1;
      assert keys == keys[..n] + [keys[n]];
      NodeFindingsAre(evidence, nodes, keys[..n], f);
    }
  }

  lemma {:induction false} EdgeFindingsAre(d: Document, evidence: set<Text>, nodes: map<Text, Node>, edges: seq<Edge>,
                                           f: Finding)
    ensures f in EdgeFindings(d, evidence, nodes, edges) <==>
      && f.BadEdge?
      && exists k :: 0 <= k < |edges| && edges[k].id == f.edge && FaultyAt(d, evidence, nodes, edges, k)
  {
    if edges != [] {
      var n := |edges| - 1;
      var rest := edges[..n];
      EdgeFindingsAre(d, evidence, nodes, rest, f);
      forall k | 0 <= k < n
        ensures FaultyAt(d, evidence, nodes, rest, k) <==> FaultyAt(d, evidence, nodes, edges, k)
      {
        assert rest[k] == edges[k] && rest[..k] == edges[..k];
      }
      assert edges[..n] == rest;
    }
  }

  predicate FaultyAt(d: Document, evidence: set<Text>, nodes: map<Text, Node>, edges: seq<Edge>, k: int) {
    0 <= k < |edges| && (edges[k].id in EdgeIds(edges[..k]) || !EdgeRules(d, evidence, nodes, edges[k]))
  }

  lemma DuplicateIff(nodes: seq<Node>)
    ensures |NodeMap(nodes)| != |nodes| <==> exists i, j :: 0 <= i < j < |nodes| && nodes[i].id == nodes[j].id
  {
    assert |NodeMap(nodes)| == |NodeMap(nodes).Keys|;
    NodeMapCounts(nodes);
    if DistinctNodes(nodes) {
      DistinctNodesCount(nodes);
    }
  }

  lemma FindingsSplit(d: Document, evidence: set<Text>, f: Finding)
    ensures f in Findings(d, evidence) <==>
      || (f == DuplicateNode && |NodeMap(d.nodes)| != |d.nodes|)
      || f in NodeFindings(evidence, NodeMap(d.nodes), NodeKeys(d.nodes))
      || f in EdgeFindings(d, evidence, NodeMap(d.nodes), d.edges)
  {
  }

  /** The first finding: two nodes share an identifier. */
  lemma DuplicateNodeIff(d: Document, evidence: set<Text>)
    ensures DuplicateNode in Findings(d, evidence) <==>
      exists i, j :: 0 <= i < j < |d.nodes| && d.nodes[i].id == d.nodes[j].id
  {
    FindingsSplit(d, evidence, DuplicateNode);
    NodeFindingsAre(evidence, NodeMap(d.nodes), NodeKeys(d.nodes), DuplicateNode);
    EdgeFindingsAre(d, evidence, NodeMap(d.nodes), d.edges, DuplicateNode);
    DuplicateIff(d.nodes);
  }

  /** An identifier is reported as a node's exactly when the node it stands for breaks a rule. */
  lemma BadNodeIff(d: Document, evidence: set<Text>, id: Text)
    ensures BadNode(id) in Findings(d, evidence) <==>
      exists node :: StandsFor(d.nodes, id, node) && !NodeInOrder(evidence, node)
  {
    FindingsSplit(d, evidence, BadNode(id));
    NodeFindingsAre(evidence, NodeMap(d.nodes), NodeKeys(d.nodes), BadNode(id));
    EdgeFindingsAre(d, evidence, NodeMap(d.nodes), d.edges, BadNode(id));
    NodeMapHolds(d.nodes);
    forall node ensures id in NodeMap(d.nodes) && NodeMap(d.nodes)[id] == node <==> StandsFor(d.nodes, id, node) {
      NodeMapIsLast(d.nodes, id, node);
    }
    forall node ensures NodeRules(evidence, node) <==> NodeInOrder(evidence, node) {
      NodeInOrderIff(evidence, node);
    }
    if id in NodeMap(d.nodes) {
      assert StandsFor(d.nodes, id, NodeMap(d.nodes)[id]);
    }
  }

  /** An identifier is reported as an edge's exactly when an edge of that identifier repeats that of an earlier one or
      breaks a rule. */
  lemma BadEdgeIff(d: Document, evidence: set<Text>, id: Text)
    ensures BadEdge(id) in Findings(d, evidence) <==>
      exists k :: 0 <= k < |d.edges| && d.edges[k].id == id
        && ((exists j :: 0 <= j < k && d.edges[j].id == id) || !EdgeInOrder(d, evidence, d.edges[k]))
  {
    FindingsSplit(d, evidence, BadEdge(id));
    NodeFindingsAre(evidence, NodeMap(d.nodes), NodeKeys(d.nodes), BadEdge(id));
    EdgeFindingsAre(d, evidence, NodeMap(d.nodes), d.edges, BadEdge(id));
    forall k | 0 <= k < |d.edges| && d.edges[k].id == id
      ensures FaultyAt(d, evidence, NodeMap(d.nodes), d.edges, k) <==>
        (exists j :: 0 <= j < k && d.edges[j].id == id) || !EdgeInOrder(d, evidence, d.edges[k])
    {
      EdgeInOrderIff(d, evidence, d.edges[k]);
      EarlierIff(d.edges, k);
    }
  }

  lemma EarlierIff(edges: seq<Edge>, k: nat)
    requires k < |edges|
    ensures edges[k].id in EdgeIds(edges[..k]) <==> exists j :: 0 <= j < k && edges[j].id == edges[k].id
  {
    assert forall j :: 0 <= j < k ==> edges[..k][j] == edges[j];
  }

  // ----- the order of the findings

  ghost predicate ListedBefore(nodes: seq<Node>, id: Text, j: int) {
    exists i :: 0 <= i < j && i < |nodes| && nodes[i].id == id
  }

  /** The first listing of one identifier precedes every listing of the other. */
  ghost predicate ListedFirst(nodes: seq<Node>, id: Text, later: Text) {
    forall j :: 0 <= j < |nodes| && nodes[j].id == later ==> ListedBefore(nodes, id, j)
  }

  lemma ListedBeforeGrows(rest: seq<Node>, last: Node, id: Text, j: nat)
    requires ListedBefore(rest, id, j)
    ensures ListedBefore(rest + [last], id, j)
  {
    var i :| 0 <= i < j && i < |rest| && rest[i].id == id;
    assert (rest + [last])[i].id == id;
  }

  lemma ListedFirstGrows(rest: seq<Node>, last: Node, id: Text, later: Text)
    requires ListedFirst(rest, id, later) && ListedBefore(rest, id, |rest|)
    ensures ListedFirst(rest + [last], id, later)
  {
    var nodes := rest + [last];
    forall j | 0 <= j < |nodes| && nodes[j].id == later ensures ListedBefore(nodes, id, j) {
      assert j < |rest| ==> rest[j].id == later;
      ListedBeforeGrows(rest, last, id, j);
    }
  }

  lemma {:induction false} KeysInOrder(nodes: seq<Node>, a: nat, b: nat)
    requires a < b < |NodeKeys(nodes)|
    ensures ListedFirst(nodes, NodeKeys(nodes)[a], NodeKeys(nodes)[b])
  {
    var n := |nodes| - 1;
    var rest, last, keys := nodes[..n], nodes[n], NodeKeys(nodes[..n]);
    assert nodes == rest + [last];
    NodeMapHolds(rest);
    KeyIsListed(rest, keys[a]);
    if b < |keys| {
      KeysInOrder(rest, a, b);
    } else {
      forall j | 0 <= j < |rest| ensures rest[j].id != last.id {
        assert rest[j].id in NodeMap(rest);
      }
    }
    ListedFirstGrows(rest, last, NodeKeys(nodes)[a], NodeKeys(nodes)[b]);
  }

  lemma KeyIsListed(nodes: seq<Node>, key: Text)
    requires key in NodeKeys(nodes)
    ensures ListedBefore(nodes, key, |nodes|)
  {
    NodeMapHolds(nodes);
    var i :| 0 <= i < |nodes| && nodes[i] == NodeMap(nodes)[key];
  }

  /** Findings on nodes come in the order of the keys, those on edges in that of the edges. */
  lemma {:induction false} NodeFindingPlaces(evidence: set<Text>, nodes: map<Text, Node>, keys: seq<Text>, i: nat,
                                             j: nat)
    requires i < j < |NodeFindings(evidence, nodes, keys)|
    ensures var found := NodeFindings(evidence, nodes, keys);
      exists k, l :: 0 <= k < l < |keys| && found[i] == BadNode(keys[k]) && found[j] == BadNode(keys[l])
  {
    var n := |keys| - 1;
    var rest, found := NodeFindings(evidence, nodes, keys[..n]), NodeFindings(evidence, nodes, keys);
    if j < |rest| {
      NodeFindingPlaces(evidence, nodes, keys[..n], i, j);
      var k, l :| 0 <= k < l < n && rest[i] == BadNode(keys[..n][k]) && rest[j] == BadNode(keys[..n][l]);
      assert found[i] == BadNode(keys[k]) && found[j] == BadNode(keys[l]);
    } else {
      NodeFindingsAre(evidence, nodes, keys[..n], rest[i]);
      var k :| 0 <= k < n && keys[..n][k] == rest[i].node;
      assert found[i] == BadNode(keys[k]) && found[j] == BadNode(keys[n]);
    }
  }

  lemma {:induction false} EdgeFindingPlaces(d: Document, evidence: set<Text>, nodes: map<Text, Node>, edges: seq<Edge>,
                                             i: nat, j: nat)
    requires i < j < |EdgeFindings(d, evidence, nodes, edges)|
    ensures var found := EdgeFindings(d, evidence, nodes, edges);
      exists k, l :: 0 <= k < l < |edges| && found[i] == BadEdge(edges[k].id) && found[j] == BadEdge(edges[l].id)
  {
    var n := |edges| - 1;
    var rest, found := EdgeFindings(d, evidence, nodes, edges[..n]), EdgeFindings(d, evidence, nodes, edges);
    if j < |rest| {
      EdgeFindingPlaces(d, evidence, nodes, edges[..n], i, j);
      var k, l :| 0 <= k < l < n && rest[i] == BadEdge(edges[..n][k].id) && rest[j] == BadEdge(edges[..n][l].id);
      assert found[i] == BadEdge(edges[k].id) && found[j] == BadEdge(edges[l].id);
    } else {
      EdgeFindingsAre(d, evidence, nodes, edges[..n], rest[i]);
      var k :| 0 <= k < n && edges[..n][k].id == rest[i].edge;
      assert found[i] == BadEdge(edges[k].id) && found[j] == BadEdge(edges[n].id);
    }
  }

  ghost predicate Precedes(d: Document, f: Finding, g: Finding) {
    match f
    case DuplicateNode => !g.DuplicateNode?
    case BadNode(id) => g.BadEdge? || (g.BadNode? && ListedFirst(d.nodes, id, g.node))
    case BadEdge(id) =>
      g.BadEdge? && exists k, l :: 0 <= k < l < |d.edges| && d.edges[k].id == id && d.edges[l].id == g.edge
  }

  lemma NodeFindingsInOrder(d: Document, evidence: set<Text>, i: nat, j: nat)
    requires i < j < |NodeFindings(evidence, NodeMap(d.nodes), NodeKeys(d.nodes))|
    ensures var found := NodeFindings(evidence, NodeMap(d.nodes), NodeKeys(d.nodes)); Precedes(d, found[i], found[j])
  {
    var keys := NodeKeys(d.nodes);
    var found := NodeFindings(evidence, NodeMap(d.nodes), keys);
    NodeFindingPlaces(evidence, NodeMap(d.nodes), keys, i, j);
    var k, l :| 0 <= k < l < |keys| && found[i] == BadNode(keys[k]) && found[j] == BadNode(keys[l]);
    KeysInOrder(d.nodes, k, l);
  }

  lemma EdgeFindingsInOrder(d: Document, evidence: set<Text>, i: nat, j: nat)
    requires i < j < |EdgeFindings(d, evidence, NodeMap(d.nodes), d.edges)|
    ensures var found := EdgeFindings(d, evidence, NodeMap(d.nodes), d.edges); Precedes(d, found[i], found[j])
  {
    EdgeFindingPlaces(d, evidence, NodeMap(d.nodes), d.edges, i, j);
  }

  ghost predicate InOrder(d: Document, found: seq<Finding>) {
    forall i, j :: 0 <= i < j < |found| ==> Precedes(d, found[i], found[j])
  }

  lemma JoinedInOrder(d: Document, a: seq<Finding>, b: seq<Finding>)
    requires InOrder(d, a) && InOrder(d, b) && forall f, g :: f in a && g in b ==> Precedes(d, f, g)
    ensures InOrder(d, a + b)
  {
  }

  /** The findings come in the order of the document: the duplicate, then nodes as first listed, then edges. */
  lemma FindingsInOrder(d: Document, evidence: set<Text>)
    ensures InOrder(d, Findings(d, evidence))
  {
    var first := if |NodeMap(d.nodes)| != |d.nodes| then [DuplicateNode] else [];
    var nodes := NodeFindings(evidence, NodeMap(d.nodes), NodeKeys(d.nodes));
    var edges := EdgeFindings(d, evidence, NodeMap(d.nodes), d.edges);
    forall f ensures f in nodes ==> f.BadNode? { NodeFindingsAre(evidence, NodeMap(d.nodes), NodeKeys(d.nodes), f); }
    forall f ensures f in edges ==> f.BadEdge? { EdgeFindingsAre(d, evidence, NodeMap(d.nodes), d.edges, f); }
    forall i, j | 0 <= i < j < |nodes| ensures Precedes(d, nodes[i], nodes[j]) {
      NodeFindingsInOrder(d, evidence, i, j);
    }
    forall i, j | 0 <= i < j < |edges| ensures Precedes(d, edges[i], edges[j]) {
      EdgeFindingsInOrder(d, evidence, i, j);
    }
    JoinedInOrder(d, first, nodes);
    JoinedInOrder(d, first + nodes, edges);
  }
}
