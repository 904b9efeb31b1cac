/** Finite directed graphs as the verifiers hold them: a dictionary from a node to its listed successors. */
module Digraph {
  import opened Ordering

  type Graph = map<string, seq<string>>

  /** An edge counts only when both ends are keys: every tool skips a successor that is not in its dictionary. */
  predicate Edge(g: Graph, a: string, b: string) {
    a in g && b in g && b in g[a]
  }

  ghost predicate Walk(g: Graph, p: seq<string>) {
    && |p| > 0
    && p[0] in g
    && forall i :: 0 <= i < |p| - 1 ==> Edge(g, p[i], p[i + 1])
  }

  ghost predicate WalkFromTo(g: Graph, p: seq<string>, a: string, b: string) {
    Walk(g, p) && p[0] == a && p[|p| - 1] == b
  }

  ghost predicate Reaches(g: Graph, a: string, b: string) {
    exists p :: WalkFromTo(g, p, a, b)
  }

  ghost predicate ClosedWalk(g: Graph, p: seq<string>, r: string) {
    |p| >= 2 && WalkFromTo(g, p, r, r)
  }

  ghost predicate OnCycle(g: Graph, r: string) {
    exists p :: ClosedWalk(g, p, r)
  }

  ghost predicate Acyclic(g: Graph) {
    forall r :: r in g ==> !OnCycle(g, r)
  }

  /** A closed walk of real edges in which no node but the first one comes back. */
  ghost predicate SimpleCycle(g: Graph, p: seq<string>) {
    && |p| >= 2
    && WalkFromTo(g, p, p[0], p[0])
    && Distinct(p[..|p| - 1])
  }

  ghost predicate IsSink(g: Graph, a: string) {
    forall x :: !Edge(g, a, x)
  }

  ghost predicate IsSource(g: Graph, a: string) {
    forall x :: !Edge(g, x, a)
  }

  /** Every node of `order` comes after all its successors, those among `broken` aside. */
  ghost predicate Topological(g: Graph, order: seq<string>, broken: set<string>) {
    && Distinct(order)
    && (forall x :: x in order ==> x in g)
    && forall i, x :: 0 <= i < |order| && Edge(g, order[i], x) ==> x in order[..i] || x in broken
  }

  lemma {:induction false} TopologicalWalkDescends(g: Graph, order: seq<string>, broken: set<string>, p: seq<string>,
                                                   i: nat)
    requires Topological(g, order, broken) && Walk(g, p) && forall x :: x in p ==> x !in broken
    requires i < |order| && p[0] == order[i]
    ensures |p| >= 2 ==> p[|p| - 1] in order[..i]
    decreases |p|
  {
    if |p| >= 2 {
      assert Edge(g, p[0], p[1]) && p[1] in p;
      var j :| 0 <= j < i && order[j] == p[1];
      var rest := p[1..];
      WalkSuffix(g, p, 1);
      TopologicalWalkDescends(g, order, broken, rest, j);
      assert order[..j] <= order[..i];
      assert rest[|rest| - 1] == p[|p| - 1];
      if |rest| == 1 {
        assert order[..i][j] == p[|p| - 1];
      }
    }
  }

  /** Every closed walk passes through one of `nodes`. */
  ghost predicate MeetsEveryCycle(g: Graph, nodes: set<string>) {
    forall r, p :: ClosedWalk(g, p, r) ==> exists x :: x in p && x in nodes
  }

  /** An order of all nodes has the broken ones on every cycle: between them there is none. */
  lemma TopologicalMeetsCycles(g: Graph, order: seq<string>, broken: set<string>)
    requires Topological(g, order, broken)
    requires forall x :: x in g ==> x in order
    ensures MeetsEveryCycle(g, broken)
  {
    forall r, p | ClosedWalk(g, p, r) ensures exists x :: x in p && x in broken {
      if forall x :: x in p ==> x !in broken {
        assert Edge(g, p[0], p[1]);
        var i :| 0 <= i < |order| && order[i] == r;
        TopologicalWalkDescends(g, order, broken, p, i);
        assert false;
      }
    }
  }

  lemma NothingMeetsNoCycle(g: Graph)
    requires MeetsEveryCycle(g, {})
    ensures Acyclic(g)
  {
    forall r | r in g ensures !OnCycle(g, r) {
      forall p ensures !ClosedWalk(g, p, r) {
      }
    }
  }

  /** Such an order grows by a node whose successors are all listed or broken. */
  lemma TopologicalExtends(g: Graph, order: seq<string>, broken: set<string>, r: string)
    requires Topological(g, order, broken) && r in g && r !in order
    requires forall x :: Edge(g, r, x) ==> x in order || x in broken
    ensures Topological(g, order + [r], broken)
  {
    var longer := order + [r];
    forall i, x | 0 <= i < |longer| && Edge(g, longer[i], x) ensures x in longer[..i] || x in broken {
      if i < |order| {
        assert longer[..i] == order[..i];
      } else {
        assert longer[..i] == order;
      }
    }
  }

  lemma TopologicalWeakens(g: Graph, order: seq<string>, broken: set<string>, more: set<string>)
    requires Topological(g, order, broken) && broken <= more
    ensures Topological(g, order, more)
  {
  }

  lemma WalkExtends(g: Graph, p: seq<string>, x: string)
    requires Walk(g, p) && Edge(g, p[|p| - 1], x)
    ensures Walk(g, p + [x])
  {
    var q := p + [x];
    forall i | 0 <= i < |q| - 1 ensures Edge(g, q[i], q[i + 1]) {
      if i == |p| - 1 {
        assert q[i] == p[|p| - 1] && q[i + 1] == x;
      } else {
        assert q[i] == p[i] && q[i + 1] == p[i + 1];
      }
    }
  }

  lemma WalkPrepends(g: Graph, x: string, p: seq<string>)
    requires Walk(g, p) && Edge(g, x, p[0])
    ensures Walk(g, [x] + p)
  {
    var q := [x] + p;
    forall i | 0 <= i < |q| - 1 ensures Edge(g, q[i], q[i + 1]) {
      if i > 0 {
        assert q[i] == p[i - 1] && q[i + 1] == p[i];
      }
    }
  }

  lemma WalkSuffix(g: Graph, p: seq<string>, k: nat)
    requires Walk(g, p) && k < |p|
    ensures Walk(g, p[k..])
  {
    var q := p[k..];
    assert q[0] == p[k];
    if k > 0 {
      assert Edge(g, p[k - 1], p[k]);
    }
    forall i | 0 <= i < |q| - 1 ensures Edge(g, q[i], q[i + 1]) {
      assert q[i] == p[k + i] && q[i + 1] == p[k + i + 1];
    }
  }

  lemma WalkNodes(g: Graph, p: seq<string>)
    requires Walk(g, p)
    ensures forall x :: x in p ==> x in g
  {
    forall i | 0 <= i < |p| ensures p[i] in g {
      if i > 0 {
        assert Edge(g, p[i - 1], p[i]);
      }
    }
  }

  lemma {:induction false} DistinctFits(s: seq<string>, all: set<string>)
    requires Distinct(s) && forall x :: x in s ==> x in all
    ensures |s| <= |all|
  {
    if s != [] {
      var last := s[|s| - 1];
      var rest := s[..|s| - 1];
      assert last !in rest;
      DistinctFits(rest, all - {last});
    }
  }

  /** Closing a distinct walk by an edge back into it exhibits a cycle, without inner repetition. */
  lemma BackEdgeClosesCycle(g: Graph, p: seq<string>, k: nat)
    requires Walk(g, p) && k < |p| && Distinct(p)
    requires Edge(g, p[|p| - 1], p[k])
    ensures SimpleCycle(g, p[k..] + [p[k]])
    ensures OnCycle(g, p[k])
  {
    var q := p[k..];
    WalkSuffix(g, p, k);
    assert q[|q| - 1] == p[|p| - 1];
    WalkExtends(g, q, p[k]);
    var c := q + [p[k]];
    assert c[..|c| - 1] == q;
    assert ClosedWalk(g, c, p[k]);
  }

  lemma AcyclicWalkIsDistinct(g: Graph, p: seq<string>)
    requires Acyclic(g) && Walk(g, p)
    ensures Distinct(p)
  {
    if i, j :| 0 <= i < j < |p| && p[i] == p[j] {
      var c := p[i..j + 1];
      assert c[0] == p[i] && c[|c| - 1] == p[j];
      WalkNodes(g, p);
      forall k | 0 <= k < |c| - 1 ensures Edge(g, c[k], c[k + 1]) {
        assert c[k] == p[i + k] && c[k + 1] == p[i + k + 1];
      }
      assert ClosedWalk(g, c, p[i]);
    }
  }

  /** In an acyclic finite graph a walk can be pushed on until it meets a node without successors. */
  lemma {:induction false} WalkToSink(g: Graph, p: seq<string>) returns (q: seq<string>)
    requires Acyclic(g) && Walk(g, p) && Distinct(p)
    ensures |q| > 0 && WalkFromTo(g, q, p[0], q[|q| - 1])
    ensures IsSink(g, q[|q| - 1])
    decreases |g.Keys| + 1 - |p|
  {
    WalkNodes(g, p);
    DistinctFits(p, g.Keys);
    if !IsSink(g, p[|p| - 1]) {
      var last := p[|p| - 1];
      var x :| Edge(g, last, x);
      if x in p {
        var k :| 0 <= k < |p| && p[k] == x;
        BackEdgeClosesCycle(g, p, k);
        assert false;
      }
      WalkExtends(g, p, x);
      q := WalkToSink(g, p + [x]);
    } else {
      q := p;
    }
  }

  /** The same from the other end: back to a node nothing points to. */
  lemma {:induction false} WalkFromSource(g: Graph, p: seq<string>) returns (q: seq<string>)
    requires Acyclic(g) && Walk(g, p) && Distinct(p)
    ensures |q| > 0 && WalkFromTo(g, q, q[0], p[|p| - 1])
    ensures IsSource(g, q[0])
    decreases |g.Keys| + 1 - |p|
  {
    WalkNodes(g, p);
    DistinctFits(p, g.Keys);
    if !IsSource(g, p[0]) {
      var x :| Edge(g, x, p[0]);
      if x in p {
        var k :| 0 <= k < |p| && p[k] == x;
        var c := [x] + p[..k + 1];
        forall i | 0 <= i < |c| - 1 ensures Edge(g, c[i], c[i + 1]) {
          if i > 0 {
            assert c[i] == p[i - 1] && c[i + 1] == p[i];
          }
        }
        assert ClosedWalk(g, c, x);
        assert false;
      }
      WalkPrepends(g, x, p);
      q := WalkFromSource(g, [x] + p);
    } else {
      q := p;
    }
  }

  /** Graphs with the same edges and nodes have the same cycles. */
  lemma SameEdgesSameCycles(g: Graph, h: Graph)
    requires g.Keys == h.Keys
    requires forall a, b :: Edge(g, a, b) <==> Edge(h, a, b)
    ensures Acyclic(g) <==> Acyclic(h)
  {
    forall r, p ensures ClosedWalk(g, p, r) <==> ClosedWalk(h, p, r) {
    }
    forall r | r in g ensures OnCycle(g, r) <==> OnCycle(h, r) {
      if p :| ClosedWalk(g, p, r) { assert ClosedWalk(h, p, r); }
      if p :| ClosedWalk(h, p, r) { assert ClosedWalk(g, p, r); }
    }
  }
}
