/**
 The wait-graph check over the declared default actor edges. Edges arrive as the list of
 (source, target) pairs read from the topology file; the same pair may occur several times.
 */
module ActorTopology {
  import opened Graph
  import Kahn

  datatype Verdict<V> = Passed | NoEdges | SelfEdge(node: V) | WaitCycle

  lemma SelfEdgeIsCycle<V(!new)>(edges: set<(V, V)>, v: V)
    requires (v, v) in edges
    ensures !Acyclic(edges)
  {
    assert WalkBetween(edges, [v, v], v, v);
    assert OnCycle(edges, v);
  }

  ghost predicate NoSelfEdge<V>(edges: seq<(V, V)>, count: nat)
    requires count <= |edges|
  {
    forall k :: 0 <= k < count ==> edges[k].0 != edges[k].1
  }

  ghost predicate IsFirstSelfEdge<V>(edges: seq<(V, V)>, at: nat)
    requires at < |edges|
  {
    edges[at].0 == edges[at].1 && NoSelfEdge(edges, at)
  }

  /** Fills the successor lists and counts, stopping at the first self edge. */
  method Build<V(==)>(edges: seq<(V, V)>, nodes: set<V>)
    returns (selfEdge: bool, at: nat, outgoing: map<V, seq<V>>, indegree: map<V, int>)
    requires Kahn.Within(edges, nodes)
    ensures selfEdge ==> at < |edges| && IsFirstSelfEdge(edges, at)
    ensures !selfEdge ==> NoSelfEdge(edges, |edges|)
    ensures !selfEdge ==> outgoing == Kahn.TargetLists(edges, nodes) && indegree == Kahn.Counts(edges, nodes, nodes)
  {
    selfEdge, at := false, 0;
    outgoing := map n | n in nodes :: [];
    indegree := map n | n in nodes :: 0;
    while at < |edges|
      invariant 0 <= at <= |edges|
      invariant outgoing == Kahn.TargetLists(edges[..at], nodes)
      invariant indegree == Kahn.Counts(edges[..at], nodes, nodes)
      invariant NoSelfEdge(edges, at)
    {
      var (source, target) := edges[at];
      assert edges[at] in edges;
      if source == target {
        selfEdge := true;
        return;
      }
      Kahn.ListsAfter(edges[..at], nodes, edges[at]);
      Kahn.CountsAfter(edges[..at], nodes, edges[at]);
      Kahn.TakeOneMore(edges, at);
      outgoing := outgoing[source := outgoing[source] + [target]];
      indegree := indegree[target := indegree[target] + 1];
      at := at + 1;
    }
    assert edges[..at] == edges;
  }

  /** Passes exactly the non-empty edge lists whose graph has no directed cycle. */
  method Check<V(==,!new)>(edges: seq<(V, V)>) returns (verdict: Verdict<V>)
    ensures verdict.Passed? <==> edges != [] && Acyclic(Kahn.EdgeSet(edges))
    ensures verdict.NoEdges? <==> edges == []
    ensures verdict.SelfEdge? <==> exists e :: e in edges && e.0 == e.1
    ensures verdict.SelfEdge? ==>
      exists at: nat :: at < |edges| && IsFirstSelfEdge(edges, at) && verdict.node == edges[at].0
  {
    if edges == [] {
      return NoEdges;
    }
    var nodes := (set e | e in edges :: e.0) + (set e | e in edges :: e.1);
    var selfEdge, at, outgoing, indegree := Build(edges, nodes);
    if selfEdge {
      assert edges[at] in edges && edges[at] == (edges[at].0, edges[at].0);
      SelfEdgeIsCycle(Kahn.EdgeSet(edges), edges[at].0);
      return SelfEdge(edges[at].0);
    }
    var visited := Kahn.Visit(nodes, outgoing, indegree, edges);
    verdict := if visited != |nodes| then WaitCycle else Passed;
  }
}
