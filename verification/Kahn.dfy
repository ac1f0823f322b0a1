/**
 The in-degree loop (Kahn's algorithm) that both dependency scripts run. The graph is the list of
 its edges; parallel edges are counted as often as they occur. A node's count is specified as the
 number of listed edges that enter it from a node still waiting to be visited.
 */
module Kahn {
  import opened Graph

  ghost function EdgeSet<V>(edges: seq<(V, V)>): set<(V, V)> {
    set e | e in edges
  }

  ghost predicate Within<V>(edges: seq<(V, V)>, nodes: set<V>) {
    forall e :: e in edges ==> e.0 in nodes && e.1 in nodes
  }

  /** Targets of the edges leaving `u`, in edge order. */
  ghost function Targets<V>(edges: seq<(V, V)>, u: V): seq<V> {
    if edges == [] then []
    else (if edges[0].0 == u then [edges[0].1] else []) + Targets(edges[1..], u)
  }

  /** How many edges enter `t` from a waiting node. */
  ghost function Pending<V>(edges: seq<(V, V)>, waiting: set<V>, t: V): nat {
    if edges == [] then 0
    else (if edges[0].0 in waiting && edges[0].1 == t then 1 else 0) + Pending(edges[1..], waiting, t)
  }

  ghost function Occurrences<V>(s: seq<V>, x: V): nat {
    if s == [] then 0 else (if s[0] == x then 1 else 0) + Occurrences(s[1..], x)
  }

  ghost function TargetLists<V>(edges: seq<(V, V)>, nodes: set<V>): map<V, seq<V>> {
    map n | n in nodes :: Targets(edges, n)
  }

  ghost function Counts<V>(edges: seq<(V, V)>, nodes: set<V>, waiting: set<V>): map<V, int> {
    map n | n in nodes :: Pending(edges, waiting, n)
  }

  // ----- Facts about the counts -----

  lemma {:induction false} OccurrencesConcat<V>(s: seq<V>, r: seq<V>, x: V)
    ensures Occurrences(s + r, x) == Occurrences(s, x) + Occurrences(r, x)
  {
    if s == [] {
      assert s + r == r;
    } else {
      assert (s + r)[1..] == s[1..] + r;
      OccurrencesConcat(s[1..], r, x);
    }
  }

  /** Visiting `u` takes away exactly its own edges into `t`. */
  lemma {:induction false} PendingWithout<V>(edges: seq<(V, V)>, waiting: set<V>, u: V, t: V)
    requires u in waiting
    ensures Pending(edges, waiting, t) == Pending(edges, waiting - {u}, t) + Occurrences(Targets(edges, u), t)
  {
    if edges != [] {
      PendingWithout(edges[1..], waiting, u, t);
      OccurrencesConcat(if edges[0].0 == u then [edges[0].1] else [], Targets(edges[1..], u), t);
    }
  }

  lemma {:induction false} PendingIsZero<V>(edges: seq<(V, V)>, waiting: set<V>, t: V)
    ensures Pending(edges, waiting, t) == 0 <==> forall u :: u in waiting ==> (u, t) !in edges
  {
    if edges != [] {
      var first, rest := edges[0], edges[1..];
      PendingIsZero(rest, waiting, t);
      assert edges == [first] + rest;
      assert forall u :: (u, t) in edges <==> (u, t) == first || (u, t) in rest;
      if first.0 in waiting && first.1 == t {
        assert first == (first.0, t);
      }
    }
  }

  lemma {:induction false} TargetsAreEdges<V>(edges: seq<(V, V)>, u: V, t: V)
    ensures t in Targets(edges, u) <==> (u, t) in edges
  {
    if edges != [] {
      TargetsAreEdges(edges[1..], u, t);
      assert edges == [edges[0]] + edges[1..];
    }
  }

  // ----- Building the successor lists and counts edge by edge -----

  lemma {:induction false} TargetsSnoc<V>(edges: seq<(V, V)>, e: (V, V), u: V)
    ensures Targets(edges + [e], u) == Targets(edges, u) + if e.0 == u then [e.1] else []
  {
    if edges != [] {
      assert (edges + [e])[1..] == edges[1..] + [e];
      TargetsSnoc(edges[1..], e, u);
    }
  }

  lemma {:induction false} PendingSnoc<V>(edges: seq<(V, V)>, e: (V, V), waiting: set<V>, t: V)
    ensures Pending(edges + [e], waiting, t) == Pending(edges, waiting, t) + if e.0 in waiting && e.1 == t then 1 else 0
  {
    if edges != [] {
      assert (edges + [e])[1..] == edges[1..] + [e];
      PendingSnoc(edges[1..], e, waiting, t);
    }
  }

  lemma ListsAfter<V>(edges: seq<(V, V)>, nodes: set<V>, e: (V, V))
    requires e.0 in nodes
    ensures var out := TargetLists(edges, nodes);
      TargetLists(edges + [e], nodes) == out[e.0 := out[e.0] + [e.1]]
  {
    var out := TargetLists(edges, nodes);
    var next := out[e.0 := out[e.0] + [e.1]];
    forall n | n in nodes
      ensures Targets(edges + [e], n) == next[n]
    {
      TargetsSnoc(edges, e, n);
    }
  }

  lemma CountsAfter<V>(edges: seq<(V, V)>, nodes: set<V>, e: (V, V))
    requires e.0 in nodes && e.1 in nodes
    ensures var counts := Counts(edges, nodes, nodes);
      Counts(edges + [e], nodes, nodes) == counts[e.1 := counts[e.1] + 1]
  {
    var counts := Counts(edges, nodes, nodes);
    var next := counts[e.1 := counts[e.1] + 1];
    forall n | n in nodes
      ensures Pending(edges + [e], nodes, n) == next[n]
    {
      PendingSnoc(edges, e, nodes, n);
    }
  }

  lemma TakeOneMore<T>(s: seq<T>, k: nat)
    requires k < |s|
    ensures s[..k + 1] == s[..k] + [s[k]]
  {
  }

  // ----- The loop -----

  /** `ready` lists, once each, the waiting nodes whose count is zero. */
  ghost predicate ReadyIsExact<V>(waiting: set<V>, indegree: map<V, int>, ready: seq<V>)
    requires waiting <= indegree.Keys
  {
    && NoDuplicates(ready)
    && (forall t :: t in ready ==> t in waiting)
    && (forall t :: t in waiting ==> (t in ready <==> indegree[t] == 0))
  }

  /** What is left to decrement: `targets` still has to be taken off `indegree` to reach `base`. */
  ghost predicate Owes<V>(indegree: map<V, int>, base: map<V, int>, targets: seq<V>) {
    && indegree.Keys == base.Keys
    && forall t :: t in base ==> base[t] >= 0 && indegree[t] == base[t] + Occurrences(targets, t)
  }

  lemma OwesNothing<V>(indegree: map<V, int>, base: map<V, int>)
    requires Owes(indegree, base, [])
    ensures indegree == base
  {
  }

  lemma PayOne<V>(waiting: set<V>, indegree: map<V, int>, base: map<V, int>, targets: seq<V>, ready: seq<V>)
    requires targets != [] && waiting <= base.Keys && targets[0] in waiting
    requires Owes(indegree, base, targets) && ReadyIsExact(waiting, indegree, ready)
    ensures var t := targets[0];
      var lower := indegree[t := indegree[t] - 1];
      && Owes(lower, base, targets[1..])
      && ReadyIsExact(waiting, lower, if lower[t] == 0 then ready + [t] else ready)
  {
    var t := targets[0];
    assert Occurrences(targets, t) >= 1;
    assert indegree[t] > 0 && t !in ready;
  }

  /** Decrements the count of every listed successor, queueing those that reach zero. */
  method Release<V(==)>(targets: seq<V>, counts: map<V, int>, queue: seq<V>, ghost waiting: set<V>, ghost base: map<V,
                        int>)
    returns (indegree: map<V, int>, ready: seq<V>)
    requires waiting <= base.Keys && forall i :: 0 <= i < |targets| ==> targets[i] in waiting
    requires Owes(counts, base, targets) && ReadyIsExact(waiting, counts, queue)
    ensures indegree == base && ReadyIsExact(waiting, base, ready)
  {
    indegree, ready := counts, queue;
    var rest := targets;
    while rest != []
      invariant forall i :: 0 <= i < |rest| ==> rest[i] in waiting
      invariant Owes(indegree, base, rest) && ReadyIsExact(waiting, indegree, ready)
    {
      PayOne(waiting, indegree, base, rest, ready);
      var target := rest[0];
      indegree := indegree[target := indegree[target] - 1];
      if indegree[target] == 0 {
        ready := ready + [target];
      }
      rest := rest[1..];
    }
    OwesNothing(indegree, base);
  }

  /** Every predecessor of a visited node was visited before it. */
  ghost predicate Ordered<V>(edges: seq<(V, V)>, nodes: set<V>, waiting: set<V>, rank: map<V, int>, visited: nat) {
    && rank.Keys == nodes - waiting
    && (forall v :: v in rank ==> rank[v] < visited)
    && (forall e :: e in edges && e.1 in rank ==> e.0 in rank && rank[e.0] < rank[e.1])
  }

  lemma RankNext<V>(edges: seq<(V, V)>, nodes: set<V>, waiting: set<V>, rank: map<V, int>, node: V, visited: nat)
    requires Within(edges, nodes) && waiting <= nodes && node in waiting
    requires Pending(edges, waiting, node) == 0
    requires Ordered(edges, nodes, waiting, rank, visited)
    ensures Ordered(edges, nodes, waiting - {node}, rank[node := visited], visited + 1)
  {
    PendingIsZero(edges, waiting, node);
    forall e | e in edges && e.1 == node
      ensures e.0 in rank
    {
      assert e == (e.0, node);
    }
  }

  /** The successors of a node about to be visited are other nodes that still wait. */
  lemma TargetsWait<V>(edges: seq<(V, V)>, nodes: set<V>, waiting: set<V>, rank: map<V, int>, node: V, visited: nat)
    requires Within(edges, nodes) && waiting <= nodes && node in waiting
    requires Pending(edges, waiting, node) == 0
    requires Ordered(edges, nodes, waiting, rank, visited)
    ensures forall i :: 0 <= i < |Targets(edges, node)| ==> Targets(edges, node)[i] in waiting - {node}
  {
    PendingIsZero(edges, waiting, node);
    forall i | 0 <= i < |Targets(edges, node)|
      ensures Targets(edges, node)[i] in waiting - {node}
    {
      TargetsAreEdges(edges, node, Targets(edges, node)[i]);
    }
  }

  lemma OwesTargets<V>(edges: seq<(V, V)>, nodes: set<V>, waiting: set<V>, node: V)
    requires node in waiting
    ensures Owes(Counts(edges, nodes, waiting), Counts(edges, nodes, waiting - {node}), Targets(edges, node))
  {
    forall t | t in nodes
      ensures Pending(edges, waiting, t) == Pending(edges, waiting - {node}, t) + Occurrences(Targets(edges, node), t)
    {
      PendingWithout(edges, waiting, node, t);
    }
  }

  lemma QueueWithoutLast<V>(waiting: set<V>, indegree: map<V, int>, queue: seq<V>)
    requires waiting <= indegree.Keys && ReadyIsExact(waiting, indegree, queue) && queue != []
    ensures var node := queue[|queue| - 1];
      && node in waiting && indegree[node] == 0
      && ReadyIsExact(waiting - {node}, indegree, queue[..|queue| - 1])
  {
    var node, rest := queue[|queue| - 1], queue[..|queue| - 1];
    assert queue == rest + [node];
    assert node in queue;
  }

  /** One turn of the loop: takes the last queued node and releases its successors. */
  method VisitOne<V(==)>(outgoing: map<V, seq<V>>, counts: map<V, int>, queue: seq<V>, visited: nat,
                         ghost edges: seq<(V, V)>, ghost nodes: set<V>, ghost waiting: set<V>, ghost rank: map<V, int>)
    returns (indegree: map<V, int>, ready: seq<V>)
    requires Within(edges, nodes) && outgoing == TargetLists(edges, nodes) && waiting <= nodes && queue != []
    requires counts == Counts(edges, nodes, waiting) && ReadyIsExact(waiting, counts, queue)
    requires Ordered(edges, nodes, waiting, rank, visited)
    ensures var node := queue[|queue| - 1];
      && node in waiting
      && indegree == Counts(edges, nodes, waiting - {node})
      && ReadyIsExact(waiting - {node}, indegree, ready)
      && Ordered(edges, nodes, waiting - {node}, rank[node := visited], visited + 1)
  {
    var node := queue[|queue| - 1];
    QueueWithoutLast(waiting, counts, queue);
    RankNext(edges, nodes, waiting, rank, node, visited);
    TargetsWait(edges, nodes, waiting, rank, node, visited);
    OwesTargets(edges, nodes, waiting, node);
    indegree, ready := Release(outgoing[node], counts, queue[..|queue| - 1], waiting - {node},
                               Counts(edges, nodes, waiting - {node}));
  }

  method InitiallyReady<V(==)>(nodes: set<V>, indegree: map<V, int>) returns (ready: seq<V>)
    requires indegree.Keys == nodes
    ensures ReadyIsExact(nodes, indegree, ready)
  {
    ready := [];
    var rest := nodes;
    while rest != {}
      invariant rest <= nodes
      invariant NoDuplicates(ready)
      invariant forall t :: t in ready <==> t in nodes - rest && indegree[t] == 0
    {
      var node :| node in rest;
      rest := rest - {node};
      if indegree[node] == 0 {
        ready := ready + [node];
      }
    }
  }

  /** Visits nodes whose predecessors have all been visited until none is left, and counts them. */
  method Visit<V(==,!new)>(nodes: set<V>, outgoing: map<V, seq<V>>, counts: map<V, int>, ghost edges: seq<(V, V)>)
    returns (visited: nat)
    requires Within(edges, nodes)
    requires outgoing == TargetLists(edges, nodes) && counts == Counts(edges, nodes, nodes)
    ensures visited <= |nodes|
    ensures visited == |nodes| <==> Acyclic(EdgeSet(edges))
  {
    var indegree := counts;
    ghost var waiting, rank: map<V, int> := nodes, map[];
    var ready := InitiallyReady(nodes, indegree);
    visited := 0;
    while ready != []
      invariant waiting <= nodes && visited + |waiting| == |nodes|
      invariant indegree == Counts(edges, nodes, waiting) && ReadyIsExact(waiting, indegree, ready)
      invariant Ordered(edges, nodes, waiting, rank, visited)
      decreases waiting
    {
      ghost var node := ready[|ready| - 1];
      indegree, ready := VisitOne(outgoing, indegree, ready, visited, edges, nodes, waiting, rank);
      rank, waiting := rank[node := visited], waiting - {node};
      visited := visited + 1;
    }
    AllVisitedIffAcyclic(edges, nodes, waiting, rank, visited);
  }

  /** At an empty queue, nothing is left waiting exactly when the graph has no cycle. */
  lemma AllVisitedIffAcyclic<V(!new)>(edges: seq<(V, V)>, nodes: set<V>, waiting: set<V>, rank: map<V, int>,
                                      visited: nat)
    requires Within(edges, nodes) && waiting <= nodes
    requires ReadyIsExact(waiting, Counts(edges, nodes, waiting), [])
    requires Ordered(edges, nodes, waiting, rank, visited)
    ensures waiting == {} <==> Acyclic(EdgeSet(edges))
  {
    if waiting == {} {
      RankedIsAcyclic(EdgeSet(edges), map v | v in rank :: 0 - rank[v]);
    } else {
      forall v | v in waiting
        ensures HasPredecessor(EdgeSet(edges), waiting, v)
      {
        PendingIsZero(edges, waiting, v);
        assert Counts(edges, nodes, waiting)[v] != 0;
        var u :| u in waiting && (u, v) in edges;
        assert (u, v) in EdgeSet(edges);
      }
      StuckSetHasCycle(EdgeSet(edges), waiting);
    }
  }
}
