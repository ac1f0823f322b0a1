/**
 Walks, reachability and cycles in a finite directed graph given as a set of edges.
 The three graph algorithms of the repository are specified against these definitions.
 */
module Graph {

  /** Consecutive elements of `p` are joined by edges. */
  ghost predicate IsWalk<V>(edges: set<(V, V)>, p: seq<V>) {
    forall i :: 0 <= i < |p| - 1 ==> (p[i], p[i + 1]) in edges
  }

  /** `p` is a walk from `a` to `b`; the one-element walk has no edges. */
  ghost predicate WalkBetween<V>(edges: set<(V, V)>, p: seq<V>, a: V, b: V) {
    && |p| >= 1
    && p[0] == a
    && p[|p| - 1] == b
    && IsWalk(edges, p)
  }

  ghost predicate Reaches<V(!new)>(edges: set<(V, V)>, a: V, b: V) {
    exists p :: WalkBetween(edges, p, a, b)
  }

  /** A closed walk with at least one edge goes through `v`. */
  ghost predicate OnCycle<V(!new)>(edges: set<(V, V)>, v: V) {
    exists p :: |p| >= 2 && WalkBetween(edges, p, v, v)
  }

  ghost predicate Acyclic<V(!new)>(edges: set<(V, V)>) {
    forall v :: !OnCycle(edges, v)
  }

  ghost predicate NoDuplicates<V>(s: seq<V>) {
    forall i, j :: 0 <= i < j < |s| ==> s[i] != s[j]
  }

  // ----- Ranks: a number that drops along every edge excludes cycles -----

  ghost predicate Lowers<V>(edges: set<(V, V)>, rank: map<V, int>) {
    forall e :: e in edges ==> e.0 in rank && e.1 in rank && rank[e.0] > rank[e.1]
  }

  lemma {:induction false} WalkDescends<V>(edges: set<(V, V)>, rank: map<V, int>, p: seq<V>)
    requires Lowers(edges, rank)
    requires |p| >= 2 && IsWalk(edges, p)
    ensures p[0] in rank && p[|p| - 1] in rank && rank[p[0]] > rank[p[|p| - 1]]
  {
    assert (p[0], p[1]) in edges;
    if |p| > 2 {
      var q := p[1..];
      forall i | 0 <= i < |q| - 1
        ensures (q[i], q[i + 1]) in edges
      {
        assert (p[i + 1], p[i + 2]) in edges;
      }
      WalkDescends(edges, rank, q);
    }
  }

  lemma RankedIsAcyclic<V(!new)>(edges: set<(V, V)>, rank: map<V, int>)
    requires Lowers(edges, rank)
    ensures Acyclic(edges)
  {
    forall v
      ensures !OnCycle(edges, v)
    {
      if OnCycle(edges, v) {
        var p :| |p| >= 2 && WalkBetween(edges, p, v, v);
        WalkDescends(edges, rank, p);
        assert false;
      }
    }
  }

  // ----- Pigeonhole: a finite set without a source contains a cycle -----

  lemma {:induction false} Pigeonhole<V>(p: seq<V>, s: set<V>) returns (i: nat, j: nat)
    requires forall k :: 0 <= k < |p| ==> p[k] in s
    requires |p| > |s|
    ensures i < j < |p| && p[i] == p[j]
    decreases |p|
  {
    if k :| 1 <= k < |p| && p[k] == p[0] {
      i, j := 0, k;
    } else {
      var rest, others := p[1..], s - {p[0]};
      assert p[0] in s && |others| == |s| - 1;
      forall k | 0 <= k < |rest|
        ensures rest[k] in others
      {
        assert rest[k] == p[k + 1];
      }
      i, j := Pigeonhole(rest, others);
      i, j := i + 1, j + 1;
    }
  }

  ghost predicate HasPredecessor<V>(edges: set<(V, V)>, s: set<V>, v: V) {
    exists u :: u in s && (u, v) in edges
  }

  /** Every vertex of `s` has a predecessor in `s`. */
  ghost predicate NoSource<V>(edges: set<(V, V)>, s: set<V>) {
    forall v {:trigger HasPredecessor(edges, s, v)} :: v in s ==> HasPredecessor(edges, s, v)
  }

  lemma {:induction false} BackwardWalk<V>(edges: set<(V, V)>, s: set<V>, v: V, n: nat) returns (p: seq<V>)
    requires NoSource(edges, s) && v in s
    ensures |p| == n + 1 && IsWalk(edges, p) && p[|p| - 1] == v
    ensures forall k :: 0 <= k < |p| ==> p[k] in s
  {
    if n == 0 {
      p := [v];
    } else {
      assert HasPredecessor(edges, s, v);
      var u :| u in s && (u, v) in edges;
      var q := BackwardWalk(edges, s, u, n - 1);
      p := q + [v];
      forall i | 0 <= i < |p| - 1
        ensures (p[i], p[i + 1]) in edges
      {
        if i < |q| - 1 {
          assert (q[i], q[i + 1]) in edges;
        }
      }
    }
  }

  lemma StuckSetHasCycle<V(!new)>(edges: set<(V, V)>, s: set<V>)
    requires s != {} && NoSource(edges, s)
    ensures !Acyclic(edges)
  {
    var v :| v in s;
    var p := BackwardWalk(edges, s, v, |s|);
    var i, j := Pigeonhole(p, s);
    SubWalk(edges, p, i, j);
    assert OnCycle(edges, p[i]);
  }

  lemma SubWalk<V>(edges: set<(V, V)>, p: seq<V>, i: nat, j: nat)
    requires IsWalk(edges, p) && i <= j < |p|
    ensures WalkBetween(edges, p[i..j + 1], p[i], p[j])
  {
    var q := p[i..j + 1];
    forall k | 0 <= k < |q| - 1
      ensures (q[k], q[k + 1]) in edges
    {
      assert (p[i + k], p[i + k + 1]) in edges;
    }
  }

  // ----- Reachability -----

  /** A set closed under edges cannot be left. */
  ghost predicate Closed<V>(edges: set<(V, V)>, s: set<V>) {
    forall e :: e in edges && e.0 in s ==> e.1 in s
  }

  lemma {:induction false} ClosedTraps<V>(edges: set<(V, V)>, s: set<V>, p: seq<V>)
    requires Closed(edges, s) && |p| >= 1 && IsWalk(edges, p) && p[0] in s
    ensures p[|p| - 1] in s
  {
    if |p| > 1 {
      assert (p[0], p[1]) in edges;
      SubWalk(edges, p, 1, |p| - 1);
      assert p[1..|p|] == p[1..];
      ClosedTraps(edges, s, p[1..]);
    }
  }

  lemma ClosedSeparates<V(!new)>(edges: set<(V, V)>, s: set<V>, a: V, b: V)
    requires Closed(edges, s) && a in s && b !in s
    ensures !Reaches(edges, a, b)
  {
    if Reaches(edges, a, b) {
      var p :| WalkBetween(edges, p, a, b);
      ClosedTraps(edges, s, p);
      assert false;
    }
  }

  lemma ReachesSelf<V(!new)>(edges: set<(V, V)>, a: V)
    ensures Reaches(edges, a, a)
  {
    assert WalkBetween(edges, [a], a, a);
  }

  lemma PrependEdge<V>(edges: set<(V, V)>, a: V, q: seq<V>)
    requires |q| >= 1 && (a, q[0]) in edges && IsWalk(edges, q)
    ensures IsWalk(edges, [a] + q)
  {
    var p := [a] + q;
    forall i | 0 <= i < |p| - 1
      ensures (p[i], p[i + 1]) in edges
    {
      if i > 0 {
        assert (q[i - 1], q[i]) in edges;
      }
    }
  }

  lemma EdgeThenReaches<V(!new)>(edges: set<(V, V)>, a: V, b: V, c: V)
    requires (a, b) in edges && Reaches(edges, b, c)
    ensures Reaches(edges, a, c)
  {
    var q :| WalkBetween(edges, q, b, c);
    PrependEdge(edges, a, q);
    assert WalkBetween(edges, [a] + q, a, c);
  }

  /** An edge lies on a cycle exactly when its head reaches its tail. */
  lemma EdgeOnCycle<V(!new)>(edges: set<(V, V)>, a: V, b: V)
    requires (a, b) in edges
    ensures Reaches(edges, b, a) <==> exists p :: |p| >= 2 && WalkBetween(edges, p, a, a) && p[1] == b
  {
    if Reaches(edges, b, a) {
      var q :| WalkBetween(edges, q, b, a);
      PrependEdge(edges, a, q);
      var p := [a] + q;
      assert |p| >= 2 && WalkBetween(edges, p, a, a) && p[1] == b;
    }
    if exists p :: |p| >= 2 && WalkBetween(edges, p, a, a) && p[1] == b {
      var p :| |p| >= 2 && WalkBetween(edges, p, a, a) && p[1] == b;
      SubWalk(edges, p, 1, |p| - 1);
      assert WalkBetween(edges, p[1..|p|], b, a);
    }
  }
}
