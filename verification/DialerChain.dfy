/**
 Validation of chained dialers. Every node names at most one dialer, so the references form a
 functional graph; a walk from each node colours it Visiting and then Complete.
 */
module DialerChain {
  import opened Common
  import opened Graph

  datatype DialableNode<Id> = DialableNode(id: Id, dialer: Option<Id>)

  datatype ChainError<Id> = MissingDependency(node: Id, dependency: Id) | Cycle(node: Id)

  datatype Outcome<Id> = Valid | Invalid(error: ChainError<Id>)

  datatype Visit = Visiting | Complete

  type Dependencies<Id> = map<Id, Option<Id>>

  /** A later node with the same id replaces an earlier one. */
  function Collect<Id(==)>(nodes: seq<DialableNode<Id>>): Dependencies<Id> {
    if nodes == [] then map[]
    else Collect(nodes[..|nodes| - 1])[nodes[|nodes| - 1].id := nodes[|nodes| - 1].dialer]
  }

  ghost function DialEdges<Id>(deps: Dependencies<Id>): set<(Id, Id)> {
    set n | n in deps && deps[n].Some? :: (n, deps[n].value)
  }

  ghost predicate NoneMissing<Id>(deps: Dependencies<Id>) {
    forall n :: n in deps && deps[n].Some? ==> deps[n].value in deps
  }

  // ----- Colours -----

  /** Nodes with a depth pass it, lowered, to the node they dial through. */
  ghost predicate Settled<Id>(deps: Dependencies<Id>, depth: map<Id, int>) {
    && depth.Keys <= deps.Keys
    && forall n :: n in depth && deps[n].Some? ==> deps[n].value in depth && depth[deps[n].value] < depth[n]
  }

  /** The nodes entered by the current walk follow one dialer reference after another. */
  ghost predicate Linked<Id>(deps: Dependencies<Id>, path: seq<Id>, current: Option<Id>) {
    && (forall i :: 0 <= i < |path| ==> path[i] in deps)
    && (forall i :: 0 <= i < |path| - 1 ==> deps[path[i]] == Some(path[i + 1]))
    && (path != [] ==> deps[path[|path| - 1]] == current)
  }

  /** Settled nodes are Complete, nodes of the current walk are Visiting, and no others are coloured. */
  ghost predicate Coloured<Id>(visits: map<Id, Visit>, depth: map<Id, int>, path: seq<Id>) {
    && (forall n :: n in visits ==> n in depth || n in path)
    && (forall n :: n in depth ==> n in visits && visits[n] == Complete)
    && (forall n :: n in path ==> n in visits && visits[n] == Visiting)
  }

  lemma PathClosesCycle<Id(!new)>(deps: Dependencies<Id>, path: seq<Id>, node: Id)
    requires Linked(deps, path, Some(node)) && node in path
    ensures OnCycle(DialEdges(deps), node)
  {
    var i :| 0 <= i < |path| && path[i] == node;
    var p := path[i..] + [node];
    forall k | 0 <= k < |p| - 1
      ensures (p[k], p[k + 1]) in DialEdges(deps)
    {
      assert p[k] == path[i + k];
      if k + 1 < |path| - i {
        assert p[k + 1] == path[i + k + 1];
      }
      assert deps[p[k]] == Some(p[k + 1]);
    }
    assert |p| >= 2 && WalkBetween(DialEdges(deps), p, node, node);
  }

  lemma LinkNext<Id>(deps: Dependencies<Id>, path: seq<Id>, node: Id)
    requires Linked(deps, path, Some(node)) && node in deps
    ensures Linked(deps, path + [node], deps[node])
  {
    var longer := path + [node];
    forall i | 0 <= i < |longer| - 1
      ensures deps[longer[i]] == Some(longer[i + 1])
    {
      if i < |path| - 1 {
        assert longer[i + 1] == path[i + 1];
      }
    }
  }

  /** A walk that ends at no dialer or at a settled node can be settled, last node first. */
  lemma {:induction false} SettlePath<Id>(deps: Dependencies<Id>, path: seq<Id>, current: Option<Id>, depth: map<Id,
                                          int>)
    returns (depth': map<Id, int>)
    requires Linked(deps, path, current) && NoDuplicates(path) && Settled(deps, depth)
    requires forall n :: n in path ==> n !in depth
    requires current.Some? ==> current.value in depth
    ensures Settled(deps, depth') && depth'.Keys == depth.Keys + (set n | n in path)
    decreases |path|
  {
    if path == [] {
      depth' := depth;
    } else {
      var last, init := path[|path| - 1], path[..|path| - 1];
      assert path == init + [last];
      var d := if current.Some? then depth[current.value] + 1 else 0;
      depth' := SettlePath(deps, init, Some(last), depth[last := d]);
    }
  }

  // ----- The walks -----

  /** Outcome of a walk, the colours after it, and the nodes it coloured Visiting, in order. */
  method WalkChain<Id(==,!new)>(start: Id, deps: Dependencies<Id>, before: map<Id, Visit>, ghost depth: map<Id, int>)
    returns (outcome: Outcome<Id>, visits: map<Id, Visit>, ghost entered: seq<Id>, ghost depth': map<Id, int>)
    requires start in deps && NoneMissing(deps) && Settled(deps, depth) && Coloured(before, depth, [])
    ensures outcome.Valid? ==> Settled(deps, depth') && Coloured(visits, depth', []) && start in depth'
    ensures outcome.Valid? ==> depth'.Keys == depth.Keys + (set n | n in entered)
    ensures outcome.Invalid? ==> outcome.error.Cycle? && OnCycle(DialEdges(deps), outcome.error.node)
    ensures NoDuplicates(entered) && forall n :: n in entered ==> n !in depth && n in deps
  {
    visits, entered, depth' := before, [], depth;
    if start in visits && visits[start] == Complete {
      return Valid, visits, entered, depth';
    }
    var path: seq<Id> := [];
    var current: Option<Id> := Some(start);
    while current.Some?
      invariant current.Some? ==> current.value in deps
      invariant Linked(deps, path, current) && NoDuplicates(path) && Coloured(visits, depth, path)
      invariant forall n :: n in path ==> n !in depth && n in deps
      invariant current == Some(start) || start in path
      decreases deps.Keys - visits.Keys
    {
      var node := current.value;
      if node in visits {
        if visits[node] == Visiting {
          PathClosesCycle(deps, path, node);
          return Invalid(Cycle(node)), visits, path, depth';
        }
        break;
      }
      LinkNext(deps, path, node);
      assert node in deps.Keys - visits.Keys && node !in deps.Keys - visits[node := Visiting].Keys;
      visits := visits[node := Visiting];
      path := path + [node];
      current := deps[node];
    }
    depth' := SettlePath(deps, path, current, depth);
    entered := path;
    visits := CompleteAll(visits, path, depth, depth');
    outcome := Valid;
  }

  /** The final loop of a walk. */
  method CompleteAll<Id(==)>(before: map<Id, Visit>, path: seq<Id>, ghost depth: map<Id, int>, ghost depth': map<Id,
                             int>)
    returns (visits: map<Id, Visit>)
    requires Coloured(before, depth, path) && depth'.Keys == depth.Keys + (set n | n in path)
    ensures Coloured(visits, depth', [])
  {
    visits := before;
    var i := 0;
    while i < |path|
      invariant 0 <= i <= |path|
      invariant visits.Keys == before.Keys
      invariant forall n :: n in depth ==> visits[n] == Complete
      invariant forall k :: 0 <= k < i ==> visits[path[k]] == Complete
    {
      visits := visits[path[i] := Complete];
      i := i + 1;
    }
  }

  /** The keys of the map in the order it is walked. */
  ghost predicate IsOrderOf<Id>(keys: seq<Id>, deps: Dependencies<Id>) {
    NoDuplicates(keys) && (forall n :: n in keys ==> n in deps) && forall n :: n in deps ==> n in keys
  }

  ghost predicate Misses<Id>(deps: Dependencies<Id>, n: Id) {
    n in deps && deps[n].Some? && deps[n].value !in deps
  }

  /** The pre-check for references outside the map: the first of them in key order. */
  method FindMissing<Id(==)>(deps: Dependencies<Id>, keys: seq<Id>) returns (missing: Option<(Id, Id)>)
    requires IsOrderOf(keys, deps)
    ensures missing.None? <==> NoneMissing(deps)
    ensures missing.Some? ==> exists k :: 0 <= k < |keys| && IsFirstMissing(deps, keys, k, missing.value)
  {
    for i := 0 to |keys|
      invariant forall k :: 0 <= k < i ==> !Misses(deps, keys[k])
    {
      var node := keys[i];
      if deps[node].Some? && deps[node].value !in deps {
        assert IsFirstMissing(deps, keys, i, (node, deps[node].value));
        return Some((node, deps[node].value));
      }
    }
    forall n | n in deps && deps[n].Some?
      ensures deps[n].value in deps
    {
      assert n in keys && !Misses(deps, n);
    }
    missing := None;
  }

  ghost predicate IsFirstMissing<Id>(deps: Dependencies<Id>, keys: seq<Id>, k: nat, missing: (Id, Id))
    requires k < |keys|
  {
    && Misses(deps, keys[k]) && missing == (keys[k], deps[keys[k]].value)
    && forall j :: 0 <= j < k ==> !Misses(deps, keys[j])
  }

  /** The errors a run may report: the first missing dialer, or else a node on a cycle. */
  ghost predicate IsFault<Id(!new)>(deps: Dependencies<Id>, keys: seq<Id>, error: ChainError<Id>) {
    match error
    case MissingDependency(node, dependency) =>
      exists k :: 0 <= k < |keys| && IsFirstMissing(deps, keys, k, (node, dependency))
    case Cycle(node) => NoneMissing(deps) && OnCycle(DialEdges(deps), node)
  }

  /** Accepts exactly the node lists without missing dialers and without dialer cycles. */
  method ValidateChains<Id(==,!new)>(nodes: seq<DialableNode<Id>>, keys: seq<Id>)
    returns (outcome: Outcome<Id>, ghost entered: seq<Id>)
    requires IsOrderOf(keys, Collect(nodes))
    ensures var deps := Collect(nodes);
      && (outcome.Valid? <==> NoneMissing(deps) && Acyclic(DialEdges(deps)))
      && (outcome.Invalid? ==> IsFault(deps, keys, outcome.error))
    ensures NoDuplicates(entered) && forall n :: n in entered ==> n in Collect(nodes)
  {
    var deps := Collect(nodes);
    entered := [];
    var missing := FindMissing(deps, keys);
    if missing.Some? {
      return Invalid(MissingDependency(missing.value.0, missing.value.1)), entered;
    }
    var visits: map<Id, Visit> := map[];
    ghost var depth: map<Id, int> := map[];
    for i := 0 to |keys|
      invariant Settled(deps, depth) && Coloured(visits, depth, [])
      invariant forall k :: 0 <= k < i ==> keys[k] in depth
      invariant NoDuplicates(entered) && (set n | n in entered) == depth.Keys
    {
      ghost var more: seq<Id>;
      outcome, visits, more, depth := WalkChain(keys[i], deps, visits, depth);
      AppendNew(entered, more);
      entered := entered + more;
      if outcome.Invalid? {
        return;
      }
    }
    RankedIsAcyclic(DialEdges(deps), depth);
    outcome := Valid;
  }

  lemma AppendNew<T>(s: seq<T>, r: seq<T>)
    requires NoDuplicates(s) && NoDuplicates(r) && forall x :: x in r ==> x !in s
    ensures NoDuplicates(s + r)
    ensures (set x | x in s + r) == (set x | x in s) + (set x | x in r)
  {
    forall i, j | 0 <= i < j < |s + r|
      ensures (s + r)[i] != (s + r)[j]
    {
      if i < |s| <= j {
        assert r[j - |s|] in r && s[i] in s;
      }
    }
  }
}
