/**
 The workspace dependency gate: every package has coordinates, every internal edge descends in
 layer unless the target is a declared peer of the same layer, and the internal graph is acyclic.
 */
module DependencyDiscipline {
  import opened Graph
  import Kahn
  import ActorTopology

  datatype Coordinates<V> = Missing | At(layer: int, allowPeer: set<V>)

  datatype Dependency<V> = Dependency(name: V, dev: bool, external: bool)

  datatype Package<V> = Package(name: V, coordinates: Coordinates<V>, dependencies: seq<Dependency<V>>)

  datatype Problem<V> = MissingCoordinates(name: V) | BadEdge(source: V, target: V) | Cycle

  // ----- What the gate is meant to report -----

  ghost function Names<V>(packages: seq<Package<V>>): set<V> {
    set p | p in packages :: p.name
  }

  /** Path dependencies of normal or build kind on another workspace package. */
  ghost predicate Internal<V>(packages: seq<Package<V>>, p: Package<V>, d: Dependency<V>) {
    p in packages && d in p.dependencies && !d.dev && !d.external && d.name in Names(packages)
  }

  ghost function InternalEdges<V>(packages: seq<Package<V>>): set<(V, V)> {
    set p, d | p in packages && d in p.dependencies && Internal(packages, p, d) :: (p.name, d.name)
  }

  /** Coordinates by name; a later package of the same name overwrites an earlier one. */
  ghost function Layers<V>(packages: seq<Package<V>>): map<V, Coordinates<V>> {
    if packages == [] then map[]
    else
      var last := packages[|packages| - 1];
      var before := Layers(packages[..|packages| - 1]);
      if last.coordinates.Missing? then before else before[last.name := last.coordinates]
  }

  ghost predicate Descends<V>(coords: map<V, Coordinates<V>>, u: V, v: V) {
    u in coords && v in coords && coords[u].At? && coords[v].At? && coords[u].layer > coords[v].layer
  }

  ghost predicate DeclaredPeer<V>(coords: map<V, Coordinates<V>>, u: V, v: V) {
    && u in coords && v in coords && coords[u].At? && coords[v].At?
    && coords[u].layer == coords[v].layer && v in coords[u].allowPeer
  }

  ghost predicate Reported<V(!new)>(packages: seq<Package<V>>, problem: Problem<V>) {
    match problem
    case MissingCoordinates(n) => exists p :: p in packages && p.name == n && p.coordinates.Missing?
    case BadEdge(u, v) =>
      var coords := Layers(packages);
      && (u, v) in InternalEdges(packages) && u in coords && v in coords
      && !Descends(coords, u, v) && !DeclaredPeer(coords, u, v)
    case Cycle => !Acyclic(InternalEdges(packages))
  }

  // ----- The gate -----

  lemma {:induction false} LayersAreSet<V>(packages: seq<Package<V>>, n: V)
    requires n in Layers(packages)
    ensures Layers(packages)[n].At?
  {
    if packages[|packages| - 1].coordinates.Missing? || packages[|packages| - 1].name != n {
      LayersAreSet(packages[..|packages| - 1], n);
    }
  }

  /** The packages without coordinates, in order. */
  ghost function MissingIn<V>(packages: seq<Package<V>>): seq<Problem<V>> {
    if packages == [] then []
    else
      var last := packages[|packages| - 1];
      MissingIn(packages[..|packages| - 1]) + if last.coordinates.Missing? then [MissingCoordinates(last.name)] else []
  }

  lemma {:induction false} MissingAreReported<V>(packages: seq<Package<V>>, x: Problem<V>)
    ensures x in MissingIn(packages) <==>
      exists p :: p in packages && p.coordinates.Missing? && x == MissingCoordinates(p.name)
  {
    if packages != [] {
      var init := packages[..|packages| - 1];
      MissingAreReported(init, x);
      assert packages == init + [packages[|packages| - 1]];
    }
  }

  method ReadCoordinates<V(==)>(packages: seq<Package<V>>)
    returns (coords: map<V, Coordinates<V>>, errors: seq<Problem<V>>)
    ensures coords == Layers(packages)
    ensures forall n :: n in coords ==> coords[n].At?
    ensures errors == MissingIn(packages)
  {
    coords, errors := map[], [];
    var i := 0;
    while i < |packages|
      invariant 0 <= i <= |packages|
      invariant coords == Layers(packages[..i])
      invariant errors == MissingIn(packages[..i])
    {
      assert packages[..i + 1][..i] == packages[..i];
      if packages[i].coordinates.Missing? {
        errors := errors + [MissingCoordinates(packages[i].name)];
      } else {
        coords := coords[packages[i].name := packages[i].coordinates];
      }
      i := i + 1;
    }
    assert packages[..i] == packages;
    forall n | n in coords
      ensures coords[n].At?
    {
      LayersAreSet(packages, n);
    }
  }

  ghost predicate EdgeFrom<V>(names: set<V>, p: Package<V>, count: nat, e: (V, V))
    requires count <= |p.dependencies|
  {
    exists k :: 0 <= k < count && e == (p.name, p.dependencies[k].name)
      && !p.dependencies[k].dev && !p.dependencies[k].external && p.dependencies[k].name in names
  }

  method AddPackageEdges<V(==)>(names: set<V>, p: Package<V>, before: set<(V, V)>) returns (edges: set<(V, V)>)
    ensures forall e :: e in edges <==> e in before || EdgeFrom(names, p, |p.dependencies|, e)
  {
    edges := before;
    var k := 0;
    while k < |p.dependencies|
      invariant 0 <= k <= |p.dependencies|
      invariant forall e :: e in edges <==> e in before || EdgeFrom(names, p, k, e)
    {
      var dep := p.dependencies[k];
      if !dep.dev && !dep.external && dep.name in names {
        edges := edges + {(p.name, dep.name)};
      }
      k := k + 1;
    }
  }

  method ReadEdges<V(==)>(packages: seq<Package<V>>, names: set<V>) returns (edges: set<(V, V)>)
    requires names == Names(packages)
    ensures edges == InternalEdges(packages)
  {
    edges := {};
    var i := 0;
    while i < |packages|
      invariant 0 <= i <= |packages|
      invariant forall e :: e in edges <==>
        exists k :: 0 <= k < i && EdgeFrom(names, packages[k], |packages[k].dependencies|, e)
    {
      edges := AddPackageEdges(names, packages[i], edges);
      i := i + 1;
    }
    forall e
      ensures e in edges <==> e in InternalEdges(packages)
    {
      if e in edges {
        var k :| 0 <= k < i && EdgeFrom(names, packages[k], |packages[k].dependencies|, e);
        var j :| 0 <= j < |packages[k].dependencies| && e == (packages[k].name, packages[k].dependencies[j].name)
          && !packages[k].dependencies[j].dev && !packages[k].dependencies[j].external
          && packages[k].dependencies[j].name in names;
        assert Internal(packages, packages[k], packages[k].dependencies[j]);
      }
      if e in InternalEdges(packages) {
        var p, d :| p in packages && d in p.dependencies && Internal(packages, p, d) && e == (p.name, d.name);
        var k :| 0 <= k < |packages| && packages[k] == p;
        var j :| 0 <= j < |p.dependencies| && p.dependencies[j] == d;
        assert EdgeFrom(names, packages[k], |packages[k].dependencies|, e);
      }
    }
  }

  /** The names in the order their packages first appear. */
  ghost function FirstNames<V>(packages: seq<Package<V>>): seq<V> {
    if packages == [] then []
    else
      var last := packages[|packages| - 1].name;
      var before := FirstNames(packages[..|packages| - 1]);
      if last in before then before else before + [last]
  }

  lemma {:induction false} FirstNamesAreNames<V>(packages: seq<Package<V>>)
    ensures NoDuplicates(FirstNames(packages))
    ensures forall n :: n in FirstNames(packages) <==> n in Names(packages)
  {
    if packages != [] {
      var init, last := packages[..|packages| - 1], packages[|packages| - 1];
      FirstNamesAreNames(init);
      assert packages == init + [last];
      assert Names(packages) == Names(init) + {last.name};
    }
  }

  method ReadNames<V(==)>(packages: seq<Package<V>>) returns (sources: seq<V>)
    ensures sources == FirstNames(packages)
  {
    sources := [];
    var i := 0;
    while i < |packages|
      invariant 0 <= i <= |packages|
      invariant sources == FirstNames(packages[..i])
    {
      assert packages[..i + 1][..i] == packages[..i];
      if packages[i].name !in sources {
        sources := sources + [packages[i].name];
      }
      i := i + 1;
    }
    assert packages[..i] == packages;
  }

  /** An edge between packages with coordinates that neither descends nor is a declared peer. */
  ghost predicate Bad<V>(edges: set<(V, V)>, coords: map<V, Coordinates<V>>, u: V, v: V) {
    && (u, v) in edges && u in coords && v in coords
    && !Descends(coords, u, v) && !DeclaredPeer(coords, u, v)
  }

  /** The bad edges of one package, in the order of its targets. */
  ghost function BadFrom<V>(edges: set<(V, V)>, coords: map<V, Coordinates<V>>, u: V, targets: seq<V>)
    : seq<Problem<V>>
  {
    if targets == [] then []
    else
      var last := targets[|targets| - 1];
      BadFrom(edges, coords, u, targets[..|targets| - 1])
      + if Bad(edges, coords, u, last) then [BadEdge(u, last)] else []
  }

  /** The bad edges of all packages, source by source. */
  ghost function BadIn<V>(edges: set<(V, V)>, coords: map<V, Coordinates<V>>, sources: seq<V>, targets: seq<V>)
    : seq<Problem<V>>
  {
    if sources == [] then []
    else
      BadIn(edges, coords, sources[..|sources| - 1], targets)
      + BadFrom(edges, coords, sources[|sources| - 1], targets)
  }

  lemma {:induction false} BadFromIsExact<V>(edges: set<(V, V)>, coords: map<V, Coordinates<V>>, u: V,
                                             targets: seq<V>, x: Problem<V>)
    ensures x in BadFrom(edges, coords, u, targets) <==>
      x.BadEdge? && x.source == u && x.target in targets && Bad(edges, coords, u, x.target)
  {
    if targets != [] {
      var init, last := targets[..|targets| - 1], targets[|targets| - 1];
      BadFromIsExact(edges, coords, u, init, x);
      assert targets == init + [last];
    }
  }

  lemma {:induction false} BadInIsExact<V>(edges: set<(V, V)>, coords: map<V, Coordinates<V>>, sources: seq<V>,
                                           targets: seq<V>, x: Problem<V>)
    ensures x in BadIn(edges, coords, sources, targets) <==>
      x.BadEdge? && x.source in sources && x.target in targets && Bad(edges, coords, x.source, x.target)
  {
    if sources != [] {
      var init, last := sources[..|sources| - 1], sources[|sources| - 1];
      BadInIsExact(edges, coords, init, targets, x);
      BadFromIsExact(edges, coords, last, targets, x);
      assert sources == init + [last];
    }
  }

  lemma JoinKeepsDistinct<T>(s: seq<T>, t: seq<T>)
    requires NoDuplicates(s) && NoDuplicates(t) && forall x :: x in s ==> x !in t
    ensures NoDuplicates(s + t)
  {
    forall i, j | 0 <= i < j < |s + t|
      ensures (s + t)[i] != (s + t)[j]
    {
      if i < |s| <= j {
        assert s[i] in s && t[j - |s|] in t;
      }
    }
  }

  lemma {:induction false} BadFromIsDistinct<V>(edges: set<(V, V)>, coords: map<V, Coordinates<V>>, u: V,
                                                targets: seq<V>)
    requires NoDuplicates(targets)
    ensures NoDuplicates(BadFrom(edges, coords, u, targets))
  {
    if targets != [] {
      var init, last := targets[..|targets| - 1], targets[|targets| - 1];
      BadFromIsDistinct(edges, coords, u, init);
      BadFromIsExact(edges, coords, u, init, BadEdge(u, last));
      assert last !in init;
    }
  }

  lemma {:induction false} BadInIsDistinct<V>(edges: set<(V, V)>, coords: map<V, Coordinates<V>>, sources: seq<V>,
                                              targets: seq<V>)
    requires NoDuplicates(sources) && NoDuplicates(targets)
    ensures NoDuplicates(BadIn(edges, coords, sources, targets))
  {
    if sources != [] {
      var init, last := sources[..|sources| - 1], sources[|sources| - 1];
      BadInIsDistinct(edges, coords, init, targets);
      BadFromIsDistinct(edges, coords, last, targets);
      assert last !in init;
      forall x | x in BadIn(edges, coords, init, targets)
        ensures x !in BadFrom(edges, coords, last, targets)
      {
        BadInIsExact(edges, coords, init, targets, x);
        BadFromIsExact(edges, coords, last, targets, x);
      }
      JoinKeepsDistinct(BadIn(edges, coords, init, targets), BadFrom(edges, coords, last, targets));
    }
  }

  method CheckTargets<V(==)>(edges: set<(V, V)>, coords: map<V, Coordinates<V>>, source: V, byName: seq<V>)
    returns (errors: seq<Problem<V>>)
    requires forall n :: n in coords ==> coords[n].At?
    ensures errors == BadFrom(edges, coords, source, byName)
  {
    errors := [];
    var k := 0;
    while k < |byName|
      invariant 0 <= k <= |byName|
      invariant errors == BadFrom(edges, coords, source, byName[..k])
    {
      var target := byName[k];
      assert byName[..k + 1][..k] == byName[..k];
      if (source, target) in edges && source in coords && target in coords
         && !(coords[source].layer > coords[target].layer)
         && !(coords[source].layer == coords[target].layer && target in coords[source].allowPeer)
      {
        errors := errors + [BadEdge(source, target)];
      }
      k := k + 1;
    }
    assert byName[..k] == byName;
  }

  /** Package by package, and the targets of each in the sort order of names. */
  method CheckLayers<V(==)>(edges: set<(V, V)>, coords: map<V, Coordinates<V>>, sources: seq<V>, byName: seq<V>)
    returns (errors: seq<Problem<V>>)
    requires forall n :: n in coords ==> coords[n].At?
    ensures errors == BadIn(edges, coords, sources, byName)
  {
    errors := [];
    var i := 0;
    while i < |sources|
      invariant 0 <= i <= |sources|
      invariant errors == BadIn(edges, coords, sources[..i], byName)
    {
      assert sources[..i + 1][..i] == sources[..i];
      var found := CheckTargets(edges, coords, sources[i], byName);
      errors := errors + found;
      i := i + 1;
    }
    assert sources[..i] == sources;
  }

  lemma MoveEdge<V>(order: seq<(V, V)>, edges: set<(V, V)>, rest: set<(V, V)>, e: (V, V))
    requires rest <= edges && e in rest && Kahn.EdgeSet(order) == edges - rest
    ensures Kahn.EdgeSet(order + [e]) == edges - (rest - {e})
  {
    assert Kahn.EdgeSet(order + [e]) == Kahn.EdgeSet(order) + {e};
  }

  /** Fills the target lists and counts, in whatever order the edges come. */
  method CountEdges<V(==)>(names: set<V>, edges: set<(V, V)>)
    returns (outgoing: map<V, seq<V>>, indegree: map<V, int>, ghost order: seq<(V, V)>)
    requires forall e :: e in edges ==> e.0 in names && e.1 in names
    ensures Kahn.EdgeSet(order) == edges
    ensures outgoing == Kahn.TargetLists(order, names) && indegree == Kahn.Counts(order, names, names)
  {
    outgoing := map n | n in names :: [];
    indegree := map n | n in names :: 0;
    order := [];
    var rest := edges;
    while rest != {}
      invariant rest <= edges && Kahn.EdgeSet(order) == edges - rest
      invariant outgoing == Kahn.TargetLists(order, names) && indegree == Kahn.Counts(order, names, names)
    {
      var e :| e in rest;
      MoveEdge(order, edges, rest, e);
      rest := rest - {e};
      Kahn.ListsAfter(order, names, e);
      Kahn.CountsAfter(order, names, e);
      outgoing := outgoing[e.0 := outgoing[e.0] + [e.1]];
      indegree := indegree[e.1 := indegree[e.1] + 1];
      order := order + [e];
    }
  }

  /** Counts the edges into every package and runs the visiting loop over all of them. */
  method CheckCycle<V(==,!new)>(names: set<V>, edges: set<(V, V)>) returns (acyclic: bool)
    requires forall e :: e in edges ==> e.0 in names && e.1 in names
    ensures acyclic <==> Acyclic(edges)
  {
    ghost var order: seq<(V, V)>;
    var outgoing, indegree;
    outgoing, indegree, order := CountEdges(names, edges);
    assert forall e :: e in order ==> e in Kahn.EdgeSet(order);
    var visited := Kahn.Visit(names, outgoing, indegree, order);
    acyclic := visited == |names|;
  }

  /** Missing coordinates in package order, then each bad edge once, then the cycle. */
  ghost predicate IsReport<V(!new)>(packages: seq<Package<V>>, bad: seq<Problem<V>>, errors: seq<Problem<V>>) {
    && errors == MissingIn(packages) + bad + (if Acyclic(InternalEdges(packages)) then [] else [Cycle])
    && NoDuplicates(bad) && forall x :: x in bad <==> x.BadEdge? && Reported(packages, x)
  }

  /** `byName` lists the package names, each once: the order that sorting targets by name follows. */
  ghost predicate ListsNames<V>(packages: seq<Package<V>>, byName: seq<V>) {
    NoDuplicates(byName) && (set n | n in byName) == Names(packages)
  }

  ghost function BadEdges<V>(packages: seq<Package<V>>, byName: seq<V>): seq<Problem<V>> {
    BadIn(InternalEdges(packages), Layers(packages), FirstNames(packages), byName)
  }

  lemma BadEdgesAreReported<V(!new)>(packages: seq<Package<V>>, byName: seq<V>)
    requires ListsNames(packages, byName)
    ensures NoDuplicates(BadEdges(packages, byName))
    ensures forall x :: x in BadEdges(packages, byName) <==> x.BadEdge? && Reported(packages, x)
  {
    FirstNamesAreNames(packages);
    var edges, coords, sources := InternalEdges(packages), Layers(packages), FirstNames(packages);
    BadInIsDistinct(edges, coords, sources, byName);
    forall x
      ensures x in BadEdges(packages, byName) <==> x.BadEdge? && Reported(packages, x)
    {
      BadInIsExact(edges, coords, sources, byName, x);
    }
  }

  /** The gate reports exactly the problems the declared discipline names, in one order. */
  method Check<V(==,!new)>(packages: seq<Package<V>>, byName: seq<V>) returns (errors: seq<Problem<V>>)
    requires ListsNames(packages, byName)
    ensures forall x :: x in errors <==> Reported(packages, x)
    ensures IsReport(packages, BadEdges(packages, byName), errors)
  {
    var names := set p | p in packages :: p.name;
    var coords, missing := ReadCoordinates(packages);
    var edges := ReadEdges(packages, names);
    var sources := ReadNames(packages);
    var bad := CheckLayers(edges, coords, sources, byName);
    var acyclic := CheckCycle(names, edges);
    errors := missing + bad + if acyclic then [] else [Cycle];
    BadEdgesAreReported(packages, byName);
    assert IsReport(packages, bad, errors);
    ReportIsComplete(packages, bad, errors);
  }

  lemma ReportIsComplete<V(!new)>(packages: seq<Package<V>>, bad: seq<Problem<V>>, errors: seq<Problem<V>>)
    requires IsReport(packages, bad, errors)
    ensures forall x :: x in errors <==> Reported(packages, x)
  {
    forall x
      ensures x in errors <==> Reported(packages, x)
    {
      MissingAreReported(packages, x);
    }
  }

  /** Strict descent everywhere leaves no cycle to find. */
  lemma StrictLayersAreAcyclic<V(!new)>(packages: seq<Package<V>>)
    requires forall e :: e in InternalEdges(packages) ==> Descends(Layers(packages), e.0, e.1)
    ensures !Reported(packages, Cycle)
  {
    var coords := Layers(packages);
    RankedIsAcyclic(InternalEdges(packages), map n | n in coords :: if coords[n].At? then coords[n].layer else 0);
  }

  /** A package that depends on itself is always reported, whatever its peers list says. */
  lemma SelfDependencyIsReported<V(!new)>(packages: seq<Package<V>>, p: Package<V>, d: Dependency<V>)
    requires Internal(packages, p, d) && d.name == p.name
    ensures Reported(packages, Cycle)
  {
    assert (p.name, p.name) in InternalEdges(packages);
    ActorTopology.SelfEdgeIsCycle(InternalEdges(packages), p.name);
  }

  /** Along a walk of edges that pass the layer check, layers never rise. */
  lemma {:induction false} WalkNeverRises<V>(edges: set<(V, V)>, coords: map<V, Coordinates<V>>, p: seq<V>, i: nat)
    requires forall e :: e in edges ==> Descends(coords, e.0, e.1) || DeclaredPeer(coords, e.0, e.1)
    requires |p| >= 2 && IsWalk(edges, p) && i < |p|
    ensures forall k :: 0 <= k < |p| ==> p[k] in coords && coords[p[k]].At?
    ensures coords[p[0]].layer >= coords[p[i]].layer >= coords[p[|p| - 1]].layer
  {
    assert (p[0], p[1]) in edges;
    if |p| > 2 {
      var q := p[1..];
      forall k | 0 <= k < |q| - 1
        ensures (q[k], q[k + 1]) in edges
      {
        assert (p[k + 1], p[k + 2]) in edges;
      }
      WalkNeverRises(edges, coords, q, if i == 0 then 0 else i - 1);
      forall k | 0 <= k < |p|
        ensures p[k] in coords && coords[p[k]].At?
      {
        if k > 0 {
          assert p[k] == q[k - 1];
        }
      }
    }
  }

  /** When every edge passes the layer check, a cycle uses declared peer edges only. */
  lemma CyclesAreDeclaredPeers<V>(edges: set<(V, V)>, coords: map<V, Coordinates<V>>, p: seq<V>, i: nat)
    requires forall e :: e in edges ==> Descends(coords, e.0, e.1) || DeclaredPeer(coords, e.0, e.1)
    requires |p| >= 2 && WalkBetween(edges, p, p[0], p[0]) && i < |p| - 1
    ensures DeclaredPeer(coords, p[i], p[i + 1])
  {
    WalkNeverRises(edges, coords, p, i);
    WalkNeverRises(edges, coords, p, i + 1);
    assert (p[i], p[i + 1]) in edges;
  }
}
