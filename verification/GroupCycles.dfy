/**
 Cycle marking in the entry tree: a group member slot is flagged when the group it names
 references the owner back, directly or through other groups. Group lists may be cyclic, name
 missing groups and declare a name twice; a name then means the first group declared under it.
 */
module GroupCycles {
  import opened Common
  import opened Graph

  datatype Member<V> = Node(name: V) | Group(name: V) | Builtin(name: V) | Unknown(name: V)

  datatype TreeGroup<V> = TreeGroup(name: V, members: seq<Member<V>>)

  /** The first group declared under `name`. */
  function FirstNamed<V(==)>(groups: seq<TreeGroup<V>>, name: V): (r: Option<TreeGroup<V>>)
    ensures r.Some? ==> r.value in groups && r.value.name == name
    ensures r.None? <==> forall g :: g in groups ==> g.name != name
  {
    if groups == [] then None
    else if groups[0].name == name then Some(groups[0])
    else
      assert groups == [groups[0]] + groups[1..];
      FirstNamed(groups[1..], name)
  }

  /** References from a group name to the group names in its member slots. */
  ghost function References<V>(groups: seq<TreeGroup<V>>): set<(V, V)> {
    set g, m | g in groups && m in g.members && m.Group? && FirstNamed(groups, g.name) == Some(g) :: (g.name, m.name)
  }

  ghost function GroupNames<V>(groups: seq<TreeGroup<V>>): set<V> {
    set g | g in groups :: g.name
  }

  /** Every name seen since `before`, except `open`, is not the target and has all its references seen. */
  ghost predicate Explored<V>(groups: seq<TreeGroup<V>>, before: set<V>, seen: set<V>, target: V, open: set<V>) {
    && before <= seen
    && (forall v :: v in seen && v !in before && v !in open ==> v != target)
    && (forall e :: e in References(groups) && e.0 in seen && e.0 !in before && e.0 !in open ==> e.1 in seen)
  }

  /** The recursive walk; `seen` comes back enlarged. */
  method ReachesBack<V(==,!new)>(groups: seq<TreeGroup<V>>, from: V, target: V, before: set<V>)
    returns (hit: bool, seen: set<V>)
    ensures before <= seen
    ensures hit ==> Reaches(References(groups), from, target)
    ensures !hit ==> from in seen && from != target && Explored(groups, before, seen, target, {})
    decreases GroupNames(groups) - before
  {
    seen := before;
    if from == target {
      ReachesSelf(References(groups), from);
      return true, seen;
    }
    if from in seen {
      return false, seen;
    }
    seen := seen + {from};
    var found := FirstNamed(groups, from);
    if found.None? {
      return false, seen;
    }
    hit, seen := AnyMemberReaches(groups, found.value, target, before);
  }

  /** The loop over the member slots of the group `from` names. */
  method AnyMemberReaches<V(==,!new)>(groups: seq<TreeGroup<V>>, group: TreeGroup<V>, target: V, before: set<V>)
    returns (hit: bool, seen: set<V>)
    requires FirstNamed(groups, group.name) == Some(group) && group.name !in before && group.name != target
    ensures before <= seen && group.name in seen
    ensures hit ==> Reaches(References(groups), group.name, target)
    ensures !hit ==> Explored(groups, before, seen, target, {})
    decreases GroupNames(groups) - before, 0
  {
    seen := before + {group.name};
    var i := 0;
    while i < |group.members|
      invariant 0 <= i <= |group.members|
      invariant before <= seen && group.name in seen
      invariant Explored(groups, before, seen, target, {group.name})
      invariant forall k :: 0 <= k < i && group.members[k].Group? ==> group.members[k].name in seen
    {
      var member := group.members[i];
      if member.Group? {
        ghost var earlier := seen;
        hit, seen := ReachesBack(groups, member.name, target, seen);
        if hit {
          assert (group.name, member.name) in References(groups);
          EdgeThenReaches(References(groups), group.name, member.name, target);
          return;
        }
        ExploredFurther(groups, before, earlier, seen, target, {group.name});
      }
      i := i + 1;
    }
    hit := false;
    CloseOwner(groups, group, before, seen, target);
  }

  lemma ExploredFurther<V>(groups: seq<TreeGroup<V>>, before: set<V>, middle: set<V>, seen: set<V>, target: V,
                           open: set<V>)
    requires Explored(groups, before, middle, target, open) && Explored(groups, middle, seen, target, {})
    ensures Explored(groups, before, seen, target, open)
  {
  }

  lemma CloseOwner<V>(groups: seq<TreeGroup<V>>, group: TreeGroup<V>, before: set<V>, seen: set<V>, target: V)
    requires FirstNamed(groups, group.name) == Some(group) && group.name in seen && group.name != target
    requires Explored(groups, before, seen, target, {group.name})
    requires forall k :: 0 <= k < |group.members| && group.members[k].Group? ==> group.members[k].name in seen
    ensures Explored(groups, before, seen, target, {})
  {
    forall e | e in References(groups) && e.0 == group.name
      ensures e.1 in seen
    {
      var g, m :| g in groups && m in g.members && m.Group? && FirstNamed(groups, g.name) == Some(g)
        && e == (g.name, m.name);
      var k :| 0 <= k < |group.members| && group.members[k] == m;
    }
  }

  /** Started with nothing seen, the walk answers exactly whether a chain of references leads back. */
  method ReferencesBack<V(==,!new)>(groups: seq<TreeGroup<V>>, from: V, target: V) returns (hit: bool)
    ensures hit <==> Reaches(References(groups), from, target)
  {
    ghost var seen: set<V>;
    hit, seen := ReachesBack(groups, from, target, {});
    if !hit {
      ClosedSeparates(References(groups), seen, from, target);
    }
  }

  ghost predicate Flagged<V(!new)>(groups: seq<TreeGroup<V>>, owner: TreeGroup<V>, slot: nat)
    requires slot < |owner.members|
  {
    owner.members[slot].Group? && Reaches(References(groups), owner.members[slot].name, owner.name)
  }

  method OwnerFlags<V(==,!new)>(groups: seq<TreeGroup<V>>, owner: TreeGroup<V>) returns (flags: seq<bool>)
    ensures |flags| == |owner.members|
    ensures forall j :: 0 <= j < |flags| ==> (flags[j] <==> Flagged(groups, owner, j))
  {
    flags := seq(|owner.members|, _ => false);
    var j := 0;
    while j < |owner.members|
      invariant 0 <= j <= |owner.members| == |flags|
      invariant forall k :: 0 <= k < j ==> (flags[k] <==> Flagged(groups, owner, k))
      invariant forall k :: j <= k < |flags| ==> !flags[k]
    {
      if owner.members[j].Group? {
        var back := ReferencesBack(groups, owner.members[j].name, owner.name);
        if back {
          flags := flags[j := true];
        }
      }
      j := j + 1;
    }
  }

  /** Flags exactly the group slots from which the references lead back to the owner's name. */
  method MemberCycles<V(==,!new)>(groups: seq<TreeGroup<V>>) returns (cycles: seq<seq<bool>>)
    ensures |cycles| == |groups|
    ensures forall i :: 0 <= i < |groups| ==> |cycles[i]| == |groups[i].members|
    ensures forall i, j :: 0 <= i < |groups| && 0 <= j < |groups[i].members| ==>
      (cycles[i][j] <==> Flagged(groups, groups[i], j))
  {
    cycles := [];
    for i := 0 to |groups|
      invariant |cycles| == i
      invariant forall k :: 0 <= k < i ==> |cycles[k]| == |groups[k].members|
      invariant forall k, j :: 0 <= k < i && 0 <= j < |groups[k].members| ==>
        (cycles[k][j] <==> Flagged(groups, groups[k], j))
    {
      var flags := OwnerFlags(groups, groups[i]);
      cycles := cycles + [flags];
    }
  }

  /** A cycle of references that leaves the owner's name by the slot. */
  ghost predicate TakesSlot<V>(groups: seq<TreeGroup<V>>, owner: TreeGroup<V>, slot: nat, p: seq<V>)
    requires slot < |owner.members|
  {
    |p| >= 2 && WalkBetween(References(groups), p, owner.name, owner.name) && p[1] == owner.members[slot].name
  }

  /** Every group slot starts a cycle exactly when it is flagged and its owner's name refers by it. */
  lemma FlaggedIsOnCycle<V(!new)>(groups: seq<TreeGroup<V>>, owner: TreeGroup<V>, slot: nat)
    requires slot < |owner.members| && owner.members[slot].Group?
    ensures (exists p :: TakesSlot(groups, owner, slot, p)) <==>
      Flagged(groups, owner, slot) && (owner.name, owner.members[slot].name) in References(groups)
  {
    var edges, name := References(groups), owner.members[slot].name;
    if (owner.name, name) in edges {
      EdgeOnCycle(edges, owner.name, name);
      if p :| |p| >= 2 && WalkBetween(edges, p, owner.name, owner.name) && p[1] == name {
        assert TakesSlot(groups, owner, slot, p);
      }
    }
    if p :| TakesSlot(groups, owner, slot, p) {
      assert (p[0], p[1]) in edges;
    }
  }

  /** Without a repeated name a slot is flagged exactly when it starts a cycle. */
  lemma UniqueNamesFlagCycles<V(!new)>(groups: seq<TreeGroup<V>>, owner: TreeGroup<V>, slot: nat)
    requires forall g, h :: g in groups && h in groups && g.name == h.name ==> g == h
    requires owner in groups && slot < |owner.members| && owner.members[slot].Group?
    ensures Flagged(groups, owner, slot) <==> exists p :: TakesSlot(groups, owner, slot, p)
  {
    FlaggedIsOnCycle(groups, owner, slot);
    assert FirstNamed(groups, owner.name) == Some(owner);
    assert (owner.name, owner.members[slot].name) in References(groups);
  }

  lemma SecondEdgeOnly(groups: seq<TreeGroup<int>>)
    requires groups == [TreeGroup(0, []), TreeGroup(1, [Group(0)]), TreeGroup(0, [Group(1)])]
    ensures References(groups) == {(1, 0)}
  {
    assert FirstNamed(groups[1..], 1) == Some(groups[1]);
    assert FirstNamed(groups, 0) == Some(groups[0]) && FirstNamed(groups, 1) == Some(groups[1]);
    assert forall g :: g in groups ==> g == groups[0] || g == groups[1] || g == groups[2];
    assert groups[1] in groups && Group(0) in groups[1].members;
  }

  /** A second group under one name: its slot is flagged, and its name lies on no cycle. */
  lemma ShadowedGroupIsFlagged() returns (groups: seq<TreeGroup<int>>)
    ensures |groups| == 3 && |groups[2].members| == 1
    ensures Flagged(groups, groups[2], 0) && Acyclic(References(groups))
  {
    groups := [TreeGroup(0, []), TreeGroup(1, [Group(0)]), TreeGroup(0, [Group(1)])];
    SecondEdgeOnly(groups);
    assert WalkBetween(References(groups), [1, 0], 1, 0);
    RankedIsAcyclic(References(groups), map[0 := 0, 1 := 1]);
  }

  /** On an acyclic list a flag can only stand on a slot that its owner's name does not refer by. */
  lemma AcyclicShowsNoFlag<V(!new)>(groups: seq<TreeGroup<V>>, owner: TreeGroup<V>, slot: nat)
    requires Acyclic(References(groups)) && slot < |owner.members|
    ensures Flagged(groups, owner, slot) ==> (owner.name, owner.members[slot].name) !in References(groups)
  {
    var edges, name := References(groups), owner.members[slot].name;
    if (owner.name, name) in edges {
      EdgeOnCycle(edges, owner.name, name);
      assert !OnCycle(edges, owner.name);
    }
  }
}
