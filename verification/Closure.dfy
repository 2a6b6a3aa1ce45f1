/** Which packages ship: the closure of the distributed workspace members over normal and build dependencies, as
    the licence listing of the build tool works it out. */
module Closure {
  import opened Wrappers

  type Id = string

  datatype Dependency = Dependency(pkg: Id, kinds: seq<Option<string>>)
  datatype Node = Node(id: Id, deps: seq<Dependency>)
  datatype Package = Package(id: Id, name: string)
  datatype Metadata = Metadata(packages: seq<Package>, nodes: seq<Node>, members: seq<Id>)

  const NOT_DISTRIBUTED: seq<string> := ["xtask"]

  /** Keyed by id; a repeated id keeps its last entry. */
  function PackagesById(packages: seq<Package>): (table: map<Id, Package>)
    ensures forall id :: id in table <==> exists i :: 0 <= i < |packages| && packages[i].id == id
    ensures forall id :: id in table ==> table[id].id == id
  {
    if packages == [] then map[] else
    var last := packages[|packages| - 1];
    PackagesById(packages[..|packages| - 1])[last.id := last]
  }

  function NodesById(nodes: seq<Node>): (table: map<Id, Node>)
    ensures forall id :: id in table ==> table[id] in nodes
  {
    if nodes == [] then map[] else
    var last := nodes[|nodes| - 1];
    NodesById(nodes[..|nodes| - 1])[last.id := last]
  }

  predicate IsRoot(m: Metadata, id: Id) {
    var packages := PackagesById(m.packages);
    id in m.members && (id in packages ==> packages[id].name !in NOT_DISTRIBUTED)
  }

  predicate DevOnly(dep: Dependency) {
    forall i :: 0 <= i < |dep.kinds| ==> dep.kinds[i] == Some("dev")
  }

  /** `from` needs `to` by some dependency that is not for development alone. */
  predicate Needs(m: Metadata, from: Id, to: Id) {
    var nodes := NodesById(m.nodes);
    from in nodes && exists i :: 0 <= i < |nodes[from].deps| && NeedsAt(nodes[from].deps, i, to)
  }

  predicate NeedsAt(deps: seq<Dependency>, i: nat, to: Id)
    requires i < |deps|
  {
    deps[i].pkg == to && !DevOnly(deps[i])
  }

  // ---- The same without the tables ----

  /** The entry an id is known by: the last one that has it. */
  ghost predicate LastPackage(packages: seq<Package>, id: Id, i: int) {
    0 <= i < |packages| && packages[i].id == id && forall j :: i < j < |packages| ==> packages[j].id != id
  }

  ghost predicate LastNode(nodes: seq<Node>, id: Id, i: int) {
    0 <= i < |nodes| && nodes[i].id == id && forall j :: i < j < |nodes| ==> nodes[j].id != id
  }

  lemma {:induction false} LastPackageMore(packages: seq<Package>, id: Id, i: int)
    requires packages != []
    ensures LastPackage(packages, id, i) <==>
            if packages[|packages| - 1].id == id then i == |packages| - 1 else LastPackage(packages[..|packages| - 1], id, i)
  {
    var before := packages[..|packages| - 1];
    assert forall j :: 0 <= j < |before| ==> before[j] == packages[j];
  }

  lemma {:induction false} PackageIsLast(packages: seq<Package>, id: Id)
    ensures forall i :: LastPackage(packages, id, i) ==>
              id in PackagesById(packages) && PackagesById(packages)[id] == packages[i]
    ensures id in PackagesById(packages) ==> exists i :: LastPackage(packages, id, i)
    decreases |packages|
  {
    if packages != [] {
      var before, n := packages[..|packages| - 1], |packages| - 1;
      PackageIsLast(before, id);
      forall i
        ensures LastPackage(packages, id, i) <==> if packages[n].id == id then i == n else LastPackage(before, id, i)
      {
        LastPackageMore(packages, id, i);
      }
      assert PackagesById(packages) == PackagesById(before)[packages[n].id := packages[n]];
      hide PackagesById;
      assert forall i :: LastPackage(before, id, i) ==> before[i] == packages[i];
      if packages[n].id == id {
        assert LastPackage(packages, id, n);
      } else if id in PackagesById(before) {
        var i :| LastPackage(before, id, i);
        assert LastPackage(packages, id, i);
      }
    }
  }

  lemma {:induction false} LastNodeMore(nodes: seq<Node>, id: Id, i: int)
    requires nodes != []
    ensures LastNode(nodes, id, i) <==>
            if nodes[|nodes| - 1].id == id then i == |nodes| - 1 else LastNode(nodes[..|nodes| - 1], id, i)
  {
    var before := nodes[..|nodes| - 1];
    assert forall j :: 0 <= j < |before| ==> before[j] == nodes[j];
  }

  lemma {:induction false} NodeIsLast(nodes: seq<Node>, id: Id)
    ensures forall i :: LastNode(nodes, id, i) ==> id in NodesById(nodes) && NodesById(nodes)[id] == nodes[i]
    ensures id in NodesById(nodes) ==> exists i :: LastNode(nodes, id, i)
    decreases |nodes|
  {
    if nodes != [] {
      var before, n := nodes[..|nodes| - 1], |nodes| - 1;
      NodeIsLast(before, id);
      forall i
        ensures LastNode(nodes, id, i) <==> if nodes[n].id == id then i == n else LastNode(before, id, i)
      {
        LastNodeMore(nodes, id, i);
      }
      assert NodesById(nodes) == NodesById(before)[nodes[n].id := nodes[n]];
      hide NodesById;
      assert forall i :: LastNode(before, id, i) ==> before[i] == nodes[i];
      if nodes[n].id == id {
        assert LastNode(nodes, id, n);
      } else if id in NodesById(before) {
        var i :| LastNode(before, id, i);
        assert LastNode(nodes, id, i);
      }
    }
  }

  /** A root is a member of the workspace that is not known by the name of the build tool. */
  lemma {:induction false} RootIsExact(m: Metadata, id: Id)
    ensures IsRoot(m, id) <==>
            id in m.members && forall i :: LastPackage(m.packages, id, i) ==> m.packages[i].name != "xtask"
  {
    PackageIsLast(m.packages, id);
    hide PackagesById;
    if id in PackagesById(m.packages) {
      var i :| LastPackage(m.packages, id, i);
    }
  }

  /** A dependency of a kind other than development: normal when there is no kind, or build. */
  ghost predicate Wants(dep: Dependency, to: Id) {
    dep.pkg == to && exists i :: 0 <= i < |dep.kinds| && dep.kinds[i] != Some("dev")
  }

  lemma {:induction false} NeedsIsExact(m: Metadata, from: Id, to: Id)
    ensures Needs(m, from, to) <==>
            exists i, k :: LastNode(m.nodes, from, i) && 0 <= k < |m.nodes[i].deps| && Wants(m.nodes[i].deps[k], to)
  {
    NodeIsLast(m.nodes, from);
    hide NodesById;
    if from in NodesById(m.nodes) {
      var i :| LastNode(m.nodes, from, i);
      var deps := m.nodes[i].deps;
      forall k | 0 <= k < |deps|
        ensures NeedsAt(deps, k, to) <==> Wants(deps[k], to)
      {}
      hide NeedsAt, Wants;
      if Needs(m, from, to) {
        var k :| 0 <= k < |deps| && NeedsAt(deps, k, to);
        assert LastNode(m.nodes, from, i) && Wants(m.nodes[i].deps[k], to);
      }
    }
  }

  // ---- Reachability ----

  ghost predicate IsPath(m: Metadata, path: seq<Id>) {
    && path != [] && IsRoot(m, path[0])
    && forall i :: 0 <= i < |path| - 1 ==> Needs(m, path[i], path[i + 1])
  }

  ghost predicate Ends(m: Metadata, path: seq<Id>, id: Id) {
    IsPath(m, path) && path[|path| - 1] == id
  }

  ghost predicate Shipped(m: Metadata, id: Id) {
    exists path :: Ends(m, path, id)
  }

  lemma RootIsShipped(m: Metadata, id: Id)
    requires IsRoot(m, id)
    ensures Shipped(m, id)
  {
    assert Ends(m, [id], id);
  }

  lemma NeededIsShipped(m: Metadata, from: Id, to: Id)
    requires Shipped(m, from) && Needs(m, from, to)
    ensures Shipped(m, to)
  {
    var path :| Ends(m, path, from);
    hide IsRoot, Needs;
    assert Ends(m, path + [to], to);
  }

  ghost predicate Closed(m: Metadata, ids: set<Id>) {
    && (forall id :: IsRoot(m, id) ==> id in ids)
    && forall from, to :: from in ids && Needs(m, from, to) ==> to in ids
  }

  lemma {:induction false} PathStaysInside(m: Metadata, ids: set<Id>, path: seq<Id>)
    requires Closed(m, ids) && IsPath(m, path)
    ensures path[|path| - 1] in ids
    decreases |path|
  {
    hide IsRoot, Needs;
    if |path| > 1 {
      PathStaysInside(m, ids, path[..|path| - 1]);
      assert Needs(m, path[|path| - 2], path[|path| - 1]);
    }
  }

  /** What ships is the least set holding the roots and everything its members need. */
  lemma ShippedIsLeast(m: Metadata, ids: set<Id>)
    requires Closed(m, ids)
    ensures forall id :: Shipped(m, id) ==> id in ids
  {
    forall id | Shipped(m, id)
      ensures id in ids
    {
      var path :| Ends(m, path, id);
      PathStaysInside(m, ids, path);
    }
  }

  // ---- The worklist ----

  ghost function DepIds(deps: seq<Dependency>): set<Id> {
    set i | 0 <= i < |deps| :: deps[i].pkg
  }

  /** Every id the worklist can meet. */
  ghost function Universe(m: Metadata): set<Id> {
    (set id | id in m.members) + (set i, d | 0 <= i < |m.nodes| && d in DepIds(m.nodes[i].deps) :: d)
  }

  lemma DepIsKnown(m: Metadata, id: Id, i: nat)
    requires id in NodesById(m.nodes) && i < |NodesById(m.nodes)[id].deps|
    ensures NodesById(m.nodes)[id].deps[i].pkg in Universe(m)
  {
    var node := NodesById(m.nodes)[id];
    assert node.deps[i].pkg in DepIds(node.deps);
    var k :| 0 <= k < |m.nodes| && m.nodes[k] == node;
    assert node.deps[i].pkg in DepIds(m.nodes[k].deps);
  }

  ghost predicate Pending(m: Metadata, seen: set<Id>, stack: seq<Id>) {
    && (forall id :: IsRoot(m, id) ==> id in seen || id in stack)
    && forall from, to :: from in seen && Needs(m, from, to) ==> to in seen || to in stack
  }

  ghost predicate Justified(m: Metadata, ids: seq<Id>) {
    forall i :: 0 <= i < |ids| ==> ids[i] in Universe(m) && Shipped(m, ids[i])
  }

  method Roots(m: Metadata) returns (roots: seq<Id>)
    ensures forall id :: id in roots <==> IsRoot(m, id)
  {
    hide IsRoot;
    var members := set id | id in m.members;
    roots := [];
    assert forall id :: IsRoot(m, id) ==> id in members by { RootsAreMembers(m); }
    ghost var all := members;
    while members != {}
      invariant members <= all
      invariant forall id :: id in roots <==> IsRoot(m, id) && id !in members
      decreases |members|
    {
      var id :| id in members;
      if IsRoot(m, id) {
        roots := roots + [id];
      }
      members := members - {id};
    }
  }

  lemma RootsAreMembers(m: Metadata)
    ensures forall id :: IsRoot(m, id) ==> id in m.members
  {}

  /** The dependencies of one node that are not for development alone, pushed in order. */
  method PushDeps(m: Metadata, id: Id, stack: seq<Id>) returns (pushed: seq<Id>)
    requires id in NodesById(m.nodes) && Shipped(m, id) && Justified(m, stack)
    ensures Justified(m, pushed) && stack <= pushed
    ensures forall to :: Needs(m, id, to) ==> to in pushed
  {
    var deps := NodesById(m.nodes)[id].deps;
    pushed := stack;
    for i := 0 to |deps|
      invariant Justified(m, pushed) && stack <= pushed
      invariant forall k :: 0 <= k < i && !DevOnly(deps[k]) ==> deps[k].pkg in pushed
    {
      if DevOnly(deps[i]) {
        continue;
      }
      DepIsKnown(m, id, i);
      assert NeedsAt(deps, i, deps[i].pkg);
      assert Needs(m, id, deps[i].pkg);
      NeededIsShipped(m, id, deps[i].pkg);
      hide Shipped, Universe, DevOnly, Needs;
      pushed := pushed + [deps[i].pkg];
    }
  }

  lemma PendingPop(m: Metadata, seen: set<Id>, stack: seq<Id>)
    requires Pending(m, seen, stack) && stack != []
    ensures stack[|stack| - 1] in seen ==> Pending(m, seen, stack[..|stack| - 1])
  {
    hide IsRoot, Needs;
    var rest := stack[..|stack| - 1];
    assert stack == rest + [stack[|stack| - 1]];
  }

  lemma PendingVisit(m: Metadata, seen: set<Id>, stack: seq<Id>, pushed: seq<Id>)
    requires Pending(m, seen, stack) && stack != [] && stack[..|stack| - 1] <= pushed
    requires forall to :: Needs(m, stack[|stack| - 1], to) ==> to in pushed
    ensures Pending(m, seen + {stack[|stack| - 1]}, pushed)
  {
    hide IsRoot, Needs;
    var rest := stack[..|stack| - 1];
    assert stack == rest + [stack[|stack| - 1]];
    forall id | id in rest
      ensures id in pushed
    {
      var i :| 0 <= i < |rest| && rest[i] == id;
      assert pushed[i] == id;
    }
  }

  /** The worklist ends, and it has seen exactly what ships. */
  method SeenFrom(m: Metadata) returns (seen: set<Id>)
    ensures forall id :: id in seen <==> Shipped(m, id)
  {
    hide IsRoot, Needs, Universe, Shipped;
    var stack := Roots(m);
    JustifiedRoots(m, stack);
    seen := {};
    while stack != []
      invariant Justified(m, stack) && Pending(m, seen, stack)
      invariant seen <= Universe(m) && forall id :: id in seen ==> Shipped(m, id)
      decreases |Universe(m) - seen|, |stack|
    {
      var id, rest := stack[|stack| - 1], stack[..|stack| - 1];
      PendingPop(m, seen, stack);
      if id in seen {
        stack := rest;
        continue;
      }
      ghost var before := seen;
      Shrinks(Universe(m), seen, id);
      seen := seen + {id};
      var pushed := rest;
      if id in NodesById(m.nodes) {
        pushed := PushDeps(m, id, rest);
      } else {
        MissingNeedsNothing(m, id);
      }
      PendingVisit(m, before, stack, pushed);
      stack := pushed;
    }
    assert Closed(m, seen);
    ShippedIsLeast(m, seen);
  }

  lemma JustifiedRoots(m: Metadata, roots: seq<Id>)
    requires forall id :: id in roots <==> IsRoot(m, id)
    ensures Justified(m, roots)
  {
    forall i | 0 <= i < |roots|
      ensures roots[i] in Universe(m) && Shipped(m, roots[i])
    {
      assert roots[i] in roots;
      RootIsShipped(m, roots[i]);
      RootsAreMembers(m);
    }
  }

  lemma Shrinks(universe: set<Id>, seen: set<Id>, id: Id)
    requires id in universe && id !in seen
    ensures |universe - (seen + {id})| < |universe - seen|
  {
    assert universe - seen == (universe - (seen + {id})) + {id};
  }

  lemma MissingNeedsNothing(m: Metadata, id: Id)
    requires id !in NodesById(m.nodes)
    ensures forall to :: !Needs(m, id, to)
  {}

  // ---- The components ----

  ghost predicate IsComponent(m: Metadata, id: Id) {
    Shipped(m, id) && id !in m.members && id in PackagesById(m.packages)
  }

  /** Every shipped package from outside the workspace is listed, once, and nothing else is. */
  method Components(m: Metadata) returns (components: seq<Package>)
    ensures forall id :: IsComponent(m, id) <==> Lists(components, id)
    ensures forall i :: 0 <= i < |components| ==> IsEntry(m, components[i])
    ensures forall i, j :: 0 <= i < j < |components| ==> components[i].id != components[j].id
  {
    hide Shipped, Needs, IsRoot;
    var packages := PackagesById(m.packages);
    var seen := SeenFrom(m);
    ghost var all := seen;
    components := [];
    while seen != {}
      invariant seen <= all
      invariant forall id :: Lists(components, id) <==> id in all && id !in seen && id !in m.members && id in packages
      invariant forall i :: 0 <= i < |components| ==> IsEntry(m, components[i])
      invariant forall i, j :: 0 <= i < j < |components| ==> components[i].id != components[j].id
      decreases |seen|
    {
      var id :| id in seen;
      if id !in m.members && id in packages {
        assert !Lists(components, id);
        ListsMore(components, packages[id]);
        components := components + [packages[id]];
      }
      seen := seen - {id};
    }
  }

  ghost predicate Lists(components: seq<Package>, id: Id) {
    exists i :: 0 <= i < |components| && components[i].id == id
  }

  ghost predicate IsEntry(m: Metadata, package: Package) {
    var packages := PackagesById(m.packages);
    package.id in packages && packages[package.id] == package
  }

  lemma ListsMore(components: seq<Package>, package: Package)
    ensures forall id :: Lists(components + [package], id) <==> Lists(components, id) || id == package.id
  {
    var more := components + [package];
    forall id
      ensures Lists(more, id) <==> Lists(components, id) || id == package.id
    {
      assert more[|components|].id == package.id;
      if Lists(components, id) {
        var i :| 0 <= i < |components| && components[i].id == id;
        assert more[i].id == id;
      }
    }
  }
}
