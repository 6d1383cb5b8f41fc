// Which packages the installed program links: those reachable from it through
// normal dependencies. (native/tools/package_data.py)

module NormalDependencies {
  import opened Text

  type Package = string

  // A dependency of a node, with its kinds: a normal one has no kind name.
  datatype Dependency = Dependency(package: Package, kinds: seq<Option<string>>)

  datatype Node = Node(id: Package, dependencies: seq<Dependency>)

  type Edges = map<Package, seq<Package>>

  // The targets of one node's edges: those with a normal kind among their kinds.
  function NormalEdges(dependencies: seq<Dependency>): (packages: seq<Package>)
    ensures forall p :: p in packages <==>
      exists i :: 0 <= i < |dependencies| && dependencies[i].package == p && None in dependencies[i].kinds
  {
    if dependencies == [] then []
    else
      var first, rest := dependencies[0], NormalEdges(dependencies[1..]);
      assert forall d :: d in dependencies <==> d == first || d in dependencies[1..];
      if None in first.kinds then [first.package] + rest else rest
  }

  // The edges by node; of several nodes with one id the last counts.
  function EdgesOf(nodes: seq<Node>): Edges {
    if nodes == [] then map[]
    else
      var last := nodes[|nodes| - 1];
      EdgesOf(nodes[..|nodes| - 1])[last.id := NormalEdges(last.dependencies)]
  }

  // A chain of normal dependencies.
  ghost predicate IsPath(edges: Edges, path: seq<Package>) {
    && path != []
    && forall i :: 0 <= i < |path| - 1 ==> IsEdge(edges, path[i], path[i + 1])
  }

  ghost predicate IsEdge(edges: Edges, from: Package, to: Package) {
    from in edges && to in edges[from]
  }

  ghost predicate Reaches(edges: Edges, root: Package, package: Package) {
    exists path :: IsPath(edges, path) && path[0] == root && path[|path| - 1] == package
  }

  ghost predicate Distinct<T>(items: seq<T>) {
    forall i, j :: 0 <= i < j < |items| ==> items[i] != items[j]
  }

  lemma ReachesItself(edges: Edges, root: Package)
    ensures Reaches(edges, root, root)
  {
    var path := [root];
    assert IsPath(edges, path) && path[0] == root && path[|path| - 1] == root;
  }

  lemma ReachesNext(edges: Edges, root: Package, from: Package, to: Package)
    requires Reaches(edges, root, from) && IsEdge(edges, from, to)
    ensures Reaches(edges, root, to)
  {
    var path :| IsPath(edges, path) && path[0] == root && path[|path| - 1] == from;
    var longer := path + [to];
    forall i | 0 <= i < |longer| - 1 ensures IsEdge(edges, longer[i], longer[i + 1]) {
      if i < |path| - 1 {
        assert IsEdge(edges, path[i], path[i + 1]);
      }
    }
    assert IsPath(edges, longer) && longer[0] == root && longer[|longer| - 1] == to;
  }

  // A set that holds the root and everything its members lead to holds every
  // reachable package.
  lemma {:induction false} ClosedHoldsPath(edges: Edges, closed: set<Package>, path: seq<Package>, n: nat)
    requires IsPath(edges, path) && path[0] in closed && n < |path|
    requires forall a, b :: a in closed && IsEdge(edges, a, b) ==> b in closed
    ensures path[n] in closed
  {
    if n > 0 {
      ClosedHoldsPath(edges, closed, path, n - 1);
      assert IsEdge(edges, path[n - 1], path[n]);
    }
  }

  // Every package an edge leads to, and the root.
  ghost function Universe(edges: Edges, root: Package): set<Package> {
    {root} + set p, q | p in edges && q in edges[p] :: q
  }

  lemma RootIsKnown(edges: Edges, root: Package)
    ensures root in Universe(edges, root)
  {
  }

  lemma EdgeIsKnown(edges: Edges, root: Package, from: Package, to: Package)
    requires from in edges && to in edges[from]
    ensures IsEdge(edges, from, to) && to in Universe(edges, root)
  {
  }

  // Done with the packages that are reachable and not pending.
  ghost predicate Explored(edges: Edges, reachable: set<Package>, pending: seq<Package>) {
    forall a :: a in reachable && a !in pending ==> a in edges && forall b :: b in edges[a] ==> b in reachable
  }

  // Every package reachable from `root`; None when one of them is not among
  // the nodes (a KeyError). `pushed` are the packages put on the worklist.
  method NormalDependencies(nodes: seq<Node>, root: Package) returns (result: Option<set<Package>>, ghost pushed: seq<Package>)
    ensures var edges := EdgesOf(nodes);
      result.Some? ==> forall p :: p in result.value <==> Reaches(edges, root, p)
    ensures var edges := EdgesOf(nodes);
      result.None? <==> exists p :: Reaches(edges, root, p) && p !in edges
    ensures Distinct(pushed)
    ensures result.Some? ==> forall p :: p in pushed <==> p in result.value
  {
    hide NormalEdges, Reaches, Distinct, IsEdge, Universe;
    var edges: Edges := map[];
    for i := 0 to |nodes|
      invariant edges == EdgesOf(nodes[..i])
    {
      assert nodes[..i + 1][..i] == nodes[..i];
      edges := edges[nodes[i].id := NormalEdges(nodes[i].dependencies)];
    }
    assert nodes[..|nodes|] == nodes;
    hide EdgesOf;
    var reachable, pending := {root}, [root];
    pushed := [root];
    ReachesItself(edges, root);
    DistinctOne(root);
    RootIsKnown(edges, root);
    while pending != []
      invariant root in reachable
      invariant forall p :: p in reachable ==> Reaches(edges, root, p)
      invariant forall p :: p in pending ==> p in reachable
      invariant Explored(edges, reachable, pending)
      invariant Distinct(pushed) && forall p :: p in pushed <==> p in reachable
      invariant reachable <= Universe(edges, root)
      decreases Universe(edges, root) - reachable, |pending|
    {
      var package := pending[|pending| - 1];
      ghost var before, left := reachable, pending;
      pending := pending[..|pending| - 1];
      assert forall p :: p in left <==> p == package || p in pending;
      if package !in edges {
        return None, pushed;
      }
      var dependencies := edges[package];
      ghost var rest := pending;
      for i := 0 to |dependencies|
        invariant before <= reachable <= Universe(edges, root)
        invariant reachable == before ==> pending == rest
        invariant forall p :: p in reachable ==> Reaches(edges, root, p)
        invariant forall p :: p in pending ==> p in reachable
        invariant forall p :: p in rest ==> p in pending
        invariant forall p :: p in reachable - before ==> p in pending
        invariant forall j :: 0 <= j < i ==> dependencies[j] in reachable
        invariant Distinct(pushed) && forall p :: p in pushed <==> p in reachable
      {
        var dependency := dependencies[i];
        if dependency !in reachable {
          EdgeIsKnown(edges, root, package, dependency);
          ReachesNext(edges, root, package, dependency);
          DistinctMore(pushed, dependency);
          reachable := reachable + {dependency};
          pending := pending + [dependency];
          pushed := pushed + [dependency];
        }
      }
      StillExplored(edges, before, left, package, reachable, pending);
      assert reachable == before ==> |pending| < |left|;
    }
    AllReached(edges, root, reachable);
    result := Some(reachable);
  }

  lemma StillExplored(edges: Edges, before: set<Package>, left: seq<Package>, package: Package, reachable: set<Package>, pending: seq<Package>)
    requires Explored(edges, before, left) && before <= reachable && package in edges
    requires forall p :: p in left ==> p == package || p in pending
    requires forall p :: p in reachable - before ==> p in pending
    requires forall q :: q in edges[package] ==> q in reachable
    ensures Explored(edges, reachable, pending)
  {
  }

  lemma AllReached(edges: Edges, root: Package, reachable: set<Package>)
    requires root in reachable && Explored(edges, reachable, [])
    ensures forall p :: Reaches(edges, root, p) ==> p in reachable && p in edges
  {
    forall p | Reaches(edges, root, p) ensures p in reachable {
      var path :| IsPath(edges, path) && path[0] == root && path[|path| - 1] == p;
      ClosedHoldsPath(edges, reachable, path, |path| - 1);
    }
  }

  lemma DistinctOne<T>(item: T)
    ensures Distinct([item])
  {
  }

  lemma DistinctMore<T>(items: seq<T>, item: T)
    requires Distinct(items) && item !in items
    ensures Distinct(items + [item])
  {
  }
}
