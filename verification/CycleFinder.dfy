/** The architecture check's search for circular package dependencies. */
module CycleFinder {
  import opened OrderedMap

  /** A package and the names it requires at run time, internal or not. */
  datatype Package = Package(name: string, dependencies: seq<string>, peerDependencies: seq<string>)

  /** Package name to internal dependencies; names without an entry have none. */
  type Graph = map<string, seq<string>>

  const INTERNAL_SCOPE := "@zudojs/"

  function Neighbors(g: Graph, node: string): seq<string> {
    if node in g then g[node] else []
  }

  ghost predicate Edge(g: Graph, a: string, b: string) {
    b in Neighbors(g, a)
  }

  ghost predicate Walk(g: Graph, p: seq<string>) {
    forall i :: 0 <= i < |p| - 1 ==> Edge(g, p[i], p[i + 1])
  }

  /** A walk of at least one edge that ends where it began. */
  ghost predicate ClosedWalk(g: Graph, c: seq<string>) {
    |c| >= 2 && c[0] == c[|c| - 1] && Walk(g, c)
  }

  /** A closed walk that repeats no node on the way. */
  ghost predicate SimpleCycle(g: Graph, c: seq<string>) {
    ClosedWalk(g, c) && Distinct(c[..|c| - 1])
  }

  function Nodes(g: Graph): set<string> {
    g.Keys + set k, n | k in g && n in g[k] :: n
  }

  function Dedup(s: seq<string>): (r: seq<string>)
    ensures forall x :: x in r <==> x in s
  {
    if s == [] then []
    else
      var before := Dedup(s[..|s| - 1]);
      if s[|s| - 1] in before then before else before + [s[|s| - 1]]
  }

  predicate IsInternal(name: string) {
    INTERNAL_SCOPE <= name
  }

  function Internal(s: seq<string>): (r: seq<string>)
    ensures forall x :: x in r <==> x in s && IsInternal(x)
  {
    if s == [] then []
    else if IsInternal(s[|s| - 1]) then Internal(s[..|s| - 1]) + [s[|s| - 1]]
    else Internal(s[..|s| - 1])
  }

  /** Dependencies and peer dependencies both count as edges. */
  function EdgesOf(p: Package): seq<string> {
    Internal(Dedup(p.dependencies + p.peerDependencies))
  }

  function GraphOf(packages: seq<Package>): Graph {
    if packages == [] then map[]
    else
      var last := packages[|packages| - 1];
      GraphOf(packages[..|packages| - 1])[last.name := EdgesOf(last)]
  }

  /** The package names `name` as a dependency or a peer dependency, and it is an internal one. */
  ghost predicate Needs(p: Package, name: string) {
    (name in p.dependencies || name in p.peerDependencies) && "@zudojs/" <= name
  }

  /** The last package named `a` needs `b`. */
  ghost predicate Requires(packages: seq<Package>, a: string, b: string) {
    exists i :: 0 <= i < |packages| && LastOfItsName(packages, i) && packages[i].name == a && Needs(packages[i], b)
  }

  ghost predicate LastOfItsName(packages: seq<Package>, i: nat)
    requires i < |packages|
  {
    forall j :: i < j < |packages| ==> packages[j].name != packages[i].name
  }

  ghost predicate DependencyCycle(packages: seq<Package>, c: seq<string>) {
    |c| >= 2 && c[0] == c[|c| - 1] && forall i :: 0 <= i < |c| - 1 ==> Requires(packages, c[i], c[i + 1])
  }

  lemma EdgesAreNeeds(p: Package)
    ensures forall name :: name in EdgesOf(p) <==> Needs(p, name)
  {
  }

  lemma RequiresOfLonger(front: seq<Package>, last: Package, a: string, b: string)
    ensures Requires(front + [last], a, b) <==> if a == last.name then Needs(last, b) else Requires(front, a, b)
  {
    hide Needs;
    var packages, n := front + [last], |front|;
    assert LastOfItsName(packages, n);
    if a == last.name {
      assert Needs(last, b) ==> packages[n].name == a && Needs(packages[n], b);
    } else {
      if Requires(front, a, b) {
        var i :| 0 <= i < n && LastOfItsName(front, i) && front[i].name == a && Needs(front[i], b);
        assert LastOfItsName(packages, i) && packages[i] == front[i];
      }
      if Requires(packages, a, b) {
        var i :| 0 <= i <= n && LastOfItsName(packages, i) && packages[i].name == a && Needs(packages[i], b);
        assert packages[i] == front[i];
        forall j | i < j < n ensures front[j].name != front[i].name {
          assert packages[j] == front[j];
        }
        assert LastOfItsName(front, i);
      }
    }
  }

  /** The graph has an edge exactly where a package requires another. */
  lemma {:induction false} GraphIsExact(packages: seq<Package>, a: string, b: string)
    ensures Edge(GraphOf(packages), a, b) <==> Requires(packages, a, b)
  {
    if packages != [] {
      var n := |packages| - 1;
      GraphIsExact(packages[..n], a, b);
      EdgesAreNeeds(packages[n]);
      RequiresOfLonger(packages[..n], packages[n], a, b);
      assert packages == packages[..n] + [packages[n]];
      hide EdgesOf, Needs, Requires;
      assert Edge(GraphOf(packages), a, b) <==>
             if a == packages[n].name then b in EdgesOf(packages[n]) else Edge(GraphOf(packages[..n]), a, b);
    }
  }

  lemma GraphCycles(packages: seq<Package>, c: seq<string>)
    ensures ClosedWalk(GraphOf(packages), c) <==> DependencyCycle(packages, c)
  {
    hide GraphOf, Edge, Requires;
    forall i | 0 <= i < |c| - 1
      ensures Edge(GraphOf(packages), c[i], c[i + 1]) <==> Requires(packages, c[i], c[i + 1])
    {
      GraphIsExact(packages, c[i], c[i + 1]);
    }
  }

  /** Each finished node's dependencies were all finished before it. */
  ghost predicate DependenciesFirst(g: Graph, finished: seq<string>) {
    forall i, n :: 0 <= i < |finished| && Edge(g, finished[i], n) ==> n in finished[..i]
  }

  class Search {
    const graph: Graph
    var visited: set<string>
    var recursionStack: set<string>
    var cycles: seq<seq<string>>
    ghost var finished: seq<string>

    ghost predicate Valid()
      reads this
    {
      && recursionStack <= visited
      && (forall n :: n in finished <==> n in visited && n !in recursionStack)
      && (cycles == [] ==> DependenciesFirst(graph, finished))
      && (forall i :: 0 <= i < |cycles| ==> SimpleCycle(graph, cycles[i]))
    }

    constructor (graph: Graph)
      ensures Valid() && this.graph == graph
      ensures visited == {} && recursionStack == {} && cycles == []
    {
      this.graph := graph;
      visited, recursionStack, cycles, finished := {}, {}, [], [];
    }

    /** Explores everything `node` reaches, which is where `path` has led. */
    method Dfs(node: string, path: seq<string>)
      requires Valid() && node in Nodes(graph) && node !in visited
      requires path != [] && path[|path| - 1] == node && Walk(graph, path) && Distinct(path)
      requires Members(path) == recursionStack + {node}
      modifies this
      ensures Valid() && node in visited && old(visited) <= visited && recursionStack == old(recursionStack)
      ensures old(cycles) <= cycles && old(finished) <= finished
      decreases Nodes(graph) - visited
    {
      hide Walk, Distinct, SimpleCycle, DependenciesFirst, Nodes;
      visited := visited + {node};
      recursionStack := recursionStack + {node};
      assert old(node !in finished);
      var neighbors := if node in graph then graph[node] else [];
      for i := 0 to |neighbors|
        invariant Valid() && old(visited) + {node} <= visited && recursionStack == old(recursionStack) + {node}
        invariant old(cycles) <= cycles && old(finished) <= finished
        invariant cycles == [] ==> forall j :: 0 <= j < i ==> neighbors[j] in finished
      {
        var neighbor := neighbors[i];
        assert Edge(graph, node, neighbor);
        if neighbor !in visited {
          ExtendPath(graph, path, neighbor);
          Dfs(neighbor, path + [neighbor]);
        } else if neighbor in recursionStack {
          var cycleStart := IndexOf(path, neighbor);
          var cycle := path[cycleStart..] + [neighbor];
          CloseCycle(graph, path, cycleStart, neighbor);
          cycles := cycles + [cycle];
        }
      }
      FinishNode(graph, finished, node);
      recursionStack := recursionStack - {node};
      finished := finished + [node];
    }
  }

  method IndexOf(s: seq<string>, x: string) returns (i: nat)
    requires x in s
    ensures i < |s| && s[i] == x && x !in s[..i]
  {
    i := 0;
    while s[i] != x
      invariant i < |s| && x in s[i..] && x !in s[..i]
      decreases |s| - i
    {
      i := i + 1;
    }
  }

  lemma ExtendPath(g: Graph, path: seq<string>, next: string)
    requires path != [] && Walk(g, path) && Distinct(path) && Edge(g, path[|path| - 1], next) && next !in path
    ensures Walk(g, path + [next]) && Distinct(path + [next]) && Members(path + [next]) == Members(path) + {next}
    ensures next in Nodes(g)
  {
  }

  lemma CloseCycle(g: Graph, path: seq<string>, start: nat, back: string)
    requires Walk(g, path) && Distinct(path) && start < |path| && path[start] == back
    requires Edge(g, path[|path| - 1], back)
    ensures SimpleCycle(g, path[start..] + [back])
  {
    var c := path[start..] + [back];
    assert c[..|c| - 1] == path[start..];
    forall i | 0 <= i < |c| - 1 ensures Edge(g, c[i], c[i + 1]) {
      assert c[i] == path[start + i];
    }
  }

  lemma FinishNode(g: Graph, finished: seq<string>, node: string)
    ensures DependenciesFirst(g, finished) && (forall n :: Edge(g, node, n) ==> n in finished) ==>
            DependenciesFirst(g, finished + [node])
  {
    if DependenciesFirst(g, finished) && forall n :: Edge(g, node, n) ==> n in finished {
      var longer := finished + [node];
      forall i, n | 0 <= i < |longer| && Edge(g, longer[i], n) ensures n in longer[..i] {
        if i < |finished| {
          assert longer[..i] == finished[..i] && longer[i] == finished[i];
        } else {
          assert longer[..i] == finished;
        }
      }
    }
  }

  /** Along a walk from a finished node, every later node was finished earlier. */
  lemma {:induction false} WalkDescends(g: Graph, finished: seq<string>, c: seq<string>, n: nat, p: nat)
    requires DependenciesFirst(g, finished)
    requires Walk(g, c) && 0 < n < |c| && p < |finished| && finished[p] == c[0]
    ensures c[n] in finished[..p]
  {
    assert Edge(g, c[n - 1], c[n]);
    if n > 1 {
      WalkDescends(g, finished, c, n - 1, p);
      var q :| 0 <= q < p && finished[..p][q] == c[n - 1];
      assert finished[q] == c[n - 1];
      assert c[n] in finished[..q];
      assert finished[..q] <= finished[..p];
    }
  }

  /** So a closed walk would descend for ever. */
  lemma {:induction false} NoClosedWalkFrom(g: Graph, finished: seq<string>, c: seq<string>, p: nat)
    requires |c| > 0 && p < |finished| && finished[p] == c[0]
    requires DependenciesFirst(g, finished)
    ensures !ClosedWalk(g, c)
  {
    if ClosedWalk(g, c) {
      WalkDescends(g, finished, c, |c| - 1, p);
      var q :| 0 <= q < p && finished[..p][q] == c[0];
      NoClosedWalkFrom(g, finished, c, q);
    }
  }

  lemma FinishedIsAcyclic(g: Graph, finished: seq<string>, c: seq<string>)
    requires DependenciesFirst(g, finished) && forall k :: k in g ==> k in finished
    ensures !ClosedWalk(g, c)
  {
    if ClosedWalk(g, c) {
      assert Edge(g, c[0], c[1]);
      var p :| 0 <= p < |finished| && finished[p] == c[0];
      NoClosedWalkFrom(g, finished, c, p);
    }
  }

  lemma {:induction false} GraphHasPackages(packages: seq<Package>)
    ensures forall k :: k in GraphOf(packages) <==> exists p :: p in packages && p.name == k
  {
    if packages != [] {
      var n := |packages| - 1;
      GraphHasPackages(packages[..n]);
      assert packages == packages[..n] + [packages[n]];
    }
  }

  method BuildGraph(packages: seq<Package>) returns (graph: Graph)
    ensures graph == GraphOf(packages)
    ensures forall a :: a in graph <==> exists p :: p in packages && p.name == a
    ensures forall a, b :: Edge(graph, a, b) <==> Requires(packages, a, b)
  {
    hide Edge, Requires;
    GraphHasPackages(packages);
    forall a, b ensures Edge(GraphOf(packages), a, b) <==> Requires(packages, a, b) {
      GraphIsExact(packages, a, b);
    }
    graph := map[];
    for i := 0 to |packages|
      invariant graph == GraphOf(packages[..i])
    {
      assert packages[..i + 1][..i] == packages[..i];
      graph := graph[packages[i].name := EdgesOf(packages[i])];
    }
    assert packages[..|packages|] == packages;
  }

  /**
   The check reports a cycle exactly when the package graph has one, and everything it
   reports is a simple cycle of that graph.
   */
  method CheckCircularDependencies(packages: seq<Package>) returns (cycles: seq<seq<string>>)
    ensures cycles != [] <==> exists c :: DependencyCycle(packages, c)
    ensures forall c :: c in cycles ==> DependencyCycle(packages, c) && Distinct(c[..|c| - 1])
  {
    hide GraphOf, Walk, Distinct, DependencyCycle, Requires;
    forall c ensures ClosedWalk(GraphOf(packages), c) <==> DependencyCycle(packages, c) {
      GraphCycles(packages, c);
    }
    var graph := BuildGraph(packages);
    GraphHasPackages(packages);
    var search := new Search(graph);
    for i := 0 to |packages|
      invariant search.Valid() && search.recursionStack == {}
      invariant forall j :: 0 <= j < i ==> packages[j].name in search.visited
    {
      if packages[i].name !in search.visited {
        assert packages[i] in packages;
        SingletonPath(graph, packages[i].name);
        search.Dfs(packages[i].name, [packages[i].name]);
      }
    }
    cycles := search.cycles;
    if cycles == [] {
      forall c ensures !ClosedWalk(graph, c) {
        FinishedIsAcyclic(graph, search.finished, c);
      }
    } else {
      assert SimpleCycle(graph, cycles[0]);
    }
  }

  lemma SingletonPath(g: Graph, node: string)
    ensures Walk(g, [node]) && Distinct([node]) && Members([node]) == {node}
  {
  }
}
