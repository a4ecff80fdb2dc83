/** Dependency graphs of DAG flows: Kahn's topological sort, and the cycle reported when it gets stuck. */
module Dag {
  import opened Wrappers
  import opened Sequences

  /** A node and the names of the nodes that must complete before it (repeats allowed). */
  datatype Node = Node(name: string, deps: seq<string>)

  datatype GraphError =
    | DuplicateName(name: string)
    | UnknownDep(node: string, dep: string)
    | Cycle(path: seq<string>)

  datatype Graph = Graph(nodeMap: map<string, Node>, inDegree: map<string, int>, adjacency: map<string, seq<string>>)

  // ---- What is accepted ----

  ghost predicate DistinctNames(nodes: seq<Node>) {
    forall i, j :: 0 <= i < j < |nodes| ==> nodes[i].name != nodes[j].name
  }

  ghost predicate KnownDeps(nodes: seq<Node>) {
    forall n, d :: n in nodes && d in n.deps ==> exists m :: m in nodes && m.name == d
  }

  /** `dep` must complete before `name`. */
  ghost predicate DependsOn(nodes: seq<Node>, dep: string, name: string) {
    exists n :: n in nodes && n.name == name && dep in n.deps
  }

  /** A walk along dependencies that returns to its first node. */
  ghost predicate ClosedWalk(nodes: seq<Node>, path: seq<string>) {
    && |path| >= 2 && path[0] == path[|path| - 1]
    && forall i :: 0 <= i < |path| - 1 ==> DependsOn(nodes, path[i], path[i + 1])
  }

  ghost predicate Acyclic(nodes: seq<Node>) {
    forall path :: !ClosedWalk(nodes, path)
  }

  ghost predicate ValidDag(nodes: seq<Node>) {
    DistinctNames(nodes) && KnownDeps(nodes) && Acyclic(nodes)
  }

  /** Every dependency of a node is listed before it. */
  ghost predicate DepsFirst(sorted: seq<Node>) {
    forall i, d :: 0 <= i < |sorted| && d in sorted[i].deps ==> exists j :: 0 <= j < i && sorted[j].name == d
  }

  /** The order rules out every closed walk: positions strictly increase along a dependency. */
  lemma {:induction false} OrderRulesOutCycles(nodes: seq<Node>, sorted: seq<Node>, path: seq<string>, i: nat, k: nat)
    requires DistinctNames(sorted) && DepsFirst(sorted) && (forall n :: n in nodes ==> n in sorted)
    requires |path| >= 2 && forall j :: 0 <= j < |path| - 1 ==> DependsOn(nodes, path[j], path[j + 1])
    requires 0 < i < |path| && k < |sorted| && sorted[k].name == path[i]
    ensures exists j :: 0 <= j < k && sorted[j].name == path[0]
    decreases i
  {
    assert DependsOn(nodes, path[i - 1], path[i - 1 + 1]);
    var n :| n in nodes && n.name == path[i] && path[i - 1] in n.deps;
    assert n == sorted[k];
    var j :| 0 <= j < k && sorted[j].name == path[i - 1];
    if i > 1 {
      OrderRulesOutCycles(nodes, sorted, path, i - 1, j);
    }
  }

  lemma SortedIsAcyclic(nodes: seq<Node>, sorted: seq<Node>)
    requires DistinctNames(sorted) && DepsFirst(sorted) && multiset(sorted) == multiset(nodes)
    ensures Acyclic(nodes)
  {
    forall n | n in nodes ensures n in sorted { assert n in multiset(nodes); }
    forall path
      ensures !ClosedWalk(nodes, path)
    {
      if ClosedWalk(nodes, path) {
        NoReturn(nodes, sorted, path);
      }
    }
  }

  lemma NoReturn(nodes: seq<Node>, sorted: seq<Node>, path: seq<string>)
    requires DistinctNames(sorted) && DepsFirst(sorted) && (forall n :: n in nodes ==> n in sorted)
    requires |path| >= 2 && forall j :: 0 <= j < |path| - 1 ==> DependsOn(nodes, path[j], path[j + 1])
    ensures path[0] != path[|path| - 1]
  {
    var last := |path| - 1;
    assert DependsOn(nodes, path[last - 1], path[last - 1 + 1]);
    var n :| n in nodes && n.name == path[last] && path[last - 1] in n.deps;
    var k :| 0 <= k < |sorted| && sorted[k] == n;
    OrderRulesOutCycles(nodes, sorted, path, last, k);
  }

  // ---- Building the graph ----

  ghost function Names(nodes: seq<Node>): set<string> {
    set n | n in nodes :: n.name
  }

  /** The maps agree with the nodes: edges are counted with multiplicity, from dependency to dependent. */
  ghost predicate IsGraphOf(nodes: seq<Node>, g: Graph) {
    && DistinctNames(nodes)
    && g.nodeMap.Keys == g.inDegree.Keys == g.adjacency.Keys == Names(nodes)
    && (forall n :: n in nodes ==> n.name in g.nodeMap && g.nodeMap[n.name] == n)
    && (forall b :: b in g.nodeMap ==> g.nodeMap[b] in nodes && g.nodeMap[b].name == b)
    && EdgesCounted(g)
  }

  ghost predicate EdgesCounted(g: Graph) {
    && g.nodeMap.Keys == g.inDegree.Keys == g.adjacency.Keys
    && (forall a, b :: a in g.adjacency && b in g.nodeMap ==> Edges(g.adjacency, a, b) == multiset(g.nodeMap[b].deps)[a])
    && (forall a, b :: a in g.adjacency && b in g.adjacency[a] ==> b in g.nodeMap)
    && (forall b :: b in g.nodeMap ==> g.inDegree[b] == |g.nodeMap[b].deps|)
    && (forall b, d :: b in g.nodeMap && d in g.nodeMap[b].deps ==> d in g.nodeMap)
  }

  /** How many edges lead from `a` to `b`. */
  ghost function Edges(adjacency: map<string, seq<string>>, a: string, b: string): nat
    requires a in adjacency
  {
    multiset(adjacency[a])[b]
  }

  /** First pass: names to nodes, refusing a repeated name. */
  method MapNames(nodes: seq<Node>) returns (r: Result<map<string, Node>, GraphError>)
    ensures r.Err? ==> r.error.DuplicateName? && !DistinctNames(nodes)
    ensures r.Ok? ==> DistinctNames(nodes) && r.value.Keys == Names(nodes)
    ensures r.Ok? ==> forall n :: n in nodes ==> n.name in r.value && r.value[n.name] == n
    ensures r.Ok? ==> forall b :: b in r.value ==> r.value[b] in nodes && r.value[b].name == b
  {
    var nodeMap: map<string, Node> := map[];
    for i := 0 to |nodes|
      invariant DistinctNames(nodes[..i])
      invariant forall j :: 0 <= j < i ==> nodes[j].name in nodeMap && nodeMap[nodes[j].name] == nodes[j]
      invariant forall b :: b in nodeMap ==> nodeMap[b] in nodes[..i] && nodeMap[b].name == b
    {
      var node := nodes[i];
      if node.name in nodeMap {
        var j :| 0 <= j < i && nodes[j] == nodeMap[node.name];
        assert nodes[j].name == nodes[i].name;
        return Err(DuplicateName(node.name));
      }
      nodeMap := nodeMap[node.name := node];
    }
    assert nodes[..|nodes|] == nodes;
    r := Ok(nodeMap);
  }

  /** Second pass: every dependency names another node of the set. */
  method CheckDeps(nodes: seq<Node>, nodeMap: map<string, Node>) returns (r: Result<(), GraphError>)
    requires nodeMap.Keys == Names(nodes)
    ensures r.Ok? ==> KnownDeps(nodes) && forall n :: n in nodes ==> DepsKnown(n, nodeMap)
    ensures r.Err? ==> !r.error.DuplicateName?
    ensures r.Err? && r.error.UnknownDep? ==> !KnownDeps(nodes)
    ensures r.Err? && r.error.Cycle? ==> ClosedWalk(nodes, r.error.path)
  {
    for i := 0 to |nodes|
      invariant forall n :: n in nodes[..i] ==> DepsKnown(n, nodeMap)
    {
      var node := nodes[i];
      assert node in nodes;
      for k := 0 to |node.deps|
        invariant forall q :: 0 <= q < k ==> node.deps[q] in nodeMap && node.deps[q] != node.name
      {
        var dep := node.deps[k];
        if dep !in nodeMap {
          UnknownIn(nodes, nodeMap, node, dep);
          return Err(UnknownDep(node.name, dep));
        }
        if dep == node.name {
          assert DependsOn(nodes, dep, node.name);
          return Err(Cycle([node.name, node.name]));
        }
      }
      assert nodes[..i + 1] == nodes[..i] + [node];
    }
    assert nodes[..|nodes|] == nodes;
    r := Ok(());
    forall n, d | n in nodes && d in n.deps ensures exists m :: m in nodes && m.name == d {
      assert DepsKnown(n, nodeMap);
      assert d in Names(nodes);
    }
    assert forall n :: n in nodes ==> DepsKnown(n, nodeMap);
  }

  ghost predicate DepsKnown(n: Node, nodeMap: map<string, Node>) {
    forall d :: d in n.deps ==> d in nodeMap && d != n.name
  }

  lemma UnknownIn(nodes: seq<Node>, nodeMap: map<string, Node>, n: Node, d: string)
    requires nodeMap.Keys == Names(nodes) && n in nodes && d in n.deps && d !in nodeMap
    ensures !KnownDeps(nodes)
  {
    assert forall m :: m in nodes ==> m.name in Names(nodes);
  }

  /** `seen[b]` lists the dependencies of `b` turned into edges so far. */
  ghost predicate EdgesSoFar(seen: map<string, seq<string>>, inDegree: map<string, int>, adjacency: map<string, seq<string>>) {
    && seen.Keys == inDegree.Keys == adjacency.Keys
    && (forall a, b :: a in adjacency && b in seen ==> Edges(adjacency, a, b) == multiset(seen[b])[a])
    && (forall a, b :: a in adjacency && b in adjacency[a] ==> b in seen)
    && (forall b :: b in seen ==> inDegree[b] == |seen[b]|)
  }

  lemma AddEdge(seen: map<string, seq<string>>, inDegree: map<string, int>, adjacency: map<string, seq<string>>,
                dep: string, name: string)
    requires EdgesSoFar(seen, inDegree, adjacency) && dep in seen && name in seen
    ensures EdgesSoFar(seen[name := seen[name] + [dep]], inDegree[name := inDegree[name] + 1],
                       adjacency[dep := adjacency[dep] + [name]])
  {
    var seen', adjacency' := seen[name := seen[name] + [dep]], adjacency[dep := adjacency[dep] + [name]];
    forall a, b | a in adjacency' && b in seen'
      ensures Edges(adjacency', a, b) == multiset(seen'[b])[a]
    {
      assert multiset(adjacency[dep] + [name]) == multiset(adjacency[dep]) + multiset{name};
      assert multiset(seen[name] + [dep]) == multiset(seen[name]) + multiset{dep};
      assert Edges(adjacency, a, b) == multiset(seen[b])[a];
    }
  }

  /** Adds the edges of one node. */
  method AddEdges(node: Node, inDegree0: map<string, int>, adjacency0: map<string, seq<string>>,
                  ghost seen0: map<string, seq<string>>)
    returns (inDegree: map<string, int>, adjacency: map<string, seq<string>>, ghost seen: map<string, seq<string>>)
    requires EdgesSoFar(seen0, inDegree0, adjacency0) && node.name in seen0 && seen0[node.name] == []
    requires forall d :: d in node.deps ==> d in seen0
    ensures EdgesSoFar(seen, inDegree, adjacency) && seen == seen0[node.name := node.deps]
  {
    hide Edges;
    inDegree, adjacency, seen := inDegree0, adjacency0, seen0;
    for k := 0 to |node.deps|
      invariant EdgesSoFar(seen, inDegree, adjacency) && seen == seen0[node.name := node.deps[..k]]
    {
      var dep := node.deps[k];
      assert node.deps[..k + 1] == node.deps[..k] + [dep];
      AddEdge(seen, inDegree, adjacency, dep, node.name);
      seen := seen[node.name := seen[node.name] + [dep]];
      adjacency := adjacency[dep := adjacency[dep] + [node.name]];
      inDegree := inDegree[node.name := inDegree[node.name] + 1];
    }
    assert node.deps[..|node.deps|] == node.deps;
  }

  /** Dependencies turned into edges once the first `i` nodes are done. */
  ghost predicate SeenUpTo(nodes: seq<Node>, seen: map<string, seq<string>>, i: nat) {
    forall j :: 0 <= j < |nodes| ==> nodes[j].name in seen && seen[nodes[j].name] == if j < i then nodes[j].deps else []
  }

  /** Third pass: the in-degrees and the adjacency lists. */
  method ConnectNodes(nodes: seq<Node>, nodeMap: map<string, Node>)
    returns (inDegree: map<string, int>, adjacency: map<string, seq<string>>, ghost seen: map<string, seq<string>>)
    requires DistinctNames(nodes) && nodeMap.Keys == Names(nodes)
    requires forall n :: n in nodes ==> n.name in nodeMap && DepsKnown(n, nodeMap)
    ensures EdgesSoFar(seen, inDegree, adjacency) && seen.Keys == nodeMap.Keys && SeenUpTo(nodes, seen, |nodes|)
  {
    hide Names, EdgesSoFar, SeenUpTo, DistinctNames;
    inDegree := map n | n in nodeMap :: 0;
    adjacency := map n | n in nodeMap :: [];
    seen := map n | n in nodeMap :: [];
    NothingSeen(nodes, seen, inDegree, adjacency);
    for i := 0 to |nodes|
      invariant EdgesSoFar(seen, inDegree, adjacency) && seen.Keys == nodeMap.Keys && SeenUpTo(nodes, seen, i)
    {
      var node := nodes[i];
      ghost var before := seen;
      UnseenNode(nodes, nodeMap, seen, i);
      inDegree, adjacency, seen := AddEdges(node, inDegree, adjacency, seen);
      SeenStep(nodes, before, i);
    }
  }

  lemma NothingSeen(nodes: seq<Node>, seen: map<string, seq<string>>, inDegree: map<string, int>,
                    adjacency: map<string, seq<string>>)
    requires seen.Keys == inDegree.Keys == adjacency.Keys
    requires forall n :: n in seen ==> seen[n] == [] && adjacency[n] == [] && inDegree[n] == 0
    requires forall n :: n in nodes ==> n.name in seen
    ensures EdgesSoFar(seen, inDegree, adjacency) && SeenUpTo(nodes, seen, 0)
  {}

  lemma UnseenNode(nodes: seq<Node>, nodeMap: map<string, Node>, seen: map<string, seq<string>>, i: nat)
    requires SeenUpTo(nodes, seen, i) && i < |nodes| && seen.Keys == nodeMap.Keys
    requires forall n :: n in nodes ==> DepsKnown(n, nodeMap)
    ensures nodes[i].name in seen && seen[nodes[i].name] == [] && forall d :: d in nodes[i].deps ==> d in seen
  {
    assert nodes[i] in nodes;
  }

  lemma SeenStep(nodes: seq<Node>, seen: map<string, seq<string>>, i: nat)
    requires DistinctNames(nodes) && SeenUpTo(nodes, seen, i) && i < |nodes|
    ensures SeenUpTo(nodes, seen[nodes[i].name := nodes[i].deps], i + 1)
  {}

  method BuildGraph(nodes: seq<Node>) returns (r: Result<Graph, GraphError>)
    ensures r.Ok? ==> IsGraphOf(nodes, r.value) && KnownDeps(nodes)
    ensures r.Err? && r.error.DuplicateName? ==> !DistinctNames(nodes)
    ensures r.Err? && r.error.UnknownDep? ==> DistinctNames(nodes) && !KnownDeps(nodes)
    ensures r.Err? && r.error.Cycle? ==> DistinctNames(nodes) && ClosedWalk(nodes, r.error.path)
  {
    hide DistinctNames, KnownDeps, DepsKnown, SeenUpTo, EdgesSoFar, EdgesCounted, ClosedWalk, Names;
    var named := MapNames(nodes);
    if named.Err? {
      return Err(named.error);
    }
    var nodeMap := named.value;
    var checked := CheckDeps(nodes, nodeMap);
    if checked.Err? {
      return Err(checked.error);
    }
    var inDegree, adjacency;
    ghost var seen;
    inDegree, adjacency, seen := ConnectNodes(nodes, nodeMap);
    r := Ok(Graph(nodeMap, inDegree, adjacency));
    AllEdgesSeen(nodes, r.value, seen);
  }

  lemma AllEdgesSeen(nodes: seq<Node>, g: Graph, seen: map<string, seq<string>>)
    requires EdgesSoFar(seen, g.inDegree, g.adjacency) && seen.Keys == g.nodeMap.Keys == Names(nodes)
    requires forall n :: n in nodes ==> DepsKnown(n, g.nodeMap)
    requires SeenUpTo(nodes, seen, |nodes|)
    requires forall b :: b in g.nodeMap ==> g.nodeMap[b] in nodes && g.nodeMap[b].name == b
    ensures g.inDegree.Keys == g.adjacency.Keys == g.nodeMap.Keys && EdgesCounted(g)
  {
    hide Names, Edges;
    assert forall b :: b in g.nodeMap ==> DepsKnown(g.nodeMap[b], g.nodeMap);
    forall b | b in g.nodeMap ensures seen[b] == g.nodeMap[b].deps {
      var j :| 0 <= j < |nodes| && nodes[j] == g.nodeMap[b];
    }
  }

  // ---- Kahn's algorithm ----

  /** Dependencies not yet among the processed nodes, counted with multiplicity. */
  ghost function Pending(deps: seq<string>, done: set<string>): nat {
    if deps == [] then 0 else Pending(deps[1..], done) + if deps[0] in done then 0 else 1
  }

  lemma {:induction false} PendingStep(deps: seq<string>, done: set<string>, name: string)
    requires name !in done
    ensures Pending(deps, done) == Pending(deps, done + {name}) + multiset(deps)[name]
  {
    if deps != [] {
      PendingStep(deps[1..], done, name);
      assert deps == [deps[0]] + deps[1..];
      assert multiset(deps) == multiset{deps[0]} + multiset(deps[1..]);
    }
  }

  lemma {:induction false} PendingZero(deps: seq<string>, done: set<string>)
    ensures Pending(deps, done) == 0 <==> forall d :: d in deps ==> d in done
  {
    if deps != [] {
      PendingZero(deps[1..], done);
      assert deps == [deps[0]] + deps[1..];
    }
  }

  lemma {:induction false} PendingNothingDone(deps: seq<string>)
    ensures Pending(deps, {}) == |deps|
  {
    if deps != [] { PendingNothingDone(deps[1..]); }
  }

  ghost function Elements(s: seq<string>): set<string> {
    set x | x in s
  }

  /** `order` lists nodes whose dependencies are all listed before them. */
  ghost predicate OrderedSoFar(nodeMap: map<string, Node>, order: seq<string>) {
    && (forall n :: n in order ==> n in nodeMap)
    && (forall i :: 0 <= i < |order| ==> forall d :: d in nodeMap[order[i]].deps ==> d in order[..i])
  }

  /** Between two rounds: a node is processed or queued exactly when none of its dependencies is pending. */
  ghost predicate KahnState(g: Graph, inDegree: map<string, int>, order: seq<string>, queue: seq<string>) {
    && inDegree.Keys == g.nodeMap.Keys
    && OrderedSoFar(g.nodeMap, order) && NoRepeats(order + queue)
    && (forall n :: n in g.nodeMap ==> inDegree[n] == Pending(g.nodeMap[n].deps, Elements(order)))
    && (forall n :: n in g.nodeMap ==> (n in order + queue <==> inDegree[n] == 0))
    && (forall n :: n in queue ==> n in g.nodeMap)
  }

  /** Inside a round: `current` is being processed and its first `j` edges are already discounted. */
  ghost predicate KahnRound(g: Graph, inDegree: map<string, int>, order: seq<string>, queue: seq<string>,
                            current: string, j: nat)
  {
    && current in g.adjacency && j <= |g.adjacency[current]| && inDegree.Keys == g.nodeMap.Keys
    && NoRepeats(order + [current] + queue)
    && (forall n :: n in g.nodeMap ==>
          inDegree[n] == Pending(g.nodeMap[n].deps, Elements(order)) - multiset(g.adjacency[current][..j])[n])
    && (forall n :: n in g.nodeMap ==> (n in order + [current] + queue <==> inDegree[n] == 0))
    && (forall n :: n in queue ==> n in g.nodeMap)
  }

  ghost predicate DepsIn(g: Graph, name: string, order: seq<string>) {
    name in g.nodeMap && forall d :: d in g.nodeMap[name].deps ==> d in order
  }

  lemma StartRound(g: Graph, inDegree: map<string, int>, order: seq<string>, queue: seq<string>)
    requires KahnState(g, inDegree, order, queue) && queue != [] && g.adjacency.Keys == g.nodeMap.Keys
    ensures KahnRound(g, inDegree, order, queue[1..], queue[0], 0)
    ensures queue[0] in g.adjacency && DepsIn(g, queue[0], order)
  {
    assert order + [queue[0]] + queue[1..] == order + queue;
    assert queue[0] in order + queue;
    PendingZero(g.nodeMap[queue[0]].deps, Elements(order));
    assert g.adjacency[queue[0]][..0] == [];
  }

  /** Discounting an edge never goes below zero. */
  lemma EdgeIsPending(g: Graph, inDegree: map<string, int>, order: seq<string>, queue: seq<string>,
                      current: string, j: nat)
    requires KahnRound(g, inDegree, order, queue, current, j) && j < |g.adjacency[current]|
    requires EdgesCounted(g)
    ensures g.adjacency[current][j] in inDegree && inDegree[g.adjacency[current][j]] >= 1
  {
    hide Pending;
    var edges := g.adjacency[current];
    var n := edges[j];
    assert n in edges;
    CurrentIsNew(order, current, queue);
    PendingStep(g.nodeMap[n].deps, Elements(order), current);
    TakeOne(edges, j);
    assert Edges(g.adjacency, current, n) == multiset(g.nodeMap[n].deps)[current];
  }

  lemma TakeOne(edges: seq<string>, j: nat)
    requires j < |edges|
    ensures multiset(edges[..j + 1]) == multiset(edges[..j]) + multiset{edges[j]}
    ensures multiset(edges)[edges[j]] >= multiset(edges[..j])[edges[j]] + 1
  {
    assert edges[..j + 1] == edges[..j] + [edges[j]];
    assert edges == edges[..j + 1] + edges[j + 1..];
  }

  /** A node joins the queue at its last pending dependency. */
  lemma DiscountEdge(g: Graph, inDegree: map<string, int>, order: seq<string>, queue: seq<string>,
                     current: string, j: nat)
    requires KahnRound(g, inDegree, order, queue, current, j) && j < |g.adjacency[current]|
    requires g.adjacency[current][j] in g.nodeMap && inDegree[g.adjacency[current][j]] >= 1
    ensures var n := g.adjacency[current][j];
            var inDegree' := inDegree[n := inDegree[n] - 1];
            KahnRound(g, inDegree', order, if inDegree'[n] == 0 then queue + [n] else queue, current, j + 1)
  {
    hide Pending;
    var n := g.adjacency[current][j];
    TakeOne(g.adjacency[current], j);
    if inDegree[n] == 1 {
      AppendNew(order + [current] + queue, n);
      assert order + [current] + (queue + [n]) == (order + [current] + queue) + [n];
    }
  }

  lemma AppendNew(s: seq<string>, n: string)
    requires NoRepeats(s) && n !in s
    ensures NoRepeats(s + [n])
    ensures forall m :: m in s + [n] <==> m in s || m == n
  {}

  lemma CurrentIsNew(order: seq<string>, current: string, queue: seq<string>)
    requires NoRepeats(order + [current] + queue)
    ensures current !in order
  {
    var all := order + [current] + queue;
    assert all[|order|] == current;
    assert forall i :: 0 <= i < |order| ==> all[i] == order[i];
  }

  lemma EndRound(g: Graph, inDegree: map<string, int>, order: seq<string>, queue: seq<string>, current: string)
    requires current in g.adjacency && KahnRound(g, inDegree, order, queue, current, |g.adjacency[current]|)
    requires EdgesCounted(g)
    requires OrderedSoFar(g.nodeMap, order) && DepsIn(g, current, order)
    ensures KahnState(g, inDegree, order + [current], queue)
  {
    hide Pending;
    CurrentIsNew(order, current, queue);
    var edges := g.adjacency[current];
    assert edges[..|edges|] == edges;
    assert Elements(order + [current]) == Elements(order) + {current};
    forall n | n in g.nodeMap
      ensures inDegree[n] == Pending(g.nodeMap[n].deps, Elements(order + [current]))
    {
      PendingStep(g.nodeMap[n].deps, Elements(order), current);
      assert Edges(g.adjacency, current, n) == multiset(g.nodeMap[n].deps)[current];
    }
    AppendOrdered(g.nodeMap, order, current);
  }

  lemma AppendOrdered(nodeMap: map<string, Node>, order: seq<string>, current: string)
    requires OrderedSoFar(nodeMap, order) && current in nodeMap
    requires forall d :: d in nodeMap[current].deps ==> d in order
    ensures OrderedSoFar(nodeMap, order + [current])
  {
    var order' := order + [current];
    forall i | 0 <= i < |order'|
      ensures forall d :: d in nodeMap[order'[i]].deps ==> d in order'[..i]
    {
      assert order'[..i] == order[..i];
    }
  }

  /** The names with no dependencies, in node order. */
  method InitialQueue(nodes: seq<Node>, g: Graph) returns (queue: seq<string>)
    requires IsGraphOf(nodes, g)
    ensures KahnState(g, g.inDegree, [], queue)
  {
    hide EdgesCounted, Names, KahnState;
    assert Names(nodes[..0]) == {} by { NoNames(); }
    queue := [];
    for i := 0 to |nodes|
      invariant NoRepeats(queue)
      invariant forall n :: n in queue <==> n in g.inDegree && g.inDegree[n] == 0 && n in Names(nodes[..i])
    {
      var name := nodes[i].name;
      assert nodes[i] in nodes;
      NameIsNew(nodes, i);
      if g.inDegree[name] == 0 {
        AppendNew(queue, name);
        queue := queue + [name];
      }
    }
    assert nodes[..|nodes|] == nodes;
    InitialState(nodes, g, queue);
  }

  lemma NoNames()
    ensures Names([]) == {}
  {}

  lemma NameIsNew(nodes: seq<Node>, i: nat)
    requires DistinctNames(nodes) && i < |nodes|
    ensures nodes[i].name !in Names(nodes[..i]) && Names(nodes[..i + 1]) == Names(nodes[..i]) + {nodes[i].name}
  {
    assert nodes[..i + 1] == nodes[..i] + [nodes[i]];
  }

  lemma InitialState(nodes: seq<Node>, g: Graph, queue: seq<string>)
    requires IsGraphOf(nodes, g) && NoRepeats(queue)
    requires forall n :: n in g.nodeMap ==> (n in queue <==> g.inDegree[n] == 0)
    requires forall n :: n in queue ==> n in g.nodeMap
    ensures KahnState(g, g.inDegree, [], queue)
  {
    hide Names;
    assert [] + queue == queue;
    assert Elements([]) == {};
    forall n | n in g.nodeMap ensures g.inDegree[n] == Pending(g.nodeMap[n].deps, {}) {
      PendingNothingDone(g.nodeMap[n].deps);
    }
  }

  method DiscountNeighbor(g: Graph, current: string, ghost order: seq<string>, inDegree0: map<string, int>,
                          queue0: seq<string>, neighbor: string, ghost j: nat)
    returns (inDegree: map<string, int>, queue: seq<string>)
    requires EdgesCounted(g) && KahnRound(g, inDegree0, order, queue0, current, j)
    requires j < |g.adjacency[current]| && neighbor == g.adjacency[current][j]
    ensures KahnRound(g, inDegree, order, queue, current, j + 1)
  {
    EdgeIsPending(g, inDegree0, order, queue0, current, j);
    assert neighbor in g.adjacency[current];
    DiscountEdge(g, inDegree0, order, queue0, current, j);
    hide KahnRound, EdgesCounted;
    inDegree, queue := inDegree0[neighbor := inDegree0[neighbor] - 1], queue0;
    if inDegree[neighbor] == 0 {
      queue := queue + [neighbor];
    }
  }

  /** Discounts the edges of one processed node. */
  method ProcessNode(g: Graph, current: string, ghost order: seq<string>, inDegree0: map<string, int>,
                     queue0: seq<string>)
    returns (inDegree: map<string, int>, queue: seq<string>)
    requires EdgesCounted(g) && current in g.adjacency && KahnRound(g, inDegree0, order, queue0, current, 0)
    requires OrderedSoFar(g.nodeMap, order) && DepsIn(g, current, order)
    ensures KahnState(g, inDegree, order + [current], queue)
  {
    hide KahnState, KahnRound, OrderedSoFar, EdgesCounted, DepsIn;
    inDegree, queue := inDegree0, queue0;
    var neighbors := g.adjacency[current];
    for j := 0 to |neighbors|
      invariant KahnRound(g, inDegree, order, queue, current, j)
    {
      inDegree, queue := DiscountNeighbor(g, current, order, inDegree, queue, neighbors[j], j);
    }
    EndRound(g, inDegree, order, queue, current);
  }

  /** Kahn's loop: processes nodes whose dependencies are processed until none is left in the queue. */
  method Kahn(nodes: seq<Node>, g: Graph) returns (order: seq<string>, inDegree: map<string, int>)
    requires IsGraphOf(nodes, g)
    ensures KahnState(g, inDegree, order, [])
  {
    inDegree := g.inDegree;
    var queue := InitialQueue(nodes, g);
    order := [];
    while queue != []
      invariant KahnState(g, inDegree, order, queue)
      decreases |g.nodeMap| - |order|
    {
      hide EdgesCounted, Names;
      var current := queue[0];
      StartRound(g, inDegree, order, queue);
      RoomLeft(g, inDegree, order, queue);
      inDegree, queue := ProcessNode(g, current, order, inDegree, queue[1..]);
      order := order + [current];
    }
  }

  lemma RoomLeft(g: Graph, inDegree: map<string, int>, order: seq<string>, queue: seq<string>)
    requires KahnState(g, inDegree, order, queue) && queue != []
    ensures |order| < |g.nodeMap|
  {
    var all := order + queue;
    assert forall i :: 0 <= i < |all| ==> all[i] in all;
    assert |all[..|order| + 1]| == |order| + 1;
    assert forall n :: n in all[..|order| + 1] ==> n in g.nodeMap;
    NoRepeatsSize(all[..|order| + 1], g.nodeMap.Keys);
  }

  lemma {:induction false} NoRepeatsSize(s: seq<string>, within: set<string>)
    requires NoRepeats(s) && forall x :: x in s ==> x in within
    ensures |s| == |Elements(s)| <= |within|
  {
    if s == [] {
      assert Elements(s) == {};
    } else {
      var last := s[|s| - 1];
      var rest := s[..|s| - 1];
      assert s == rest + [last] && last !in rest;
      NoRepeatsSize(rest, within - {last});
      assert Elements(s) == Elements(rest) + {last};
      assert within - {last} + {last} == within;
    }
  }
}
