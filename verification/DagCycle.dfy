/** Finding a cycle among the nodes Kahn's algorithm could not process, and the two entry points built on it. */
module DagCycle {
  import opened Dag
  import opened Wrappers
  import opened Sequences

  /** Dependents of a node that also remain. */
  predicate Edge(adjacency: map<string, seq<string>>, remaining: set<string>, a: string, b: string) {
    a in adjacency && b in adjacency[a] && b in remaining
  }

  /** A path along edges. */
  ghost predicate Walk(adjacency: map<string, seq<string>>, remaining: set<string>, path: seq<string>) {
    forall i :: 0 <= i < |path| - 1 ==> Edge(adjacency, remaining, path[i], path[i + 1])
  }

  /** A path along edges that ends where it started. */
  ghost predicate ClosedLoop(adjacency: map<string, seq<string>>, remaining: set<string>, path: seq<string>) {
    |path| >= 2 && path[0] == path[|path| - 1] && Walk(adjacency, remaining, path)
  }

  /** Every remaining dependent of a listed node is listed before it. */
  ghost predicate DependentsFirst(adjacency: map<string, seq<string>>, remaining: set<string>, order: seq<string>) {
    && NoRepeats(order)
    && forall i, y :: 0 <= i < |order| && Edge(adjacency, remaining, order[i], y) ==> y in order[..i]
  }

  function IndexOf(path: seq<string>, node: string): (i: nat)
    requires node in path
    ensures i < |path| && path[i] == node
  {
    if path[0] == node then 0 else 1 + IndexOf(path[1..], node)
  }

  /** The depth-first search: `path` is the exploration stack and `visited` the nodes entered from this root. */
  class CycleSearch {
    const adjacency: map<string, seq<string>>
    const remaining: set<string>
    var path: seq<string>
    var visited: set<string>
    ghost var order: seq<string>  // nodes left without finding a cycle, over all roots

    constructor (adjacency: map<string, seq<string>>, remaining: set<string>)
      ensures this.adjacency == adjacency && this.remaining == remaining
      ensures path == [] && visited == {} && order == [] && Valid()
    {
      this.adjacency := adjacency;
      this.remaining := remaining;
      path := [];
      visited := {};
      order := [];
    }

    ghost predicate Valid()
      reads this
    {
      && Walk(adjacency, remaining, path) && NoRepeats(path)
      && (forall n :: n in path ==> n in visited)
      && visited <= remaining
      && DependentsFirst(adjacency, remaining, order)
      && (forall n :: n in visited ==> n in path || n in order)
      && (forall n :: n in order ==> n in remaining)
    }

    /** Starts over from another root; what earlier roots ruled out stays known. */
    method Reset()
      requires Valid()
      modifies this
      ensures Valid() && path == [] && visited == {} && order == old(order)
    {
      path := [];
      visited := {};
    }

    /** Explores from `node`. Found: `path` is a closed loop. Not found: the stack is back as it was, and
        nothing reachable from `node` lies on a loop.
    */
    method Dfs(node: string) returns (found: bool)
      requires Valid() && CanStep(node)
      modifies this
      ensures found ==> ClosedLoop(adjacency, remaining, path)
      ensures !found ==> Valid() && path == old(path) && node in order
      ensures !found ==> old(visited) <= visited && old(RuledOut()) <= RuledOut()
      decreases |remaining - visited|, 0
    {
      hide Walk, DependentsFirst, ClosedLoop;
      if node in path {
        var cycleStart := IndexOf(path, node);
        CloseLoop(adjacency, remaining, path, node, cycleStart);
        path := (path + [node])[cycleStart..];
        return true;
      }
      if node in visited {
        return false;
      }
      ghost var stack := path;
      Enter(node);
      assert path[|path| - 1] == node;
      found := Explore(node);
      if found {
        return true;
      }
      Leave(node);
      assert path == stack;
    }

    ghost predicate CanStep(node: string)
      reads this
    {
      node in remaining && (path != [] ==> Edge(adjacency, remaining, path[|path| - 1], node))
    }

    ghost function RuledOut(): set<string>
      reads this
    {
      set n | n in order
    }

    method Enter(node: string)
      requires Valid() && CanStep(node) && node !in visited
      modifies this`path, this`visited
      ensures Valid() && path == old(path) + [node] && visited == old(visited) + {node}
      ensures |remaining - visited| < |remaining - old(visited)|
    {
      PushKeepsWalk(adjacency, remaining, path, node);
      Shrinks(remaining - visited, node);
      assert remaining - (visited + {node}) == remaining - visited - {node};
      hide Walk, DependentsFirst, NoRepeats, Edge;
      visited := visited + {node};
      path := path + [node];
    }

    method Leave(node: string)
      requires Valid() && path != [] && path[|path| - 1] == node
      requires forall y :: Edge(adjacency, remaining, node, y) ==> y in order
      modifies this`path, this`order
      ensures Valid() && path == old(path)[..|old(path)| - 1] && node in order
      ensures old(RuledOut()) <= RuledOut()
    {
      hide DependentsFirst, Edge;
      LeaveNode(adjacency, remaining, order, node);
      assert path == path[..|path| - 1] + [node];
      path := path[..|path| - 1];
      if node !in order {
        order := order + [node];
      }
    }

    /** The loop over the neighbors of the node on top of the stack. */
    method Explore(node: string) returns (found: bool)
      requires Valid() && path != [] && path[|path| - 1] == node
      modifies this
      ensures found ==> ClosedLoop(adjacency, remaining, path)
      ensures !found ==> Valid() && path == old(path) && old(visited) <= visited && old(RuledOut()) <= RuledOut()
      ensures !found ==> forall y :: Edge(adjacency, remaining, node, y) ==> y in order
      decreases |remaining - visited|, 1
    {
      hide Walk, DependentsFirst, NoRepeats, ClosedLoop;
      var neighbors := if node in adjacency then adjacency[node] else [];
      var i := 0;
      while i < |neighbors|
        invariant 0 <= i <= |neighbors|
        invariant Valid() && path == old(path) && old(visited) <= visited
        invariant old(RuledOut()) <= RuledOut()
        invariant forall j :: 0 <= j < i && neighbors[j] in remaining ==> neighbors[j] in RuledOut()
      {
        if neighbors[i] in remaining {
          Smaller(remaining - visited, remaining - old(visited));
          found := Dfs(neighbors[i]);
          if found {
            return true;
          }
        }
        i := i + 1;
      }
      found := false;
    }
  }

  lemma Shrinks(s: set<string>, x: string)
    requires x in s
    ensures |s - {x}| < |s|
  {}

  lemma Smaller(a: set<string>, b: set<string>)
    requires a <= b
    ensures |a| <= |b|
  {
    assert b == a + (b - a);
  }

  lemma PushKeepsWalk(adjacency: map<string, seq<string>>, remaining: set<string>, path: seq<string>, node: string)
    requires Walk(adjacency, remaining, path) && NoRepeats(path) && node !in path
    requires path != [] ==> Edge(adjacency, remaining, path[|path| - 1], node)
    ensures Walk(adjacency, remaining, path + [node]) && NoRepeats(path + [node])
  {}

  lemma CloseLoop(adjacency: map<string, seq<string>>, remaining: set<string>, path: seq<string>, node: string, start: nat)
    requires Walk(adjacency, remaining, path) && start < |path| && path[start] == node
    requires Edge(adjacency, remaining, path[|path| - 1], node)
    ensures ClosedLoop(adjacency, remaining, (path + [node])[start..])
  {
    var loop := (path + [node])[start..];
    forall i | 0 <= i < |loop| - 1
      ensures Edge(adjacency, remaining, loop[i], loop[i + 1])
    {
      assert loop[i] == path[start + i];
      if start + i + 1 < |path| {
        assert Edge(adjacency, remaining, path[start + i], path[start + i + 1]);
      }
    }
  }

  lemma LeaveNode(adjacency: map<string, seq<string>>, remaining: set<string>, order: seq<string>, node: string)
    requires DependentsFirst(adjacency, remaining, order)
    requires forall y :: Edge(adjacency, remaining, node, y) ==> y in order
    ensures node !in order ==> DependentsFirst(adjacency, remaining, order + [node])
  {
    if node !in order {
      AppendNew(order, node);
      var longer := order + [node];
      forall i, y | 0 <= i < |longer| && Edge(adjacency, remaining, longer[i], y)
        ensures y in longer[..i]
      {
        assert longer[..i] == order[..i];
      }
    }
  }

  // ---- The reported cycle ----

  /** Each remaining node is stuck on another one: some remaining node has an edge to it. */
  ghost predicate Stuck(adjacency: map<string, seq<string>>, remaining: set<string>, n: string) {
    exists p :: p in remaining && Edge(adjacency, remaining, p, n)
  }

  ghost predicate AllStuck(adjacency: map<string, seq<string>>, remaining: set<string>) {
    forall n {:trigger Stuck(adjacency, remaining, n)} :: n in remaining ==> Stuck(adjacency, remaining, n)
  }

  /** A nonempty set of stuck nodes is never listed dependents first in full: a predecessor of the last
      node listed is missing.
  */
  lemma SomeNotRuledOut(adjacency: map<string, seq<string>>, remaining: set<string>, order: seq<string>)
    requires AllStuck(adjacency, remaining) && DependentsFirst(adjacency, remaining, order)
    requires exists n :: n in remaining
    requires forall n :: n in order ==> n in remaining
    ensures exists n :: n in remaining && n !in order
  {
    if order != [] {
      var last := order[|order| - 1];
      assert last in order;
      assert Stuck(adjacency, remaining, last);
      var p :| p in remaining && Edge(adjacency, remaining, p, last);
      forall i | 0 <= i < |order| ensures order[i] != p {
        NoEdgeToLast(adjacency, remaining, order, i);
      }
    }
  }

  lemma NoEdgeToLast(adjacency: map<string, seq<string>>, remaining: set<string>, order: seq<string>, i: nat)
    requires DependentsFirst(adjacency, remaining, order) && i < |order|
    ensures !Edge(adjacency, remaining, order[i], order[|order| - 1])
  {
    assert order[|order| - 1] !in order[..i];
  }

  /** Find a cycle path from the nodes that Kahn's loop left over. */
  method FindCyclePath(remaining: seq<string>, adjacency: map<string, seq<string>>) returns (cycle: seq<string>)
    requires remaining != [] && AllStuck(adjacency, Elements(remaining))
    ensures ClosedLoop(adjacency, Elements(remaining), cycle)
  {
    hide AllStuck;
    var search := new CycleSearch(adjacency, set n | n in remaining);
    assert search.remaining == Elements(remaining);
    for i := 0 to |remaining|
      invariant search.Valid() && fresh(search)
      invariant forall j :: 0 <= j < i ==> remaining[j] in search.RuledOut()
    {
      hide Walk, DependentsFirst, ClosedLoop, NoRepeats;
      search.Reset();
      assert remaining[i] in search.remaining;
      var found := search.Dfs(remaining[i]);
      if found {
        return search.path;
      }
    }
    cycle := if |remaining| <= 2 then remaining else remaining[..2];
    assert remaining[0] in search.remaining;
    SomeNotRuledOut(adjacency, search.remaining, search.order);
    assert false;
  }

  // ---- validateDAG and topoSort ----

  /** Nodes Kahn's loop left over: each still waits for another one of them. */
  lemma LeftoverIsStuck(nodes: seq<Node>, g: Graph, inDegree: map<string, int>, order: seq<string>, remaining: set<string>)
    requires IsGraphOf(nodes, g) && KahnState(g, inDegree, order, [])
    requires forall n :: n in remaining <==> n in g.nodeMap && inDegree[n] > 0
    ensures AllStuck(g.adjacency, remaining)
  {
    hide Names;
    forall n | n in remaining
      ensures Stuck(g.adjacency, remaining, n)
    {
      StuckNode(nodes, g, inDegree, order, remaining, n);
    }
  }

  lemma StuckNode(nodes: seq<Node>, g: Graph, inDegree: map<string, int>, order: seq<string>, remaining: set<string>, n: string)
    requires IsGraphOf(nodes, g) && KahnState(g, inDegree, order, [])
    requires forall n :: n in remaining <==> n in g.nodeMap && inDegree[n] > 0
    requires n in remaining
    ensures Stuck(g.adjacency, remaining, n)
  {
    hide Names;
    PendingZero(g.nodeMap[n].deps, Elements(order));
    var d :| d in g.nodeMap[n].deps && d !in order;
    assert order + [] == order;
    assert d in remaining;
    assert Edges(g.adjacency, d, n) == multiset(g.nodeMap[n].deps)[d];
    assert n in multiset(g.adjacency[d]);
    assert Edge(g.adjacency, remaining, d, n);
  }

  /** An edge of the graph is a dependency between nodes. */
  lemma LoopIsClosedWalk(nodes: seq<Node>, g: Graph, remaining: set<string>, path: seq<string>)
    requires IsGraphOf(nodes, g) && ClosedLoop(g.adjacency, remaining, path)
    ensures ClosedWalk(nodes, path)
  {
    hide Names;
    forall i | 0 <= i < |path| - 1
      ensures DependsOn(nodes, path[i], path[i + 1])
    {
      var a, b := path[i], path[i + 1];
      assert Edge(g.adjacency, remaining, a, b);
      assert b in multiset(g.adjacency[a]);
      assert Edges(g.adjacency, a, b) == multiset(g.nodeMap[b].deps)[a];
      assert g.nodeMap[b] in nodes && a in g.nodeMap[b].deps;
    }
  }

  lemma {:induction false} NamesSize(nodes: seq<Node>)
    requires DistinctNames(nodes)
    ensures |Names(nodes)| == |nodes|
  {
    if nodes == [] {
      assert Names(nodes) == {};
    } else {
      var rest := nodes[..|nodes| - 1];
      NamesSize(rest);
      assert nodes[..|nodes|] == nodes;
      NameIsNew(nodes, |nodes| - 1);
    }
  }

  /** Nothing is left over exactly when every node was processed. */
  lemma LeftoverExists(nodes: seq<Node>, g: Graph, inDegree: map<string, int>, order: seq<string>)
    requires IsGraphOf(nodes, g) && KahnState(g, inDegree, order, [])
    ensures |order| <= |nodes|
    ensures |order| < |nodes| ==> exists n :: n in g.nodeMap && n !in order
    ensures |order| >= |nodes| ==> forall n :: n in g.nodeMap ==> n in order
  {
    NamesSize(nodes);
    assert order + [] == order;
    hide Pending, EdgesCounted, OrderedSoFar, Names, DistinctNames;
    assert forall n :: n in order + [] ==> n in g.nodeMap by { OrderIsKnown(g, inDegree, order); }
    CoversAll(order, g.nodeMap.Keys);
  }

  lemma OrderIsKnown(g: Graph, inDegree: map<string, int>, order: seq<string>)
    requires KahnState(g, inDegree, order, [])
    ensures forall n :: n in order ==> n in g.nodeMap
  {}

  lemma CoversAll(order: seq<string>, keys: set<string>)
    requires NoRepeats(order) && forall n :: n in order ==> n in keys
    ensures |order| <= |keys|
    ensures |order| < |keys| ==> exists n :: n in keys && n !in order
    ensures |order| >= |keys| ==> forall n :: n in keys ==> n in order
  {
    NoRepeatsSize(order, keys);
    var elements := Elements(order);
    assert elements <= keys;
    assert keys == elements + (keys - elements);
    assert |keys - elements| == |keys| - |order|;
    assert |order| < |keys| ==> exists n :: n in keys - elements;
  }

  /** The cycle among the nodes left over by Kahn's loop. */
  method ReportCycle(nodes: seq<Node>, g: Graph, inDegree: map<string, int>, order: seq<string>) returns (path: seq<string>)
    requires IsGraphOf(nodes, g) && KahnState(g, inDegree, order, []) && |order| < |nodes|
    ensures ClosedWalk(nodes, path)
  {
    hide Pending, EdgesCounted, OrderedSoFar, DistinctNames, Names;
    var remaining: seq<string> := [];
    for i := 0 to |nodes|
      invariant forall n :: n in remaining <==> exists j :: 0 <= j < i && nodes[j].name == n && nodes[j].name in g.nodeMap && inDegree[n] > 0
    {
      assert nodes[i] in nodes;
      if inDegree[nodes[i].name] > 0 {
        remaining := remaining + [nodes[i].name];
      }
    }
    RemainingAreLeft(nodes, g, inDegree, order, remaining);
    path := FindCyclePath(remaining, g.adjacency);
    LoopIsClosedWalk(nodes, g, Elements(remaining), path);
  }

  lemma RemainingAreLeft(nodes: seq<Node>, g: Graph, inDegree: map<string, int>, order: seq<string>, remaining: seq<string>)
    requires IsGraphOf(nodes, g) && KahnState(g, inDegree, order, []) && |order| < |nodes|
    requires forall n :: n in remaining <==>
               exists j :: 0 <= j < |nodes| && nodes[j].name == n && nodes[j].name in g.nodeMap && inDegree[n] > 0
    ensures remaining != [] && AllStuck(g.adjacency, Elements(remaining))
  {
    hide Pending, EdgesCounted, OrderedSoFar, DistinctNames, Names;
    LeftoverExists(nodes, g, inDegree, order);
    assert order + [] == order;
    forall n | n in g.nodeMap && inDegree[n] > 0 ensures n in remaining {
      var j :| 0 <= j < |nodes| && nodes[j] == g.nodeMap[n];
    }
    LeftoverIsStuck(nodes, g, inDegree, order, Elements(remaining));
    var n :| n in g.nodeMap && n !in order;
    assert n in remaining by { PendingIsPositive(g, inDegree, order, n); }
  }

  lemma PendingIsPositive(g: Graph, inDegree: map<string, int>, order: seq<string>, n: string)
    requires KahnState(g, inDegree, order, []) && n in g.nodeMap && n !in order
    ensures inDegree[n] > 0
  {
    assert order + [] == order;
  }

  /** All nodes processed: the processing order is the sorted list. */
  lemma OrderIsSorted(nodes: seq<Node>, g: Graph, inDegree: map<string, int>, order: seq<string>, sorted: seq<Node>)
    requires IsGraphOf(nodes, g) && KahnState(g, inDegree, order, []) && |order| >= |nodes|
    requires |sorted| == |order| && forall i :: 0 <= i < |order| ==> order[i] in g.nodeMap && sorted[i] == g.nodeMap[order[i]]
    ensures DistinctNames(sorted) && DepsFirst(sorted) && multiset(sorted) == multiset(nodes)
  {
    assert order + [] == order;
    hide Pending, EdgesCounted, Names;
    assert forall i :: 0 <= i < |sorted| ==> sorted[i].name == order[i];
    forall i, d | 0 <= i < |sorted| && d in sorted[i].deps
      ensures exists j :: 0 <= j < i && sorted[j].name == d
    {
      assert d in order[..i];
    }
    LeftoverExists(nodes, g, inDegree, order);
    forall n ensures n in sorted <==> n in nodes {
      if n in nodes {
        var i :| 0 <= i < |order| && order[i] == n.name;
        assert sorted[i] == n;
      }
    }
    SameElementsSameMultiset(sorted, nodes);
  }

  lemma {:induction false} DistinctCount(s: seq<Node>, n: Node)
    requires DistinctNames(s)
    ensures multiset(s)[n] == if n in s then 1 else 0
  {
    if s != [] {
      var rest := s[..|s| - 1];
      assert s == rest + [s[|s| - 1]];
      DistinctCount(rest, n);
    }
  }

  lemma SameElementsSameMultiset(a: seq<Node>, b: seq<Node>)
    requires DistinctNames(a) && DistinctNames(b) && forall n :: n in a <==> n in b
    ensures multiset(a) == multiset(b)
  {
    forall n ensures multiset(a)[n] == multiset(b)[n] {
      DistinctCount(a, n);
      DistinctCount(b, n);
    }
  }

  /** Topological sort: accepts exactly the valid DAGs, and then lists every node once, after its dependencies.
      A reported cycle is a closed walk along dependencies.
  */
  method TopoSort(nodes: seq<Node>) returns (r: Result<seq<Node>, GraphError>)
    ensures r.Ok? <==> ValidDag(nodes)
    ensures r.Ok? ==> multiset(r.value) == multiset(nodes) && DepsFirst(r.value) && DistinctNames(r.value)
    ensures r.Err? ==> Explains(nodes, r.error)
  {
    hide ClosedWalk, KahnState, DepsFirst, DistinctNames, KnownDeps;
    var built := BuildGraph(nodes);
    if built.Err? {
      ExplainedIsInvalid(nodes, built.error);
      return Err(built.error);
    }
    var g := built.value;
    var order, inDegree := Kahn(nodes, g);
    if |order| < |nodes| {
      var path := ReportCycle(nodes, g, inDegree, order);
      ExplainedIsInvalid(nodes, Cycle(path));
      return Err(Cycle(path));
    }
    assert forall n :: n in order ==> n in g.nodeMap by { OrderIsKnown(g, inDegree, order); }
    var sorted := seq(|order|, i requires 0 <= i < |order| => g.nodeMap[order[i]]);
    OrderIsSorted(nodes, g, inDegree, order, sorted);
    SortedIsAcyclic(nodes, sorted);
    r := Ok(sorted);
  }

  /** The same loop, only counting: accepts exactly what TopoSort accepts, with the same kinds of errors. */
  method ValidateDag(nodes: seq<Node>) returns (r: Result<(), GraphError>)
    ensures r.Ok? <==> ValidDag(nodes)
    ensures r.Err? ==> Explains(nodes, r.error)
  {
    hide ClosedWalk, KahnState, DepsFirst, DistinctNames, KnownDeps;
    var built := BuildGraph(nodes);
    if built.Err? {
      ExplainedIsInvalid(nodes, built.error);
      return Err(built.error);
    }
    var g := built.value;
    var order, inDegree := Kahn(nodes, g);
    var processed := |order|;
    if processed < |nodes| {
      var path := ReportCycle(nodes, g, inDegree, order);
      ExplainedIsInvalid(nodes, Cycle(path));
      return Err(Cycle(path));
    }
    assert forall n :: n in order ==> n in g.nodeMap by { OrderIsKnown(g, inDegree, order); }
    ghost var sorted := seq(|order|, i requires 0 <= i < |order| => g.nodeMap[order[i]]);
    OrderIsSorted(nodes, g, inDegree, order, sorted);
    SortedIsAcyclic(nodes, sorted);
    r := Ok(());
  }

  /** The error names a real defect of the node set. */
  ghost predicate Explains(nodes: seq<Node>, error: GraphError) {
    match error
    case DuplicateName(_) => !DistinctNames(nodes)
    case UnknownDep(_, _) => DistinctNames(nodes) && !KnownDeps(nodes)
    case Cycle(path) => DistinctNames(nodes) && ClosedWalk(nodes, path)
  }

  lemma ExplainedIsInvalid(nodes: seq<Node>, error: GraphError)
    requires Explains(nodes, error)
    ensures !ValidDag(nodes)
  {
    hide ClosedWalk, DistinctNames, KnownDeps;
  }
}
